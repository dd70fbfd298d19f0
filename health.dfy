/**
 * The deployment-health report: the loop of AppHandler.deployment_health over
 * the cluster's deployments, here given as an input sequence.
 */
module Health {
  import opened Wrappers

  /**
   * A deployment as the report reads it: metadata name and namespace,
   * spec.replicas and status.available_replicas (both may be unset).
   */
  datatype Deployment = Deployment(name: string, namespace: string, replicas: Option<int>, availableReplicas: Option<int>)

  /** {"name", "namespace", "desired", "available"}; desired is null when spec.replicas is unset. */
  datatype HealthEntry = HealthEntry(name: string, namespace: string, desired: Option<int>, available: int)

  /** `available_replicas or 0`: unset counts as 0. */
  function Available(d: Deployment): (n: int)
    ensures d.availableReplicas.None? ==> n == 0
    ensures d.availableReplicas.Some? ==> n == d.availableReplicas.value
  {
    match d.availableReplicas
    case Some(n) => n
    case None => 0
  }

  /** The desired count differs from the available one (an unset desired count differs from every number). */
  predicate Unhealthy(d: Deployment)
    ensures d.replicas.None? ==> Unhealthy(d)
    ensures d.availableReplicas.None? && d.replicas.Some? ==> (Unhealthy(d) <==> d.replicas.value != 0)
    ensures d.availableReplicas.Some? && d.replicas.Some? ==> (Unhealthy(d) <==> d.replicas != d.availableReplicas)
  {
    d.replicas != Some(Available(d))
  }

  function EntryOf(d: Deployment): HealthEntry {
    HealthEntry(d.name, d.namespace, d.replicas, Available(d))
  }

  /**
   * The report for `deps`: one entry per unhealthy deployment, in input order.
   * A healthy deployment adds nothing; every reported entry has desired != available.
   */
  function Report(deps: seq<Deployment>): (r: seq<HealthEntry>)
    ensures |r| <= |deps|
    ensures forall i :: 0 <= i < |r| ==> r[i].desired != Some(r[i].available)
    decreases |deps|
  {
    if deps == [] then []
    else
      var last := deps[|deps| - 1];
      Report(deps[..|deps| - 1]) + (if Unhealthy(last) then [EntryOf(last)] else [])
  }

  /** The report of a concatenation is the concatenation of the reports: order is kept. */
  lemma {:induction false} ReportAppend(a: seq<Deployment>, b: seq<Deployment>)
    ensures Report(a + b) == Report(a) + Report(b)
    decreases |b|
  {
    if b == [] {
      assert a + b == a;
    } else {
      assert (a + b)[..|a + b| - 1] == a + b[..|b| - 1];
      ReportAppend(a, b[..|b| - 1]);
    }
  }

  /** An entry is reported exactly when it describes some deployment whose counts differ. */
  lemma {:induction false} ReportMembership(deps: seq<Deployment>, e: HealthEntry)
    ensures e in Report(deps) <==> exists d :: d in deps && Unhealthy(d) && e == EntryOf(d)
    decreases |deps|
  {
    if deps != [] {
      var init, last := deps[..|deps| - 1], deps[|deps| - 1];
      ReportMembership(init, e);
      assert deps == init + [last];
      if d :| d in deps && Unhealthy(d) && e == EntryOf(d) {
        if d != last {
          assert d in init;
        }
      }
    }
  }

  /** A single deployment wanting 3 replicas with 2 available is reported once, with both counts. */
  lemma MismatchReportedOnce()
    ensures Report([Deployment("app1", "ns1", Some(3), Some(2))]) == [HealthEntry("app1", "ns1", Some(3), 2)]
  {
    var deps := [Deployment("app1", "ns1", Some(3), Some(2))];
    assert deps[..0] == [];
  }

  method DeploymentHealth(deps: seq<Deployment>) returns (unhealthy: seq<HealthEntry>)
    ensures unhealthy == Report(deps)
  {
    unhealthy := [];
    for i := 0 to |deps|
      invariant unhealthy == Report(deps[..i])
    {
      var dep := deps[i];
      assert deps[..i + 1][..i] == deps[..i];
      var desired := dep.replicas;
      var available := if dep.availableReplicas.Some? then dep.availableReplicas.value else 0;
      if desired != Some(available) {
        unhealthy := unhealthy + [HealthEntry(dep.name, dep.namespace, desired, available)];
      }
    }
    assert deps[..|deps|] == deps;
  }
}
