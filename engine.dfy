/**
 * The traffic-block engine: block_traffic, unblock_traffic and list_traffic_blocks
 * over the policy store. Each operation is a method on the store object, proved
 * equal to a function on store values; the lemmas below are about those functions.
 */
module Engine {
  import opened Wrappers
  import opened Naming
  import opened Policy
  import opened Store

  /** What the engine's operations raise: a KeyError for a missing label, or the store's ApiException. */
  datatype EngineError = KeyError(key: string) | ApiFailure(error: ApiError)

  // ---------------------------------------------------------------- block

  /**
   * The effect of block_traffic on store `s`: synthesize np1 and np2 (KeyError
   * before any store call when an `app` label is missing), create np1 in `fromNs`,
   * and only if that succeeded create np2 in `toNs`. Nothing is rolled back.
   */
  function BlockEffect(s: State, fromNs: string, fromLabels: Labels, toNs: string, toLabels: Labels)
    : (r: (Outcome<EngineError>, State))
    ensures r.1.faults == s.faults
    ensures Consistent(s) ==> Consistent(r.1)
    ensures r == (Fail(KeyError("app")), s) <==> "app" !in fromLabels || "app" !in toLabels
  {
    match Synthesize(fromNs, fromLabels, toNs, toLabels)
    case None => (Fail(KeyError("app")), s)
    case Some((np1, np2)) => CreatePair(s, fromNs, np1, toNs, np2)
  }

  /** The two creates of block_traffic: the second only when the first succeeded. */
  function CreatePair(s: State, ns1: string, np1: NetworkPolicy, ns2: string, np2: NetworkPolicy)
    : (r: (Outcome<EngineError>, State))
    ensures r.1.faults == s.faults
    ensures Consistent(s) ==> Consistent(r.1)
    ensures r.0 != Fail(KeyError("app"))
  {
    var (res1, s1) := CreateStep(s, ns1, np1);
    if res1.Fail? then (Fail(ApiFailure(res1.error)), s1)
    else
      var (res2, s2) := CreateStep(s1, ns2, np2);
      if res2.Fail? then (Fail(ApiFailure(res2.error)), s2) else (Pass, s2)
  }

  /**
   * The creates reach the store in order, np1 in `fromNs` first; when it fails the
   * second is never attempted, and a failing second create leaves np1 in place.
   * Afterwards zero, one or two of the rules were added, and success means both.
   * A failed block returns the failing create's own error unchanged.
   */
  lemma {:induction false} BlockOrderedNoRollback(s: State, fromNs: string, fromLabels: Labels, toNs: string, toLabels: Labels)
    requires "app" in fromLabels && "app" in toLabels
    ensures var np1 := Synthesize(fromNs, fromLabels, toNs, toLabels).value.0;
      var t := BlockEffect(s, fromNs, fromLabels, toNs, toLabels).1;
      t.log == s.log + [CreateCall(fromNs, np1.name)] <==> CreateStep(s, fromNs, np1).0.Fail?
    ensures var np1 := Synthesize(fromNs, fromLabels, toNs, toLabels).value.0;
      var r := BlockEffect(s, fromNs, fromLabels, toNs, toLabels);
      CreateStep(s, fromNs, np1).0.Fail? ==> r.1.items == s.items && r.0.Fail?
    ensures var (np1, np2) := Synthesize(fromNs, fromLabels, toNs, toLabels).value;
      var t := BlockEffect(s, fromNs, fromLabels, toNs, toLabels).1;
      CreateStep(s, fromNs, np1).0.Pass? ==>
        t.log == s.log + [CreateCall(fromNs, np1.name), CreateCall(toNs, np2.name)]
        && (t.items == s.items + [np1] || t.items == s.items + [np1, np2])
    ensures var (np1, np2) := Synthesize(fromNs, fromLabels, toNs, toLabels).value;
      var r := BlockEffect(s, fromNs, fromLabels, toNs, toLabels);
      r.0 == Pass <==> r.1.items == s.items + [np1, np2]
    ensures var np1 := Synthesize(fromNs, fromLabels, toNs, toLabels).value.0;
      var r, c1 := BlockEffect(s, fromNs, fromLabels, toNs, toLabels), CreateStep(s, fromNs, np1);
      c1.0.Fail? ==> r.0 == Fail(ApiFailure(c1.0.error))
    ensures var (np1, np2) := Synthesize(fromNs, fromLabels, toNs, toLabels).value;
      var r, c1 := BlockEffect(s, fromNs, fromLabels, toNs, toLabels), CreateStep(s, fromNs, np1);
      var c2 := CreateStep(c1.1, toNs, np2);
      c1.0.Pass? && c2.0.Fail? ==> r.0 == Fail(ApiFailure(c2.0.error))
  {
    var (np1, np2) := Synthesize(fromNs, fromLabels, toNs, toLabels).value;
    assert BlockEffect(s, fromNs, fromLabels, toNs, toLabels) == CreatePair(s, fromNs, np1, toNs, np2);
    CreatePairOrdered(s, fromNs, np1, toNs, np2);
  }

  lemma {:induction false} CreatePairOrdered(s: State, ns1: string, np1: NetworkPolicy, ns2: string, np2: NetworkPolicy)
    ensures var t := CreatePair(s, ns1, np1, ns2, np2).1;
      t.log == s.log + [CreateCall(ns1, np1.name)] <==> CreateStep(s, ns1, np1).0.Fail?
    ensures var r := CreatePair(s, ns1, np1, ns2, np2);
      CreateStep(s, ns1, np1).0.Fail? ==> r.1.items == s.items && r.0.Fail?
    ensures var t := CreatePair(s, ns1, np1, ns2, np2).1;
      CreateStep(s, ns1, np1).0.Pass? ==>
        t.log == s.log + [CreateCall(ns1, np1.name), CreateCall(ns2, np2.name)]
        && (t.items == s.items + [np1] || t.items == s.items + [np1, np2])
    ensures var r := CreatePair(s, ns1, np1, ns2, np2);
      r.0 == Pass <==> r.1.items == s.items + [np1, np2]
    ensures var r, c1 := CreatePair(s, ns1, np1, ns2, np2), CreateStep(s, ns1, np1);
      c1.0.Fail? ==> r.0 == Fail(ApiFailure(c1.0.error))
    ensures var r, c1 := CreatePair(s, ns1, np1, ns2, np2), CreateStep(s, ns1, np1);
      var c2 := CreateStep(c1.1, ns2, np2);
      c1.0.Pass? && c2.0.Fail? ==> r.0 == Fail(ApiFailure(c2.0.error))
  {
    var r := CreatePair(s, ns1, np1, ns2, np2);
    var c1 := CreateStep(s, ns1, np1);
    if c1.0.Fail? {
      assert r == (Fail(ApiFailure(c1.0.error)), c1.1);
      assert |r.1.items| != |s.items + [np1, np2]|;
    } else {
      var c2 := CreateStep(c1.1, ns2, np2);
      assert r.1 == c2.1;
      assert c1.1.log + [CreateCall(ns2, np2.name)] == s.log + [CreateCall(ns1, np1.name), CreateCall(ns2, np2.name)];
      assert r.1.log != s.log + [CreateCall(ns1, np1.name)] by {
        assert |r.1.log| == |s.log| + 2;
      }
      if c2.0.Pass? {
        assert c1.1.items + [np2] == s.items + [np1, np2];
      } else {
        assert |r.1.items| != |s.items + [np1, np2]|;
      }
    }
  }

  /**
   * Blocking the same pair again is not idempotent: unless the first create of
   * the second attempt is itself faulted, it finds np1 already stored, raises
   * 409, and the store keeps what it had. The faults in force for the second
   * attempt (`faults2`) may differ from those of the first.
   */
  lemma {:induction false} BlockTwiceConflicts(s: State, fromNs: string, fromLabels: Labels, toNs: string, toLabels: Labels,
                                              faults2: map<(Verb, Key), ApiError>)
    requires BlockEffect(s, fromNs, fromLabels, toNs, toLabels).0 == Pass
    requires (CreateVerb, (fromNs, RuleName(fromLabels["app"], toLabels["app"]))) !in faults2
    ensures var t := BlockEffect(s, fromNs, fromLabels, toNs, toLabels).1.(faults := faults2);
      var (o, u) := BlockEffect(t, fromNs, fromLabels, toNs, toLabels);
      o == Fail(ApiFailure(Conflict)) && u.items == t.items
  {
    var (np1, np2) := Synthesize(fromNs, fromLabels, toNs, toLabels).value;
    var t := BlockEffect(s, fromNs, fromLabels, toNs, toLabels).1.(faults := faults2);
    BlockOrderedNoRollback(s, fromNs, fromLabels, toNs, toLabels);
    assert np1 in t.items;
    assert KeyOf(np1) in Keys(t.items);
    assert CreateStep(t, fromNs, np1).0 == Fail(Conflict);
  }

  /**
   * Blocking an app from itself inside its own namespace names both rules alike:
   * np1 is created, the create of np2 raises 409, and np1 stays behind as half a
   * block, so block_traffic reports the failure after having changed the store.
   */
  lemma {:induction false} BlockSelfLeavesHalf(s: State, ns: string, labels: Labels)
    requires "app" in labels
    requires (ns, RuleName(labels["app"], labels["app"])) !in Keys(s.items)
    requires (CreateVerb, (ns, RuleName(labels["app"], labels["app"]))) !in s.faults
    ensures var np1 := Synthesize(ns, labels, ns, labels).value.0;
      var (o, t) := BlockEffect(s, ns, labels, ns, labels);
      && o == Fail(ApiFailure(Conflict))
      && t.items == s.items + [np1]
      && BlockOf(np1) == Some(EgressBlock(ns, labels, ns, labels["app"]))
  {
    var (np1, np2) := Synthesize(ns, labels, ns, labels).value;
    assert KeyOf(np1) == KeyOf(np2);
    var (res1, s1) := CreateStep(s, ns, np1);
    assert res1 == Pass && s1.items == s.items + [np1];
    assert np1 in s1.items;
    assert KeyOf(np2) in Keys(s1.items);
    assert CreateStep(s1, ns, np2).0 == Fail(Conflict);
    assert CreateStep(s1, ns, np2).1.items == s1.items;
    assert BlockEffect(s, ns, labels, ns, labels) == CreatePair(s, ns, np1, ns, np2);
  }

  method BlockTraffic(store: PolicyStore, fromNs: string, fromLabels: Labels, toNs: string, toLabels: Labels)
    returns (r: Outcome<EngineError>)
    requires store.Valid()
    modifies store
    ensures store.Valid()
    ensures (r, store.Snapshot()) == BlockEffect(old(store.Snapshot()), fromNs, fromLabels, toNs, toLabels)
  {
    var pair := Synthesize(fromNs, fromLabels, toNs, toLabels);
    if pair.None? {
      return Fail(KeyError("app"));
    }
    var (np1, np2) := pair.value;
    var res1 := store.Create(fromNs, np1);
    if res1.Fail? {
      return Fail(ApiFailure(res1.error));
    }
    var res2 := store.Create(toNs, np2);
    if res2.Fail? {
      return Fail(ApiFailure(res2.error));
    }
    r := Pass;
  }

  // ---------------------------------------------------------------- unblock

  /** The (namespace, name) pairs unblock_traffic deletes, in order. */
  function UnblockTargets(fromNs: string, fromLabels: Labels, toNs: string, toLabels: Labels)
    : (r: Option<seq<Key>>)
    ensures r.Some? <==> "app" in fromLabels && "app" in toLabels
    ensures r.Some? ==> |r.value| == 2
  {
    match (AppLabel(fromLabels), AppLabel(toLabels))
    case (Some(fromApp), Some(toApp)) => Some([(fromNs, RuleName(fromApp, toApp)), (toNs, RuleName(toApp, fromApp))])
    case _ => None
  }

  /**
   * Unblock computes its names independently of block, and they agree: the keys it
   * deletes are those of the two policies block creates for the same request, in
   * the same order.
   */
  lemma {:induction false} UnblockTargetsMatchBlock(fromNs: string, fromLabels: Labels, toNs: string, toLabels: Labels)
    ensures UnblockTargets(fromNs, fromLabels, toNs, toLabels).Some? <==> Synthesize(fromNs, fromLabels, toNs, toLabels).Some?
    ensures Synthesize(fromNs, fromLabels, toNs, toLabels).Some? ==>
      var (np1, np2) := Synthesize(fromNs, fromLabels, toNs, toLabels).value;
      UnblockTargets(fromNs, fromLabels, toNs, toLabels).value == [KeyOf(np1), KeyOf(np2)]
  {
    if "app" in fromLabels && "app" in toLabels {
      var (np1, np2) := Synthesize(fromNs, fromLabels, toNs, toLabels).value;
      assert np1.namespace == fromNs && np2.namespace == toNs;
    }
  }

  /** One of "deleted", "not_found" or "error: <reason>". */
  predicate IsDeleteOutcome(o: string) {
    o == "deleted" || o == "not_found" || (7 <= |o| && o[..7] == "error: ")
  }

  /**
   * How unblock_traffic reports one delete. (The source names ApiException in its
   * except clause without importing it; this is the classification that clause states.)
   */
  function Classify(res: Outcome<ApiError>): (o: string)
    ensures IsDeleteOutcome(o)
    ensures o == "deleted" <==> res.Pass?
    ensures o == "not_found" <==> res.Fail? && res.error.status == 404
    ensures res.Fail? && res.error.status != 404 ==> o == "error: " + res.error.reason
  {
    match res
    case Pass => "deleted"
    case Fail(e) =>
      if e.status == 404 then "not_found"
      else
        var o := "error: " + e.reason;
        assert o[0] == 'e';
        o
  }

  /** The names of `targets`. */
  function Names(targets: seq<Key>): set<string>
    decreases |targets|
  {
    if targets == [] then {} else Names(targets[..|targets| - 1]) + {targets[|targets| - 1].1}
  }

  /** The delete calls for `targets`, in order. */
  function DeleteCalls(targets: seq<Key>): seq<Call>
    decreases |targets|
  {
    if targets == [] then []
    else DeleteCalls(targets[..|targets| - 1]) + [DeleteCall(targets[|targets| - 1].0, targets[|targets| - 1].1)]
  }

  /** One pass of unblock_traffic's loop: delete `t` and record its outcome under its name. */
  function DeleteOne(results: map<string, string>, s: State, t: Key): (r: (map<string, string>, State))
    ensures r.0.Keys == results.Keys + {t.1}
    ensures r.0[t.1] == Classify(DeleteStep(s, t.0, t.1).0)
    ensures forall n :: n in results && n != t.1 ==> r.0[n] == results[n]
    ensures r.1 == DeleteStep(s, t.0, t.1).1
  {
    var (res, s1) := DeleteStep(s, t.0, t.1);
    (results[t.1 := Classify(res)], s1)
  }

  /**
   * Deletes every target in turn, whatever the earlier outcomes were, and records
   * each outcome under the target's name (a later target with the same name
   * overwrites the earlier entry).
   */
  function DeleteAll(s: State, targets: seq<Key>): (r: (map<string, string>, State))
    ensures r.0.Keys == Names(targets)
    ensures forall n :: n in r.0 ==> IsDeleteOutcome(r.0[n])
    ensures r.1.log == s.log + DeleteCalls(targets)
    ensures r.1.faults == s.faults
    ensures Consistent(s) ==> Consistent(r.1)
    decreases |targets|
  {
    if targets == [] then (map[], s)
    else
      var acc := DeleteAll(s, targets[..|targets| - 1]);
      DeleteOne(acc.0, acc.1, targets[|targets| - 1])
  }

  /** Deleting two targets is two passes of the loop. */
  lemma DeleteAllPair(s: State, k1: Key, k2: Key)
    ensures var a1 := DeleteOne(map[], s, k1);
      DeleteAll(s, [k1, k2]) == DeleteOne(a1.0, a1.1, k2)
    ensures DeleteCalls([k1, k2]) == [DeleteCall(k1.0, k1.1), DeleteCall(k2.0, k2.1)]
  {
    var t := [k1, k2];
    assert t[..|t| - 1] == [k1];
    assert [k1][..0] == [];
    assert DeleteAll(s, [k1]) == DeleteOne(map[], s, k1);
    assert DeleteCalls([k1]) == [DeleteCall(k1.0, k1.1)];
  }

  /** The effect of unblock_traffic on store `s`. */
  function UnblockEffect(s: State, fromNs: string, fromLabels: Labels, toNs: string, toLabels: Labels)
    : (r: (Result<map<string, string>, EngineError>, State))
    ensures r.1.faults == s.faults
    ensures Consistent(s) ==> Consistent(r.1)
    ensures r.0.Failure? <==> "app" !in fromLabels || "app" !in toLabels
    ensures r.0.Failure? ==> r == (Failure(KeyError("app")), s)
  {
    match UnblockTargets(fromNs, fromLabels, toNs, toLabels)
    case None => (Failure(KeyError("app")), s)
    case Some(targets) =>
      var (m, t) := DeleteAll(s, targets);
      (Success(m), t)
  }

  /**
   * Both deletes are attempted, in order, whatever the first one's outcome; the
   * result has exactly the two rule names as keys; the second direction's entry is
   * its own outcome, and so is the first's unless both names coincide, in which
   * case the single entry holds the second outcome.
   */
  lemma {:induction false} UnblockAttemptsBoth(s: State, fromNs: string, fromLabels: Labels, toNs: string, toLabels: Labels)
    requires "app" in fromLabels && "app" in toLabels
    ensures var p1, p2 := RuleName(fromLabels["app"], toLabels["app"]), RuleName(toLabels["app"], fromLabels["app"]);
      var s1 := DeleteStep(s, fromNs, p1).1;
      var (r, t) := UnblockEffect(s, fromNs, fromLabels, toNs, toLabels);
      && r.Success? && r.value.Keys == {p1, p2}
      && t == DeleteStep(s1, toNs, p2).1
      && t.log == s.log + [DeleteCall(fromNs, p1), DeleteCall(toNs, p2)]
      && r.value[p2] == Classify(DeleteStep(s1, toNs, p2).0)
      && (p1 != p2 ==> r.value[p1] == Classify(DeleteStep(s, fromNs, p1).0))
  {
    var p1, p2 := RuleName(fromLabels["app"], toLabels["app"]), RuleName(toLabels["app"], fromLabels["app"]);
    var k1, k2 := (fromNs, p1), (toNs, p2);
    assert UnblockTargets(fromNs, fromLabels, toNs, toLabels) == Some([k1, k2]);
    DeleteAllPair(s, k1, k2);
    var a1 := DeleteOne(map[], s, k1);
    assert a1.1 == DeleteStep(s, fromNs, p1).1;
  }

  /** When the two keys differ, the second delete's outcome does not depend on the first. */
  lemma {:induction false} UnblockDirectionsIndependent(s: State, fromNs: string, fromLabels: Labels, toNs: string, toLabels: Labels)
    requires "app" in fromLabels && "app" in toLabels
    requires var p1, p2 := RuleName(fromLabels["app"], toLabels["app"]), RuleName(toLabels["app"], fromLabels["app"]);
      (fromNs, p1) != (toNs, p2)
    ensures var p2 := RuleName(toLabels["app"], fromLabels["app"]);
      UnblockEffect(s, fromNs, fromLabels, toNs, toLabels).0.value[p2] == Classify(DeleteStep(s, toNs, p2).0)
  {
    var p1, p2 := RuleName(fromLabels["app"], toLabels["app"]), RuleName(toLabels["app"], fromLabels["app"]);
    UnblockAttemptsBoth(s, fromNs, fromLabels, toNs, toLabels);
    var s1 := DeleteStep(s, fromNs, p1).1;
    assert (toNs, p2) in Keys(s1.items) <==> (toNs, p2) in Keys(s.items);
  }

  /** A map with keys {a, b} is the two-entry map it looks like (b's value wins when a == b). */
  lemma TwoEntries(m: map<string, string>, a: string, b: string, va: string, vb: string)
    requires m.Keys == {a, b} && m[b] == vb && (a != b ==> m[a] == va)
    ensures m == map[a := va, b := vb]
  {
  }

  /** Unblocking when neither rule is stored (and no call faults) reports not_found twice and changes nothing. */
  lemma {:induction false} UnblockWhenAbsent(s: State, fromNs: string, fromLabels: Labels, toNs: string, toLabels: Labels)
    requires "app" in fromLabels && "app" in toLabels
    requires var p1, p2 := RuleName(fromLabels["app"], toLabels["app"]), RuleName(toLabels["app"], fromLabels["app"]);
      && (fromNs, p1) !in Keys(s.items) && (DeleteVerb, (fromNs, p1)) !in s.faults
      && (toNs, p2) !in Keys(s.items) && (DeleteVerb, (toNs, p2)) !in s.faults
    ensures var p1, p2 := RuleName(fromLabels["app"], toLabels["app"]), RuleName(toLabels["app"], fromLabels["app"]);
      var (r, t) := UnblockEffect(s, fromNs, fromLabels, toNs, toLabels);
      r == Success(map[p1 := "not_found", p2 := "not_found"]) && t.items == s.items
  {
    var p1, p2 := RuleName(fromLabels["app"], toLabels["app"]), RuleName(toLabels["app"], fromLabels["app"]);
    UnblockAttemptsBoth(s, fromNs, fromLabels, toNs, toLabels);
    var r := UnblockEffect(s, fromNs, fromLabels, toNs, toLabels).0;
    assert r.value == map[p1 := "not_found", p2 := "not_found"];
  }

  /**
   * When only the first direction's rule is stored (a block that failed half-way),
   * unblock deletes it and reports the other as not_found.
   */
  lemma {:induction false} UnblockPartial(s: State, fromNs: string, fromLabels: Labels, toNs: string, toLabels: Labels)
    requires "app" in fromLabels && "app" in toLabels
    requires var p1, p2 := RuleName(fromLabels["app"], toLabels["app"]), RuleName(toLabels["app"], fromLabels["app"]);
      && (fromNs, p1) in Keys(s.items) && (DeleteVerb, (fromNs, p1)) !in s.faults
      && (toNs, p2) !in Keys(s.items) && (DeleteVerb, (toNs, p2)) !in s.faults
    ensures var p1, p2 := RuleName(fromLabels["app"], toLabels["app"]), RuleName(toLabels["app"], fromLabels["app"]);
      var r := UnblockEffect(s, fromNs, fromLabels, toNs, toLabels).0;
      r.value[p2] == "not_found" && (p1 != p2 ==> r.value[p1] == "deleted")
  {
    UnblockAttemptsBoth(s, fromNs, fromLabels, toNs, toLabels);
  }

  /**
   * Unblock undoes a successful block: when neither delete is faulted (under the
   * faults `faults2` in force at unblock time), both rules are reported "deleted"
   * and the store holds what it held before the block.
   */
  lemma {:induction false} UnblockUndoesBlock(s: State, fromNs: string, fromLabels: Labels, toNs: string, toLabels: Labels,
                                             faults2: map<(Verb, Key), ApiError>)
    requires BlockEffect(s, fromNs, fromLabels, toNs, toLabels).0 == Pass
    requires (DeleteVerb, (fromNs, RuleName(fromLabels["app"], toLabels["app"]))) !in faults2
    requires (DeleteVerb, (toNs, RuleName(toLabels["app"], fromLabels["app"]))) !in faults2
    ensures var p1, p2 := RuleName(fromLabels["app"], toLabels["app"]), RuleName(toLabels["app"], fromLabels["app"]);
      var t := BlockEffect(s, fromNs, fromLabels, toNs, toLabels).1.(faults := faults2);
      var (r, u) := UnblockEffect(t, fromNs, fromLabels, toNs, toLabels);
      r == Success(map[p1 := "deleted", p2 := "deleted"]) && u.items == s.items
  {
    var (np1, np2) := Synthesize(fromNs, fromLabels, toNs, toLabels).value;
    var p1, p2 := np1.name, np2.name;
    var k1, k2 := KeyOf(np1), KeyOf(np2);
    var t0 := BlockEffect(s, fromNs, fromLabels, toNs, toLabels).1;
    BlockOrderedNoRollback(s, fromNs, fromLabels, toNs, toLabels);
    var t := t0.(faults := faults2);
    assert t.items == s.items + [np1, np2];
    assert k1 !in Keys(s.items);
    assert k2 !in Keys(s.items + [np1]);
    assert k1 != k2 by { assert np1 in s.items + [np1]; }
    assert k2 !in Keys(s.items) by { assert Keys(s.items) <= Keys(s.items + [np1]); }
    RemoveAppendedPair(s.items, np1, np2);
    UnblockAttemptsBoth(t, fromNs, fromLabels, toNs, toLabels);
    var (res1, t1) := DeleteStep(t, fromNs, p1);
    assert np1 in t.items;
    assert res1 == Pass && t1.items == s.items + [np2];
    var (res2, t2) := DeleteStep(t1, toNs, p2);
    assert np2 in t1.items;
    assert res2 == Pass && t2.items == s.items;
    var (r, u) := UnblockEffect(t, fromNs, fromLabels, toNs, toLabels);
    assert u == t2;
    assert r.value[p2] == "deleted";
    assert r.value[p1] == "deleted";
    TwoEntries(r.value, p1, p2, "deleted", "deleted");
  }

  method UnblockTraffic(store: PolicyStore, fromNs: string, fromLabels: Labels, toNs: string, toLabels: Labels)
    returns (r: Result<map<string, string>, EngineError>)
    requires store.Valid()
    modifies store
    ensures store.Valid()
    ensures (r, store.Snapshot()) == UnblockEffect(old(store.Snapshot()), fromNs, fromLabels, toNs, toLabels)
  {
    var targets := UnblockTargets(fromNs, fromLabels, toNs, toLabels);
    if targets.None? {
      return Failure(KeyError("app"));
    }
    var pairs := targets.value;
    var results: map<string, string> := map[];
    for i := 0 to |pairs|
      invariant store.Valid()
      invariant (results, store.Snapshot()) == DeleteAll(old(store.Snapshot()), pairs[..i])
    {
      var (ns, name) := pairs[i];
      assert pairs[..i + 1][..i] == pairs[..i];
      ghost var next := DeleteOne(results, store.Snapshot(), pairs[i]);
      assert next == DeleteAll(old(store.Snapshot()), pairs[..i + 1]);
      var res := store.Delete(ns, name);
      if res.Pass? {
        results := results[name := "deleted"];
      } else if res.error.status == 404 {
        results := results[name := "not_found"];
      } else {
        results := results[name := "error: " + res.error.reason];
      }
      assert results == next.0;
    }
    assert pairs[..|pairs|] == pairs;
    r := Success(results);
  }

  // ---------------------------------------------------------------- list

  /** One entry of list_traffic_blocks: {"namespace": ..., "name": ...}. */
  datatype BlockEntry = BlockEntry(namespace: string, name: string)

  /** The entry for policy `p` if its name starts with "block-". */
  function EntryFor(p: NetworkPolicy): (r: seq<BlockEntry>)
    ensures |r| <= 1
    ensures r != [] <==> HasBlockPrefix(p.name)
    ensures forall e :: e in r ==> e.namespace == p.namespace && e.name == p.name
  {
    if HasBlockPrefix(p.name) then [BlockEntry(p.namespace, p.name)] else []
  }

  /** The entries for all block-named policies, in enumeration order. */
  function BlockEntries(items: seq<NetworkPolicy>): (r: seq<BlockEntry>)
    ensures |r| <= |items|
    ensures forall e :: e in r ==> HasBlockPrefix(e.name)
    decreases |items|
  {
    if items == [] then [] else BlockEntries(items[..|items| - 1]) + EntryFor(items[|items| - 1])
  }

  /** Listing distributes over concatenation: order is kept and nothing is merged. */
  lemma {:induction false} BlockEntriesAppend(a: seq<NetworkPolicy>, b: seq<NetworkPolicy>)
    ensures BlockEntries(a + b) == BlockEntries(a) + BlockEntries(b)
    decreases |b|
  {
    if b == [] {
      assert a + b == a;
    } else {
      var b' := b[..|b| - 1];
      assert (a + b)[..|a + b| - 1] == a + b';
      BlockEntriesAppend(a, b');
    }
  }

  /** An entry is listed exactly when some stored policy with a block- name has that namespace and name. */
  lemma {:induction false} BlockEntriesMembership(items: seq<NetworkPolicy>, e: BlockEntry)
    ensures e in BlockEntries(items) <==>
      exists p :: p in items && HasBlockPrefix(p.name) && e == BlockEntry(p.namespace, p.name)
    decreases |items|
  {
    if items != [] {
      var init := items[..|items| - 1];
      var last := items[|items| - 1];
      BlockEntriesMembership(init, e);
      assert items == init + [last];
      if e in BlockEntries(items) && e !in BlockEntries(init) {
        assert e in EntryFor(last);
      }
      if p :| p in items && HasBlockPrefix(p.name) && e == BlockEntry(p.namespace, p.name) {
        if p != last {
          assert p in init;
        }
      }
    }
  }

  /** A successful block adds both directional rules to the listing, np1's first. */
  lemma {:induction false} BlockThenList(s: State, fromNs: string, fromLabels: Labels, toNs: string, toLabels: Labels)
    requires BlockEffect(s, fromNs, fromLabels, toNs, toLabels).0 == Pass
    ensures var p1, p2 := RuleName(fromLabels["app"], toLabels["app"]), RuleName(toLabels["app"], fromLabels["app"]);
      BlockEntries(BlockEffect(s, fromNs, fromLabels, toNs, toLabels).1.items)
        == BlockEntries(s.items) + [BlockEntry(fromNs, p1), BlockEntry(toNs, p2)]
  {
    var (np1, np2) := Synthesize(fromNs, fromLabels, toNs, toLabels).value;
    assert BlockEffect(s, fromNs, fromLabels, toNs, toLabels).1.items == s.items + [np1, np2] by {
      BlockOrderedNoRollback(s, fromNs, fromLabels, toNs, toLabels);
    }
    ListAppendedPair(s.items, np1, np2);
  }

  /** Appending two block-named policies appends their two entries to the listing. */
  lemma {:induction false} ListAppendedPair(items: seq<NetworkPolicy>, np1: NetworkPolicy, np2: NetworkPolicy)
    requires HasBlockPrefix(np1.name) && HasBlockPrefix(np2.name)
    ensures BlockEntries(items + [np1, np2])
      == BlockEntries(items) + [BlockEntry(np1.namespace, np1.name), BlockEntry(np2.namespace, np2.name)]
  {
    BlockEntriesAppend(items, [np1, np2]);
    assert [np1, np2][..1] == [np1];
    assert [np1][..0] == [];
    assert BlockEntries([np1]) == EntryFor(np1);
  }

  method ListTrafficBlocks(store: PolicyStore) returns (blocks: seq<BlockEntry>)
    ensures blocks == BlockEntries(store.items)
  {
    var all := store.List();
    blocks := [];
    for i := 0 to |all|
      invariant blocks == BlockEntries(all[..i])
    {
      var policy := all[i];
      assert all[..i + 1][..i] == all[..i];
      if HasBlockPrefix(policy.name) {
        blocks := blocks + [BlockEntry(policy.namespace, policy.name)];
      }
    }
    assert all[..|all|] == all;
  }

  // ---------------------------------------------------------------- scenario

  /**
   * On an empty store, blocking one app from another succeeds whenever the two
   * directions' keys differ (as for app1 in ns-1 and app2 in ns-2), and the listing
   * then holds exactly the two rules.
   */
  lemma {:induction false} BlockListScenario(fromNs: string, fromApp: string, toNs: string, toApp: string)
    requires (fromNs, RuleName(fromApp, toApp)) != (toNs, RuleName(toApp, fromApp))
    ensures var fl, tl := map["app" := fromApp], map["app" := toApp];
      var (o, t) := BlockEffect(State([], map[], []), fromNs, fl, toNs, tl);
      && o == Pass
      && BlockEntries(t.items) == [BlockEntry(fromNs, RuleName(fromApp, toApp)), BlockEntry(toNs, RuleName(toApp, fromApp))]
  {
    var s := State([], map[], []);
    var fl, tl := map["app" := fromApp], map["app" := toApp];
    assert BlockEffect(s, fromNs, fl, toNs, tl).0 == Pass by {
      var (np1, np2) := Synthesize(fromNs, fl, toNs, tl).value;
      assert KeyOf(np1) == (fromNs, RuleName(fromApp, toApp));
      assert KeyOf(np2) == (toNs, RuleName(toApp, fromApp));
      var (res1, s1) := CreateStep(s, fromNs, np1);
      assert res1 == Pass;
      assert Keys(s1.items) == {KeyOf(np1)} by { assert s1.items == [np1]; }
      assert CreateStep(s1, toNs, np2).0 == Pass;
    }
    BlockThenList(s, fromNs, fl, toNs, tl);
  }

  /** Unblocking that pair then reports both rules deleted, and unblocking it again reports both not_found. */
  lemma {:induction false} UnblockTwiceScenario(fromNs: string, fromApp: string, toNs: string, toApp: string)
    requires (fromNs, RuleName(fromApp, toApp)) != (toNs, RuleName(toApp, fromApp))
    ensures var fl, tl := map["app" := fromApp], map["app" := toApp];
      var p1, p2 := RuleName(fromApp, toApp), RuleName(toApp, fromApp);
      var t := BlockEffect(State([], map[], []), fromNs, fl, toNs, tl).1;
      var (r1, u) := UnblockEffect(t, fromNs, fl, toNs, tl);
      && r1 == Success(map[p1 := "deleted", p2 := "deleted"])
      && UnblockEffect(u, fromNs, fl, toNs, tl).0 == Success(map[p1 := "not_found", p2 := "not_found"])
  {
    var s := State([], map[], []);
    var fl, tl := map["app" := fromApp], map["app" := toApp];
    BlockListScenario(fromNs, fromApp, toNs, toApp);
    var t := BlockEffect(s, fromNs, fl, toNs, tl).1;
    UnblockUndoesBlock(s, fromNs, fl, toNs, tl, map[]);
    assert t.(faults := map[]) == t;
    var u := UnblockEffect(t, fromNs, fl, toNs, tl).1;
    assert u.faults == map[] && u.items == [];
    UnblockWhenAbsent(u, fromNs, fl, toNs, tl);
  }
}
