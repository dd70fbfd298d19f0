/**
 * The cluster's network-policy storage, reached in the source through
 * NetworkPolicyV1Api's create_namespaced_network_policy,
 * delete_namespaced_network_policy and list_network_policy_for_all_namespaces.
 * Policies are addressed by (namespace, name) and enumerated in `items` order.
 * Whether a call fails for reasons other than the stored state (permission,
 * connectivity) is a parameter of the model: `faults` maps a verb and a key to
 * the error every call of that verb on that key raises.
 */
module Store {
  import opened Wrappers
  import opened Policy

  /** (namespace, name) */
  type Key = (string, string)

  function KeyOf(p: NetworkPolicy): Key {
    (p.namespace, p.name)
  }

  /** An ApiException: an HTTP status and its reason phrase. */
  datatype ApiError = ApiError(status: int, reason: string)

  const BadRequest := ApiError(400, "Bad Request")
  const NotFound := ApiError(404, "Not Found")
  const Conflict := ApiError(409, "Conflict")

  /** The two store operations that can be refused per key (e.g. a role that may create but not delete). */
  datatype Verb = CreateVerb | DeleteVerb

  /** A call the store received. */
  datatype Call = CreateCall(namespace: string, name: string) | DeleteCall(namespace: string, name: string)

  /** The keys of the stored policies. */
  function Keys(items: seq<NetworkPolicy>): set<Key> {
    set p | p in items :: KeyOf(p)
  }

  /** No two stored policies share a key. */
  predicate UniqueKeys(items: seq<NetworkPolicy>) {
    forall i, j :: 0 <= i < j < |items| ==> KeyOf(items[i]) != KeyOf(items[j])
  }

  /** The stored policies without the one under key `k`. */
  function Remove(items: seq<NetworkPolicy>, k: Key): (r: seq<NetworkPolicy>)
    ensures forall p :: p in r <==> p in items && KeyOf(p) != k
    ensures Keys(r) == Keys(items) - {k}
  {
    if items == [] then []
    else (if KeyOf(items[0]) == k then [] else [items[0]]) + Remove(items[1..], k)
  }

  lemma {:induction false} RemoveKeepsUnique(items: seq<NetworkPolicy>, k: Key)
    requires UniqueKeys(items)
    ensures UniqueKeys(Remove(items, k))
  {
    if items != [] {
      RemoveKeepsUnique(items[1..], k);
      var rest := Remove(items[1..], k);
      assert KeyOf(items[0]) !in Keys(items[1..]);
      assert KeyOf(items[0]) !in Keys(rest);
    }
  }

  /** In a store keyed uniquely, removing a stored key drops exactly one policy. */
  lemma {:induction false} RemoveExactlyOne(items: seq<NetworkPolicy>, k: Key)
    requires UniqueKeys(items) && k in Keys(items)
    ensures |Remove(items, k)| == |items| - 1
  {
    var rest := items[1..];
    assert UniqueKeys(rest);
    if KeyOf(items[0]) == k {
      assert k !in Keys(rest) by {
        forall p | p in rest ensures KeyOf(p) != k {
          var j :| 0 <= j < |rest| && rest[j] == p;
          assert items[j + 1] == p;
        }
      }
      RemoveAbsent(rest, k);
    } else {
      var p :| p in items && KeyOf(p) == k;
      assert p in rest;
      RemoveExactlyOne(rest, k);
    }
  }

  /** Removing a key that is not stored changes nothing. */
  lemma {:induction false} RemoveAbsent(items: seq<NetworkPolicy>, k: Key)
    requires k !in Keys(items)
    ensures Remove(items, k) == items
  {
    if items != [] {
      assert items[0] in items;
      assert Keys(items[1..]) <= Keys(items);
      RemoveAbsent(items[1..], k);
    }
  }

  lemma {:induction false} RemoveAppend(a: seq<NetworkPolicy>, b: seq<NetworkPolicy>, k: Key)
    ensures Remove(a + b, k) == Remove(a, k) + Remove(b, k)
  {
    if a != [] {
      assert (a + b)[1..] == a[1..] + b;
      RemoveAppend(a[1..], b, k);
    } else {
      assert a + b == b;
    }
  }

  /** Removing two freshly appended policies, first then second, restores the original sequence. */
  lemma RemoveAppendedPair(items: seq<NetworkPolicy>, p1: NetworkPolicy, p2: NetworkPolicy)
    requires KeyOf(p1) !in Keys(items) && KeyOf(p2) !in Keys(items) && KeyOf(p1) != KeyOf(p2)
    ensures Remove(items + [p1, p2], KeyOf(p1)) == items + [p2]
    ensures Remove(items + [p2], KeyOf(p2)) == items
  {
    RemoveAppend(items, [p1, p2], KeyOf(p1));
    RemoveAbsent(items, KeyOf(p1));
    assert Remove([p1, p2], KeyOf(p1)) == [p2] by {
      assert [p1, p2][1..] == [p2];
      assert [p2][1..] == [];
    }
    RemoveAppend(items, [p2], KeyOf(p2));
    RemoveAbsent(items, KeyOf(p2));
    assert [p2][1..] == [];
  }

  /** The store as a value: what is stored, the injected faults, the calls received. */
  datatype State = State(items: seq<NetworkPolicy>, faults: map<(Verb, Key), ApiError>, log: seq<Call>)

  predicate Consistent(s: State) {
    UniqueKeys(s.items)
  }

  /**
   * create_namespaced_network_policy(namespace=ns, body=body): an injected fault,
   * a body whose namespace is not `ns` (400), or an existing policy with the same
   * key (409) make it fail and store nothing; otherwise `body` is appended.
   */
  function CreateStep(s: State, ns: string, body: NetworkPolicy): (r: (Outcome<ApiError>, State))
    ensures r.1.faults == s.faults && r.1.log == s.log + [CreateCall(ns, body.name)]
    ensures r.0.Pass? <==> (CreateVerb, (ns, body.name)) !in s.faults && body.namespace == ns && KeyOf(body) !in Keys(s.items)
    ensures r.1.items == if r.0.Pass? then s.items + [body] else s.items
    ensures Consistent(s) ==> Consistent(r.1)
  {
    var k := (ns, body.name);
    var s1 := s.(log := s.log + [CreateCall(ns, body.name)]);
    if (CreateVerb, k) in s.faults then (Fail(s.faults[(CreateVerb, k)]), s1)
    else if body.namespace != ns then (Fail(BadRequest), s1)
    else if k in Keys(s.items) then (Fail(Conflict), s1)
    else
      var s2 := s1.(items := s.items + [body]);
      assert Consistent(s) ==> Consistent(s2) by {
        forall i | 0 <= i < |s.items| ensures KeyOf(s2.items[i]) != k {
          assert s.items[i] in s.items;
        }
      }
      (Pass, s2)
  }

  /**
   * delete_namespaced_network_policy(name=name, namespace=ns): an injected fault,
   * or no policy under the key (404), make it fail; otherwise that policy is removed.
   */
  function DeleteStep(s: State, ns: string, name: string): (r: (Outcome<ApiError>, State))
    ensures r.1.faults == s.faults && r.1.log == s.log + [DeleteCall(ns, name)]
    ensures r.0.Pass? <==> (DeleteVerb, (ns, name)) !in s.faults && (ns, name) in Keys(s.items)
    ensures r.0 == Fail(NotFound) <== (DeleteVerb, (ns, name)) !in s.faults && (ns, name) !in Keys(s.items)
    ensures r.1.items == if r.0.Pass? then Remove(s.items, (ns, name)) else s.items
    ensures Consistent(s) ==> Consistent(r.1)
    ensures Consistent(s) && r.0.Pass? ==> |r.1.items| == |s.items| - 1
  {
    var k := (ns, name);
    var s1 := s.(log := s.log + [DeleteCall(ns, name)]);
    if (DeleteVerb, k) in s.faults then (Fail(s.faults[(DeleteVerb, k)]), s1)
    else if k !in Keys(s.items) then (Fail(NotFound), s1)
    else
      var s2 := s1.(items := Remove(s.items, k));
      assert Consistent(s) ==> Consistent(s2) && |s2.items| == |s.items| - 1 by {
        if Consistent(s) {
          RemoveKeepsUnique(s.items, k);
          RemoveExactlyOne(s.items, k);
        }
      }
      (Pass, s2)
  }

  /** The store object the engine talks to. */
  class PolicyStore {
    var items: seq<NetworkPolicy>
    var faults: map<(Verb, Key), ApiError>
    var log: seq<Call>

    function Snapshot(): State
      reads this
    {
      State(items, faults, log)
    }

    /** The store is keyed: no two stored policies share a (namespace, name), so a delete removes exactly one. */
    ghost predicate Valid()
      reads this
    {
      Consistent(Snapshot())
    }

    constructor (initial: seq<NetworkPolicy>, injected: map<(Verb, Key), ApiError>)
      requires UniqueKeys(initial)
      ensures Valid() && Snapshot() == State(initial, injected, [])
    {
      items := initial;
      faults := injected;
      log := [];
    }

    method Create(ns: string, body: NetworkPolicy) returns (res: Outcome<ApiError>)
      requires Valid()
      modifies this
      ensures Valid()
      ensures (res, Snapshot()) == CreateStep(old(Snapshot()), ns, body)
    {
      log := log + [CreateCall(ns, body.name)];
      var k := (ns, body.name);
      if (CreateVerb, k) in faults {
        res := Fail(faults[(CreateVerb, k)]);
      } else if body.namespace != ns {
        res := Fail(BadRequest);
      } else if k in Keys(items) {
        res := Fail(Conflict);
      } else {
        items := items + [body];
        res := Pass;
      }
    }

    method Delete(ns: string, name: string) returns (res: Outcome<ApiError>)
      requires Valid()
      modifies this
      ensures Valid()
      ensures (res, Snapshot()) == DeleteStep(old(Snapshot()), ns, name)
    {
      log := log + [DeleteCall(ns, name)];
      var k := (ns, name);
      if (DeleteVerb, k) in faults {
        res := Fail(faults[(DeleteVerb, k)]);
      } else if k !in Keys(items) {
        res := Fail(NotFound);
      } else {
        RemoveKeepsUnique(items, k);
        items := Remove(items, k);
        res := Pass;
      }
    }

    /** list_network_policy_for_all_namespaces().items, in enumeration order. */
    method List() returns (ps: seq<NetworkPolicy>)
      ensures ps == items
    {
      ps := items;
    }
  }
}
