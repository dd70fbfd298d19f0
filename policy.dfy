/**
 * The V1NetworkPolicy records that block_traffic builds, and the synthesis of the
 * mirror-image pair for one block request. Selector parts the source leaves unset
 * (match_labels or match_expressions = None) are the empty map or sequence here.
 */
module Policy {
  import opened Wrappers
  import opened Naming

  datatype Requirement = Requirement(key: string, operator: string, values: seq<string>)

  datatype LabelSelector = LabelSelector(matchLabels: Labels, matchExpressions: seq<Requirement>)

  datatype Peer = Peer(namespaceSelector: LabelSelector, podSelector: LabelSelector)

  datatype EgressRule = EgressRule(to: seq<Peer>)

  datatype PolicySpec = PolicySpec(podSelector: LabelSelector, policyTypes: seq<string>, egress: seq<EgressRule>)

  /** A network policy with its metadata (name, namespace) and its spec. */
  datatype NetworkPolicy = NetworkPolicy(name: string, namespace: string, spec: PolicySpec)

  /**
   * The content of one directional rule: for pods in `namespace` matching `subject`,
   * the single egress peer selects namespaces whose label `namespace` is not
   * `excludedNamespace` and pods whose label `app` is not `excludedApp`. How the
   * cluster enforces those selectors is not part of this model.
   */
  datatype EgressBlock = EgressBlock(namespace: string, subject: Labels, excludedNamespace: string, excludedApp: string)

  /** A selector with the single requirement `key NotIn [value]`. */
  function NotIn(key: string, value: string): LabelSelector {
    LabelSelector(map[], [Requirement(key, "NotIn", [value])])
  }

  /** The value of a selector of the form `key NotIn [value]`, if it has that form. */
  function NotInValue(sel: LabelSelector, key: string): (r: Option<string>)
    ensures forall v :: sel == NotIn(key, v) ==> r == Some(v)
    ensures r.Some? ==> sel == NotIn(key, r.value)
  {
    if sel.matchLabels == map[] && |sel.matchExpressions| == 1
       && sel.matchExpressions[0].key == key && sel.matchExpressions[0].operator == "NotIn"
       && |sel.matchExpressions[0].values| == 1
    then
      var req := sel.matchExpressions[0];
      var v := req.values[0];
      assert req.values == [v];
      assert req == Requirement(key, "NotIn", [v]);
      assert sel.matchExpressions == [req];
      Some(v)
    else
      None
  }

  /** Reads a policy back as a directional block, when it has exactly that shape. */
  function BlockOf(p: NetworkPolicy): (r: Option<EgressBlock>)
    ensures r.Some? ==> p.spec.policyTypes == ["Egress"] && |p.spec.egress| == 1 && |p.spec.egress[0].to| == 1
    ensures r.Some? ==> r.value.namespace == p.namespace && r.value.subject == p.spec.podSelector.matchLabels
  {
    var spec := p.spec;
    if spec.podSelector.matchExpressions == [] && spec.policyTypes == ["Egress"]
       && |spec.egress| == 1 && |spec.egress[0].to| == 1
    then
      var peer := spec.egress[0].to[0];
      match (NotInValue(peer.namespaceSelector, "namespace"), NotInValue(peer.podSelector, "app"))
      case (Some(ns), Some(app)) => Some(EgressBlock(p.namespace, spec.podSelector.matchLabels, ns, app))
      case _ => None
    else
      None
  }

  /** The policy named `name` that realises `b`: one Egress rule with one peer. */
  function PolicyFor(name: string, b: EgressBlock): (p: NetworkPolicy)
    ensures p.name == name && BlockOf(p) == Some(b)
  {
    NetworkPolicy(name, b.namespace,
      PolicySpec(LabelSelector(b.subject, []), ["Egress"],
        [EgressRule([Peer(NotIn("namespace", b.excludedNamespace), NotIn("app", b.excludedApp))])]))
  }

  /** Reading is complete: a policy that reads as a block is exactly the one built for it. */
  lemma {:induction false} BlockOfComplete(p: NetworkPolicy)
    requires BlockOf(p).Some?
    ensures p == PolicyFor(p.name, BlockOf(p).value)
  {
    var b := BlockOf(p).value;
    var peer := p.spec.egress[0].to[0];
    assert peer == Peer(NotIn("namespace", b.excludedNamespace), NotIn("app", b.excludedApp));
    assert p.spec.egress[0].to == [peer];
    assert p.spec.egress[0] == EgressRule([peer]);
    assert p.spec.egress == [EgressRule([peer])];
    assert p.spec.podSelector == LabelSelector(b.subject, []);
  }

  /**
   * block_traffic's np1 and np2. np1 lives in `fromNs`, selects all of `fromLabels`
   * and excludes `toNs` and the `to` app; np2 mirrors it. Fails (KeyError in the
   * source) when either label set has no `app` key.
   */
  function Synthesize(fromNs: string, fromLabels: Labels, toNs: string, toLabels: Labels)
    : (r: Option<(NetworkPolicy, NetworkPolicy)>)
    ensures r.Some? <==> "app" in fromLabels && "app" in toLabels
    ensures r.Some? ==>
      && r.value.0.name == RuleName(fromLabels["app"], toLabels["app"])
      && r.value.1.name == RuleName(toLabels["app"], fromLabels["app"])
      && BlockOf(r.value.0) == Some(EgressBlock(fromNs, fromLabels, toNs, toLabels["app"]))
      && BlockOf(r.value.1) == Some(EgressBlock(toNs, toLabels, fromNs, fromLabels["app"]))
  {
    match (AppLabel(fromLabels), AppLabel(toLabels))
    case (Some(fromApp), Some(toApp)) =>
      var np1 := PolicyFor(RuleName(fromApp, toApp), EgressBlock(fromNs, fromLabels, toNs, toApp));
      var np2 := PolicyFor(RuleName(toApp, fromApp), EgressBlock(toNs, toLabels, fromNs, fromApp));
      Some((np1, np2))
    case _ => None
  }

  /** Swapping the two selectors swaps the two policies. */
  lemma {:induction false} SynthesizeMirror(fromNs: string, fromLabels: Labels, toNs: string, toLabels: Labels)
    ensures var r := Synthesize(fromNs, fromLabels, toNs, toLabels);
      var m := Synthesize(toNs, toLabels, fromNs, fromLabels);
      r.Some? <==> m.Some? && (r.Some? ==> m.value == (r.value.1, r.value.0))
  {
  }
}
