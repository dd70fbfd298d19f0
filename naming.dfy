/**
 * Rule naming: the canonical name of one directional block rule,
 * "block-<srcApp>-to-<dstApp>", built from the `app` labels of the two workloads.
 */
module Naming {
  import opened Wrappers

  /** A Kubernetes label set. */
  type Labels = map<string, string>

  const BlockPrefix: string := "block-"
  const Separator: string := "-to-"

  /** `labels["app"]`: the lookup raises KeyError in the source when the key is missing. */
  function AppLabel(labels: Labels): (r: Option<string>)
    ensures r.Some? <==> "app" in labels
    ensures r.Some? ==> r.value == labels["app"]
  {
    if "app" in labels then Some(labels["app"]) else None
  }

  /** `name.startswith("block-")`. */
  predicate HasBlockPrefix(name: string)
    ensures HasBlockPrefix(name) <==> exists rest :: name == BlockPrefix + rest
  {
    && |BlockPrefix| <= |name|
    && var rest := name[|BlockPrefix|..];
       assert name == name[..|BlockPrefix|] + rest;
       name[..|BlockPrefix|] == BlockPrefix
  }

  /** The name of the rule that blocks egress from app `src` to app `dst`. */
  function RuleName(src: string, dst: string): (name: string)
    ensures HasBlockPrefix(name)
    ensures |name| == |BlockPrefix| + |src| + |Separator| + |dst|
  {
    BlockPrefix + src + Separator + dst
  }

  /** Where the source app, the separator and the destination app sit in a rule name. */
  lemma RuleNameParts(src: string, dst: string)
    ensures var n := RuleName(src, dst);
      n[..6] == BlockPrefix && n[6..6 + |src|] == src && n[6 + |src|..10 + |src|] == Separator && n[10 + |src|..] == dst
  {
    var n := RuleName(src, dst);
    assert n == ((BlockPrefix + src) + Separator) + dst;
  }

  /**
   * The names are ambiguous: when two different (src, dst) pairs give the same
   * name, the longer source extends the shorter one either by the separator
   * itself or by "-to", in which case the shorter pair's destination begins with "to-".
   */
  lemma {:induction false} RuleNameCollision(s1: string, d1: string, s2: string, d2: string)
    requires RuleName(s1, d1) == RuleName(s2, d2)
    requires |s1| < |s2|
    ensures s2[..|s1|] == s1
    ensures (|s1| + 4 <= |s2| && s2[|s1|..|s1| + 4] == Separator)
         || (s2 == s1 + "-to" && d1 == "to-" + d2)
  {
    var n := RuleName(s1, d1);
    var a, b := |s1|, |s2|;
    RuleNameParts(s1, d1);
    RuleNameParts(s2, d2);
    assert s2[..a] == n[6..6 + b][..a] == n[6..6 + a];
    if b < a + 4 {
      assert n[6 + a + 1] == Separator[1] == 't';
      assert n[6 + a + 2] == Separator[2] == 'o';
      assert n[6 + b] == Separator[0] == '-';
      assert b == a + 3;
      assert s2 == s2[..a] + s2[a..];
      assert s2[a..] == n[6 + a..6 + b] == Separator[..3];
      assert d1 == n[10 + a..] == n[10 + a..10 + b] + n[10 + b..];
      assert n[10 + a..10 + b] == Separator[1..];
    } else {
      assert s2[a..a + 4] == n[6..6 + b][a..a + 4] == n[6 + a..10 + a];
    }
  }

  /** Names built from apps of the same length determine both apps. */
  lemma {:induction false} RuleNameInjectiveSameLength(s1: string, d1: string, s2: string, d2: string)
    requires RuleName(s1, d1) == RuleName(s2, d2)
    requires |s1| == |s2|
    ensures s1 == s2 && d1 == d2
  {
    RuleNameParts(s1, d1);
    RuleNameParts(s2, d2);
  }

  /** The two directions of one block can share a name although the apps differ. */
  lemma DirectionsCanCollide()
    ensures RuleName("x", "x-to-x") == RuleName("x-to-x", "x")
  {
  }

  /** Two different blocks can share a rule name although no app contains "-to-". */
  lemma PairsCanCollide()
    ensures RuleName("a-to", "x") == RuleName("a", "to-x")
  {
  }
}
