/** The selector filter of the current engine: the per-selector keep rule
    and the document-order walk that applies it to every rule, honouring
    `uncss:ignore` comments and leaving keyframe stops alone. */
module SelectorFilter {
  import opened Text
  import opened Pseudo
  import opened Css
  import Seqs
  import PseudoExamples

  /** What the walk takes from outside: the selectors some page matched,
      the oracle that runs the user's regular expressions, and the setter
      that rebuilds a rule's selector text from a new selector list. */
  datatype Env = Env(
    used: seq<string>,
    test: (nat, string) -> bool,
    rejoin: (string, seq<string>) -> string)

  predicate EntryMatches(e: IgnoreEntry, s: string, test: (nat, string) -> bool) {
    match e
    case Exact(t) => t == s
    case Pattern(id) => test(id, s)
  }

  /** The loop over `ignore`: it stops at the first entry that matches. */
  function IgnoreHit(ignore: seq<IgnoreEntry>, s: string, test: (nat, string) -> bool): (b: bool)
    ensures b <==> exists i :: 0 <= i < |ignore| && EntryMatches(ignore[i], s, test)
  {
    if |ignore| == 0 then false
    else if EntryMatches(ignore[0], s, test) then true
    else
      var rest := IgnoreHit(ignore[1..], s, test);
      assert forall i :: 0 < i < |ignore| ==> ignore[i] == ignore[1..][i - 1];
      rest
  }

  /** Whether one selector survives: its de-pseudified form is an at-rule
      prelude, is ignored, or was matched on some page. */
  predicate Keep(sel: string, ignore: seq<IgnoreEntry>, env: Env) {
    var d := DePseudify(sel);
    (|d| > 0 && d[0] == '@') || IgnoreHit(ignore, d, env.test) || d in env.used
  }

  function KeepFn(ignore: seq<IgnoreEntry>, env: Env): string -> bool {
    s => Keep(s, ignore, env)
  }

  function NotIn(kept: seq<string>): string -> bool {
    s => s !in kept
  }

  /** `filterUnusedSelectors`: the selectors that survive, in order. */
  function FilterUnusedSelectors(sels: seq<string>, ignore: seq<IgnoreEntry>, env: Env): (r: seq<string>)
    ensures Seqs.IsSubseq(r, sels)
    ensures forall s :: s in r <==> s in sels && Keep(s, ignore, env)
  {
    Seqs.FilterIsSubseq(sels, KeepFn(ignore, env));
    Seqs.FilterMembers(sels, KeepFn(ignore, env));
    Seqs.Filter(sels, KeepFn(ignore, env))
  }

  /** The selectors of a rule that did not survive are exactly those the keep
      rule rejects, and together with the survivors they are the rule's
      selectors again, each as often as before. */
  lemma DroppedAreRejected(sels: seq<string>, ignore: seq<IgnoreEntry>, env: Env)
    ensures var kept := FilterUnusedSelectors(sels, ignore, env);
      var dropped := Seqs.Filter(sels, NotIn(kept));
      (forall s :: s in dropped <==> s in sels && !Keep(s, ignore, env))
      && multiset(kept) + multiset(dropped) == multiset(sels)
  {
    var kept := FilterUnusedSelectors(sels, ignore, env);
    var dropped := Seqs.Filter(sels, NotIn(kept));
    Seqs.FilterMembers(sels, NotIn(kept));
    Seqs.FilterCount(sels, KeepFn(ignore, env));
    Seqs.FilterCount(sels, NotIn(kept));
    forall s
      ensures multiset(kept)[s] + multiset(dropped)[s] == multiset(sels)[s]
    {
      assert multiset(kept)[s] == if Keep(s, ignore, env) then multiset(sels)[s] else 0;
      if s in sels && Keep(s, ignore, env) {
        assert s in kept;
      }
    }
  }

  const Marker := "uncss:ignore"

  /** The comment text `^!?\s?uncss:ignore\s?$` accepts. Each optional part
      can be matched in one way only, since the character it would consume
      cannot start what follows, so the test reads left to right. */
  predicate IsIgnoreMarker(t: string) {
    MarkerCore(DropSpace(DropBang(t)))
  }

  /** `!?` at the front. */
  function DropBang(t: string): string {
    if |t| > 0 && t[0] == '!' then t[1..] else t
  }

  /** `\s?` at the front. */
  function DropSpace(a: string): string {
    if |a| > 0 && IsSpace(a[0]) then a[1..] else a
  }

  /** `uncss:ignore\s?` to the end. */
  predicate MarkerCore(b: string) {
    b == Marker || (|b| == |Marker| + 1 && b[..|Marker|] == Marker && IsSpace(b[|Marker|]))
  }

  predicate OptionalBang(p: string) {
    p == "" || p == "!"
  }

  predicate OptionalSpace(q: string) {
    q == "" || (|q| == 1 && IsSpace(q[0]))
  }

  lemma MarkerCoreForms(r: string)
    requires OptionalSpace(r)
    ensures MarkerCore(Marker + r)
  {
    if |r| == 1 {
      assert (Marker + r)[..|Marker|] == Marker;
    } else {
      assert Marker + r == Marker;
    }
  }

  lemma DropSpaceForms(q: string, r: string)
    requires OptionalSpace(q)
    ensures DropSpace(q + Marker + r) == Marker + r
  {
    if |q| == 1 {
      assert (q + Marker + r)[1..] == Marker + r;
    } else {
      assert q + Marker + r == Marker + r;
      assert Marker[0] == 'u';
    }
  }

  lemma DropBangForms(p: string, q: string, r: string)
    requires OptionalBang(p) && OptionalSpace(q)
    ensures DropBang(p + q + Marker + r) == q + Marker + r
  {
    if p == "!" {
      assert (p + q + Marker + r)[1..] == q + Marker + r;
    } else {
      assert p + q + Marker + r == q + Marker + r;
      assert (q + Marker + r)[0] == if |q| == 1 then q[0] else 'u';
    }
  }

  /** Every text of the shape the pattern describes is a marker. */
  lemma MarkerForms(p: string, q: string, r: string)
    requires OptionalBang(p) && OptionalSpace(q) && OptionalSpace(r)
    ensures IsIgnoreMarker(p + q + Marker + r)
  {
    DropBangForms(p, q, r);
    DropSpaceForms(q, r);
    MarkerCoreForms(r);
  }

  /** And every marker has that shape. */
  lemma MarkerShape(t: string)
    requires IsIgnoreMarker(t)
    ensures exists i, j ::
              (0 <= i <= j <= |t| && OptionalBang(t[..i]) && OptionalSpace(t[i..j])
               && t[j..] == Marker + t[j + |Marker|..] && OptionalSpace(t[j + |Marker|..]))
  {
    var i := if |t| > 0 && t[0] == '!' then 1 else 0;
    var a := t[i..];
    assert DropBang(t) == a;
    var j := if |a| > 0 && IsSpace(a[0]) then i + 1 else i;
    var b := t[j..];
    assert DropSpace(a) == b;
    assert t[..i] == "" || t[..i] == "!";
    if b == Marker {
      assert t[j + |Marker|..] == "";
      assert t[j..] == Marker + t[j + |Marker|..];
    } else {
      assert b == Marker + b[|Marker|..];
      assert t[j + |Marker|..] == b[|Marker|..];
    }
  }

  /** The raw selectors of a rule, as literal ignore entries. */
  function Exacts(sels: seq<string>): (r: seq<IgnoreEntry>)
    ensures |r| == |sels|
    ensures forall i :: 0 <= i < |r| ==> r[i] == Exact(sels[i])
  {
    if |sels| == 0 then [] else [Exact(sels[0])] + Exacts(sels[1..])
  }

  /** What the walk carries from node to node: the one-shot flag a marker
      comment sets, the ignore list (growing), and the removals so far. */
  datatype WalkState = WalkState(flag: bool, ignore: seq<IgnoreEntry>, unused: seq<Record>)

  /** `s` extends `t`: the ignore list and the record list only grow. */
  predicate Extends(s: WalkState, t: WalkState) {
    Seqs.IsPrefix(t.ignore, s.ignore) && Seqs.IsPrefix(t.unused, s.unused)
  }

  /** The walk over a list of siblings. `inKeyframes` says whether their
      parent is an at-rule whose name ends in `keyframes`. Nodes are visited
      in document order, a parent before its children, and the children of
      a removed rule are still visited. */
  function WalkNodes(env: Env, nodes: seq<Node>, inKeyframes: bool, st: WalkState): (r: (seq<Node>, WalkState))
    ensures Extends(r.1, st)
    decreases nodes
  {
    if |nodes| == 0 then ([], st)
    else
      var (h, st1) := WalkNode(env, nodes[0], inKeyframes, st);
      var (t, st2) := WalkNodes(env, nodes[1..], inKeyframes, st1);
      Seqs.PrefixTrans(st.ignore, st1.ignore, st2.ignore);
      Seqs.PrefixTrans(st.unused, st1.unused, st2.unused);
      (h + t, st2)
  }

  /** The walk at one node: what replaces it (nothing or one node) and the
      state after it and its descendants. */
  function WalkNode(env: Env, n: Node, inKeyframes: bool, st: WalkState): (r: (seq<Node>, WalkState))
    ensures |r.0| <= 1
    ensures Extends(r.1, st)
    decreases n
  {
    match n
    case Comment(t) => ([n], if IsIgnoreMarker(t) then st.(flag := true) else st)
    case Decl(_, _) => ([n], st)
    case AtRule(name, params, kids) =>
      var (k, st1) := WalkNodes(env, kids, IsKeyframes(name), st);
      ([AtRule(name, params, k)], st1)
    case Rule(text, sels, kids) =>
      if inKeyframes then
        var (k, st1) := WalkNodes(env, kids, false, st);
        ([Rule(text, sels, k)], st1)
      else
        var st0 := RuleState(env, sels, st);
        var kept := FilterUnusedSelectors(sels, st0.ignore, env);
        var (k, st1) := WalkNodes(env, kids, false, st0);
        Seqs.PrefixTrans(st.ignore, st0.ignore, st1.ignore);
        Seqs.PrefixTrans(st.unused, st0.unused, st1.unused);
        if |kept| == 0 then ([], st1) else ([Rule(env.rejoin(text, kept), kept, k)], st1)
  }

  /** The ignore list an ordinary rule is decided against: after a marker
      comment the rule's raw selectors join it for the rest of the walk. */
  function RuleIgnore(sels: seq<string>, st: WalkState): seq<IgnoreEntry> {
    if st.flag then st.ignore + Exacts(sels) else st.ignore
  }

  /** The selectors of a rule that are not among the survivors. */
  function Dropped(sels: seq<string>, kept: seq<string>): seq<string> {
    Seqs.Filter(sels, NotIn(kept))
  }

  /** The record list after a rule: one more entry, listing the dropped
      selectors, when there are any. */
  function AddRecord(unused: seq<Record>, dropped: seq<string>): (r: seq<Record>)
    ensures Seqs.IsPrefix(unused, r)
  {
    Seqs.PrefixAppend(unused, if |dropped| > 0 then [UnusedSelectors(dropped)] else []);
    assert unused + [] == unused;
    if |dropped| > 0 then unused + [UnusedSelectors(dropped)] else unused
  }

  /** The state after the walk has decided an ordinary rule, before its
      children: the flag is consumed, the ignore list is the rule's, and the
      dropped selectors are recorded if any. */
  function RuleState(env: Env, sels: seq<string>, st: WalkState): (r: WalkState)
    ensures !r.flag && Extends(r, st)
  {
    var ignore := RuleIgnore(sels, st);
    var kept := FilterUnusedSelectors(sels, ignore, env);
    Seqs.PrefixAppend(st.ignore, if st.flag then Exacts(sels) else []);
    assert st.ignore + [] == st.ignore;
    WalkState(false, ignore, AddRecord(st.unused, Dropped(sels, kept)))
  }

  /** After a marker every raw selector of the rule is an exact ignore
      entry; without one the ignore list is unchanged. */
  lemma RuleIgnoreCovers(sels: seq<string>, st: WalkState)
    ensures st.flag ==> forall s :: s in sels ==> Exact(s) in RuleIgnore(sels, st)
    ensures !st.flag ==> RuleIgnore(sels, st) == st.ignore
  {
    var ignore := RuleIgnore(sels, st);
    if st.flag {
      forall s | s in sels
        ensures Exact(s) in ignore
      {
        var i :| 0 <= i < |sels| && sels[i] == s;
        assert ignore[|st.ignore| + i] == Exact(s);
      }
    }
  }

  /** One record is added exactly when some selector is rejected, and it
      lists exactly the rejected ones. */
  lemma AddRecordFacts(sels: seq<string>, ignore: seq<IgnoreEntry>, env: Env, unused: seq<Record>)
    ensures var r := AddRecord(unused, Dropped(sels, FilterUnusedSelectors(sels, ignore, env)));
      && (|r| > |unused| <==> exists s :: s in sels && !Keep(s, ignore, env))
      && (|r| > |unused| ==>
            |r| == |unused| + 1 && r[|unused|].UnusedSelectors?
            && forall s :: s in r[|unused|].selectors <==> s in sels && !Keep(s, ignore, env))
  {
    var dropped := Dropped(sels, FilterUnusedSelectors(sels, ignore, env));
    DroppedAreRejected(sels, ignore, env);
    if |dropped| == 0 {
      assert forall s :: s in sels ==> Keep(s, ignore, env);
    } else {
      assert dropped[0] in dropped;
    }
  }

  /** What deciding one ordinary rule does to the state: after a marker its
      raw selectors are ignored from then on, and one record is added exactly
      when some selector is rejected, listing exactly the rejected ones. */
  lemma RuleStateFacts(env: Env, sels: seq<string>, st: WalkState)
    ensures var r := RuleState(env, sels, st);
      && (st.flag ==> forall s :: s in sels ==> Exact(s) in r.ignore)
      && (!st.flag ==> r.ignore == st.ignore)
      && (|r.unused| > |st.unused| <==> exists s :: s in sels && !Keep(s, r.ignore, env))
      && (|r.unused| > |st.unused| ==>
            |r.unused| == |st.unused| + 1 && r.unused[|st.unused|].UnusedSelectors?
            && forall s :: s in r.unused[|st.unused|].selectors <==> s in sels && !Keep(s, r.ignore, env))
  {
    RuleIgnoreCovers(sels, st);
    AddRecordFacts(sels, RuleIgnore(sels, st), env, st.unused);
  }

  /** The walk removes and rewrites rules only: every at-rule, declaration
      and comment outside the rules is still there, in the same order. */
  lemma {:induction false} WalkNodesOutline(env: Env, nodes: seq<Node>, inKeyframes: bool, st: WalkState)
    ensures Outline(WalkNodes(env, nodes, inKeyframes, st).0) == Outline(nodes)
    decreases nodes
  {
    if |nodes| > 0 {
      var (h, st1) := WalkNode(env, nodes[0], inKeyframes, st);
      var (t, st2) := WalkNodes(env, nodes[1..], inKeyframes, st1);
      WalkNodeOutline(env, nodes[0], inKeyframes, st);
      WalkNodesOutline(env, nodes[1..], inKeyframes, st1);
      OutlineAppend(h, t);
    }
  }

  lemma {:induction false} WalkNodeOutline(env: Env, n: Node, inKeyframes: bool, st: WalkState)
    ensures Outline(WalkNode(env, n, inKeyframes, st).0) == NodeOutline(n)
    decreases n
  {
    match n
    case Comment(_) =>
    case Decl(_, _) =>
    case AtRule(name, params, kids) =>
      WalkNodesOutline(env, kids, IsKeyframes(name), st);
    case Rule(text, sels, kids) =>
  }

  /** Every selector left in the tree was there before, in the same order
      relative to the others. */
  lemma {:induction false} WalkNodesSels(env: Env, nodes: seq<Node>, inKeyframes: bool, st: WalkState)
    ensures Seqs.IsSubseq(AllSels(WalkNodes(env, nodes, inKeyframes, st).0), AllSels(nodes))
    decreases nodes
  {
    if |nodes| > 0 {
      var (h, st1) := WalkNode(env, nodes[0], inKeyframes, st);
      var (t, st2) := WalkNodes(env, nodes[1..], inKeyframes, st1);
      WalkNodeSels(env, nodes[0], inKeyframes, st);
      WalkNodesSels(env, nodes[1..], inKeyframes, st1);
      AllSelsAppend(h, t);
      Seqs.SubseqConcat(AllSels(h), AllSels(t), NodeSels(nodes[0]), AllSels(nodes[1..]));
    }
  }

  lemma {:induction false} WalkNodeSels(env: Env, n: Node, inKeyframes: bool, st: WalkState)
    ensures Seqs.IsSubseq(AllSels(WalkNode(env, n, inKeyframes, st).0), NodeSels(n))
    decreases n
  {
    var out := WalkNode(env, n, inKeyframes, st).0;
    match n
    case Comment(_) =>
    case Decl(_, _) =>
    case AtRule(name, params, kids) =>
      WalkNodesSels(env, kids, IsKeyframes(name), st);
      assert AllSels(out) == AllSels(WalkNodes(env, kids, IsKeyframes(name), st).0);
    case Rule(text, sels, kids) =>
      if inKeyframes {
        var k := WalkNodes(env, kids, false, st).0;
        WalkNodesSels(env, kids, false, st);
        Seqs.SubseqRefl(sels);
        Seqs.SubseqConcat(sels, AllSels(k), sels, AllSels(kids));
        assert AllSels(out) == sels + AllSels(k);
      } else {
        var st0 := RuleState(env, sels, st);
        var kept := FilterUnusedSelectors(sels, st0.ignore, env);
        var k := WalkNodes(env, kids, false, st0).0;
        if |kept| > 0 {
          WalkNodesSels(env, kids, false, st0);
          Seqs.SubseqConcat(kept, AllSels(k), sels, AllSels(kids));
          assert AllSels(out) == kept + AllSels(k);
        }
      }
  }

  /** Every record lists dropped selectors. */
  predicate SelectorRecords(recs: seq<Record>) {
    forall i :: 0 <= i < |recs| ==> recs[i].UnusedSelectors?
  }

  /** The walk records removed selectors only: it never removes an at-rule. */
  lemma {:induction false} WalkNodesRecords(env: Env, nodes: seq<Node>, inKeyframes: bool, st: WalkState)
    requires SelectorRecords(st.unused)
    ensures SelectorRecords(WalkNodes(env, nodes, inKeyframes, st).1.unused)
    decreases nodes
  {
    if |nodes| > 0 {
      var (h, st1) := WalkNode(env, nodes[0], inKeyframes, st);
      WalkNodeRecords(env, nodes[0], inKeyframes, st);
      WalkNodesRecords(env, nodes[1..], inKeyframes, st1);
    }
  }

  lemma {:induction false} WalkNodeRecords(env: Env, n: Node, inKeyframes: bool, st: WalkState)
    requires SelectorRecords(st.unused)
    ensures SelectorRecords(WalkNode(env, n, inKeyframes, st).1.unused)
    decreases n
  {
    match n
    case Comment(_) =>
    case Decl(_, _) =>
    case AtRule(name, params, kids) =>
      WalkNodesRecords(env, kids, IsKeyframes(name), st);
    case Rule(text, sels, kids) =>
      if inKeyframes {
        WalkNodesRecords(env, kids, false, st);
      } else {
        var st0 := RuleState(env, sels, st);
        assert SelectorRecords(st0.unused);
        WalkNodesRecords(env, kids, false, st0);
      }
  }

  /** Outside keyframe blocks, no rule is left without a selector. */
  predicate RulesNonEmpty(nodes: seq<Node>, inKeyframes: bool)
    decreases nodes
  {
    |nodes| == 0 || (NodeNonEmpty(nodes[0], inKeyframes) && RulesNonEmpty(nodes[1..], inKeyframes))
  }

  predicate NodeNonEmpty(n: Node, inKeyframes: bool)
    decreases n
  {
    match n
    case Rule(_, sels, kids) => (inKeyframes || |sels| > 0) && RulesNonEmpty(kids, false)
    case AtRule(name, _, kids) => RulesNonEmpty(kids, IsKeyframes(name))
    case _ => true
  }

  lemma {:induction false} NonEmptyAppend(a: seq<Node>, b: seq<Node>, inKeyframes: bool)
    requires RulesNonEmpty(a, inKeyframes) && RulesNonEmpty(b, inKeyframes)
    ensures RulesNonEmpty(a + b, inKeyframes)
    decreases a
  {
    if |a| == 0 {
      assert a + b == b;
    } else {
      assert (a + b)[0] == a[0] && (a + b)[1..] == a[1..] + b;
      NonEmptyAppend(a[1..], b, inKeyframes);
    }
  }

  /** After the walk every ordinary rule has at least one selector. */
  lemma {:induction false} WalkNodesNonEmpty(env: Env, nodes: seq<Node>, inKeyframes: bool, st: WalkState)
    ensures RulesNonEmpty(WalkNodes(env, nodes, inKeyframes, st).0, inKeyframes)
    decreases nodes
  {
    if |nodes| > 0 {
      var (h, st1) := WalkNode(env, nodes[0], inKeyframes, st);
      var (t, st2) := WalkNodes(env, nodes[1..], inKeyframes, st1);
      WalkNodeNonEmpty(env, nodes[0], inKeyframes, st);
      WalkNodesNonEmpty(env, nodes[1..], inKeyframes, st1);
      NonEmptyAppend(h, t, inKeyframes);
    }
  }

  lemma {:induction false} WalkNodeNonEmpty(env: Env, n: Node, inKeyframes: bool, st: WalkState)
    ensures RulesNonEmpty(WalkNode(env, n, inKeyframes, st).0, inKeyframes)
    decreases n
  {
    var out := WalkNode(env, n, inKeyframes, st).0;
    match n
    case Comment(_) =>
      assert out == [n] && out[1..] == [];
      assert NodeNonEmpty(out[0], inKeyframes) && RulesNonEmpty(out[1..], inKeyframes);
    case Decl(_, _) =>
      assert out == [n] && out[1..] == [];
      assert NodeNonEmpty(out[0], inKeyframes) && RulesNonEmpty(out[1..], inKeyframes);
    case AtRule(name, params, kids) =>
      var k := WalkNodes(env, kids, IsKeyframes(name), st).0;
      WalkNodesNonEmpty(env, kids, IsKeyframes(name), st);
      assert out == [AtRule(name, params, k)];
      assert NodeNonEmpty(out[0], inKeyframes);
      assert out[1..] == [];
    case Rule(text, sels, kids) =>
      if inKeyframes {
        var k := WalkNodes(env, kids, false, st).0;
        WalkNodesNonEmpty(env, kids, false, st);
        assert out == [Rule(text, sels, k)];
        assert NodeNonEmpty(out[0], inKeyframes);
        assert out[1..] == [];
      } else {
        var st0 := RuleState(env, sels, st);
        var kept := FilterUnusedSelectors(sels, st0.ignore, env);
        var k := WalkNodes(env, kids, false, st0).0;
        WalkNodesNonEmpty(env, kids, false, st0);
        if |kept| > 0 {
          assert out == [Rule(env.rejoin(text, kept), kept, k)];
          assert NodeNonEmpty(out[0], inKeyframes);
          assert out[1..] == [];
        } else {
          assert out == [];
        }
      }
  }

  /** With the flag set, a rule's colon-free selectors all survive. */
  lemma FlaggedRuleKept(env: Env, sels: seq<string>, st: WalkState)
    requires st.flag
    requires forall i :: 0 <= i < |sels| ==> ':' !in sels[i]
    ensures FilterUnusedSelectors(sels, RuleState(env, sels, st).ignore, env) == sels
  {
    var ignore := RuleState(env, sels, st).ignore;
    RuleIgnoreCovers(sels, st);
    forall i | 0 <= i < |sels|
      ensures Keep(sels[i], ignore, env)
    {
      DePseudifyNoColon(sels[i]);
      assert Exact(sels[i]) in ignore;
      var j :| 0 <= j < |ignore| && ignore[j] == Exact(sels[i]);
      assert EntryMatches(ignore[j], DePseudify(sels[i]), env.test);
    }
    Seqs.FilterAll(sels, KeepFn(ignore, env));
  }

  /** A rule right after an `uncss:ignore` comment keeps every selector
      that has no pseudo-class to strip, whatever the pages matched. */
  lemma MarkerProtects(env: Env, t: string, text: string, sels: seq<string>, kids: seq<Node>,
                       rest: seq<Node>, st: WalkState)
    requires IsIgnoreMarker(t)
    requires |sels| > 0 && forall i :: 0 <= i < |sels| ==> ':' !in sels[i]
    ensures var out := WalkNodes(env, [Comment(t), Rule(text, sels, kids)] + rest, false, st).0;
      |out| >= 2 && out[0] == Comment(t) && out[1].Rule? && out[1].selectors == sels
  {
    var nodes := [Comment(t), Rule(text, sels, kids)] + rest;
    var st1 := st.(flag := true);
    assert WalkNode(env, nodes[0], false, st) == ([Comment(t)], st1);
    FlaggedRuleKept(env, sels, st1);
    var st0 := RuleState(env, sels, st1);
    var k := WalkNodes(env, kids, false, st0).0;
    assert nodes[1..][0] == Rule(text, sels, kids);
    assert WalkNode(env, nodes[1..][0], false, st1).0 == [Rule(env.rejoin(text, sels), sels, k)];
  }

  /** What a keyframe stop holds: declarations and comments. */
  predicate Leaf(n: Node) {
    n.Decl? || n.Comment?
  }

  /** A keyframes block's contents: stops holding leaves only, with
      comments or declarations between them. */
  predicate PlainStops(nodes: seq<Node>) {
    forall i :: 0 <= i < |nodes| ==>
      Leaf(nodes[i]) || (nodes[i].Rule? && forall j :: 0 <= j < |nodes[i].nodes| ==> Leaf(nodes[i].nodes[j]))
  }

  /** An `uncss:ignore` comment. */
  predicate IsMarker(n: Node) {
    n.Comment? && IsIgnoreMarker(n.text)
  }

  /** Some node of the list is an `uncss:ignore` comment. */
  predicate AnyMarker(ds: seq<Node>)
    decreases ds
  {
    |ds| > 0 && (IsMarker(ds[0]) || AnyMarker(ds[1..]))
  }

  /** Some `uncss:ignore` comment stands between the stops or inside one. */
  predicate AnyStopMarker(nodes: seq<Node>)
    decreases nodes
  {
    |nodes| > 0 && (IsMarker(nodes[0]) || (nodes[0].Rule? && AnyMarker(nodes[0].nodes)) || AnyStopMarker(nodes[1..]))
  }

  lemma {:induction false} DeclsUntouched(env: Env, ds: seq<Node>, inKeyframes: bool, st: WalkState)
    requires forall i :: 0 <= i < |ds| ==> ds[i].Decl?
    ensures WalkNodes(env, ds, inKeyframes, st) == (ds, st)
    decreases ds
  {
    if |ds| > 0 {
      DeclsUntouched(env, ds[1..], inKeyframes, st);
      assert [ds[0]] + ds[1..] == ds;
    }
  }

  /** One declaration or comment: kept as it is, setting the flag when it
      is an ignore comment. */
  lemma LeafStep(env: Env, n: Node, inKeyframes: bool, st: WalkState)
    requires Leaf(n)
    ensures WalkNode(env, n, inKeyframes, st) == ([n], st.(flag := st.flag || IsMarker(n)))
  {
  }

  /** Declarations and comments pass through the walk unchanged; the state
      changes only by an ignore comment setting the flag. */
  lemma {:induction false} LeavesUntouched(env: Env, ds: seq<Node>, inKeyframes: bool, st: WalkState)
    requires forall i :: 0 <= i < |ds| ==> Leaf(ds[i])
    ensures WalkNodes(env, ds, inKeyframes, st) == (ds, st.(flag := st.flag || AnyMarker(ds)))
    decreases ds
  {
    if |ds| > 0 {
      var st1 := st.(flag := st.flag || IsMarker(ds[0]));
      LeafStep(env, ds[0], inKeyframes, st);
      LeavesUntouched(env, ds[1..], inKeyframes, st1);
      assert [ds[0]] + ds[1..] == ds;
    }
  }

  lemma {:induction false} StopsUntouched(env: Env, nodes: seq<Node>, st: WalkState)
    requires PlainStops(nodes)
    ensures WalkNodes(env, nodes, true, st) == (nodes, st.(flag := st.flag || AnyStopMarker(nodes)))
    decreases nodes
  {
    if |nodes| > 0 {
      var n := nodes[0];
      var st1 := st.(flag := st.flag || IsMarker(n) || (n.Rule? && AnyMarker(n.nodes)));
      if n.Rule? {
        LeavesUntouched(env, n.nodes, false, st);
      }
      assert WalkNode(env, n, true, st) == ([n], st1);
      StopsUntouched(env, nodes[1..], st1);
      assert [n] + nodes[1..] == nodes;
    }
  }

  /** A keyframes block of stops holding declarations and comments is left
      as it is: its stops are not filtered, neither consume the ignore flag
      nor add a record, and the state changes only by an ignore comment
      inside the block setting the flag. */
  lemma KeyframesUntouched(env: Env, name: string, params: string, kids: seq<Node>,
                           inKeyframes: bool, st: WalkState)
    requires IsKeyframes(name) && PlainStops(kids)
    ensures WalkNode(env, AtRule(name, params, kids), inKeyframes, st)
      == ([AtRule(name, params, kids)], st.(flag := st.flag || AnyStopMarker(kids)))
  {
    StopsUntouched(env, kids, st);
  }

  /** `@keyframes spin { /* start */ from { color: red } }` passes through
      the walk unchanged and leaves the state as it was. */
  lemma CommentedKeyframes(env: Env, st: WalkState)
    ensures var block := AtRule("keyframes", "spin",
        [Comment(" start "), Rule("from", ["from"], [Decl("color", "red")])]);
      WalkNode(env, block, false, st) == ([block], st)
  {
    var kids := [Comment(" start "), Rule("from", ["from"], [Decl("color", "red")])];
    assert !IsIgnoreMarker(" start ") by {
      assert DropSpace(DropBang(" start ")) == "start ";
    }
    assert kids[1..][1..] == [];
    assert !AnyMarker(kids[1].nodes) by {
      assert kids[1].nodes[1..] == [];
    }
    assert !AnyStopMarker(kids);
    KeyframesUntouched(env, "keyframes", "spin", kids, false, st);
  }

  /** Whatever a keyframes block holds, each of its stops stays, in place,
      with its selector text and selectors. */
  lemma {:induction false} StopsKept(env: Env, kids: seq<Node>, st: WalkState)
    ensures var out := WalkNodes(env, kids, true, st).0;
      |out| == |kids| &&
      forall i :: 0 <= i < |kids| && kids[i].Rule? ==>
        out[i].Rule? && out[i].selector == kids[i].selector && out[i].selectors == kids[i].selectors
    decreases kids
  {
    if |kids| > 0 {
      var (h, st1) := WalkNode(env, kids[0], true, st);
      StopsKept(env, kids[1..], st1);
      var t := WalkNodes(env, kids[1..], true, st1).0;
      assert |h| == 1;
      forall i | 0 <= i < |kids| && kids[i].Rule?
        ensures (h + t)[i].Rule? && (h + t)[i].selector == kids[i].selector && (h + t)[i].selectors == kids[i].selectors
      {
        if i > 0 {
          assert (h + t)[i] == t[i - 1] && kids[1..][i - 1] == kids[i];
        }
      }
    }
  }

  // ---------------------------------------------------------------------
  // What the walk keeps

  /** An ignore list only grows, and a selector it protects stays protected. */
  lemma KeepGrows(s: string, a: seq<IgnoreEntry>, b: seq<IgnoreEntry>, env: Env)
    requires Seqs.IsPrefix(a, b) && Keep(s, a, env)
    ensures Keep(s, b, env)
  {
    var d := DePseudify(s);
    if IgnoreHit(a, d, env.test) {
      var i :| 0 <= i < |a| && EntryMatches(a[i], d, env.test);
      assert b[i] == b[..|a|][i];
    }
  }

  /** Completeness of the walk: a selector of an ordinary rule that the
      keep rule accepts under the ignore list the walk starts with is still
      in the tree afterwards. */
  lemma {:induction false} WalkNodesKeeps(env: Env, nodes: seq<Node>, st: WalkState, s: string)
    requires s in LiveSels(nodes) && Keep(s, st.ignore, env)
    ensures s in LiveSels(WalkNodes(env, nodes, false, st).0)
    decreases nodes
  {
    var (h, st1) := WalkNode(env, nodes[0], false, st);
    var (t, st2) := WalkNodes(env, nodes[1..], false, st1);
    LiveSelsAppend(h, t);
    if s in NodeLiveSels(nodes[0]) {
      WalkNodeKeeps(env, nodes[0], st, s);
    } else {
      KeepGrows(s, st.ignore, st1.ignore, env);
      WalkNodesKeeps(env, nodes[1..], st1, s);
    }
  }

  lemma {:induction false} WalkNodeKeeps(env: Env, n: Node, st: WalkState, s: string)
    requires s in NodeLiveSels(n) && Keep(s, st.ignore, env)
    ensures s in LiveSels(WalkNode(env, n, false, st).0)
    decreases n
  {
    match n
    case AtRule(name, params, kids) =>
      var k := WalkNodes(env, kids, false, st).0;
      WalkNodesKeeps(env, kids, st, s);
      assert LiveSels([AtRule(name, params, k)]) == LiveSels(k) + LiveSels([]);
    case Rule(text, sels, kids) =>
      var st0 := RuleState(env, sels, st);
      var kept := FilterUnusedSelectors(sels, st0.ignore, env);
      var k := WalkNodes(env, kids, false, st0).0;
      KeepGrows(s, st.ignore, st0.ignore, env);
      assert s in kept;
      assert LiveSels([Rule(env.rejoin(text, kept), kept, k)]) == kept + LiveSels([]);
  }

  /** Soundness of the walk: a selector of an ordinary rule left in the tree
      stood in an ordinary rule before, and the keep rule accepts it under
      the ignore list the walk ends with. */
  lemma {:induction false} WalkNodesLiveSound(env: Env, nodes: seq<Node>, st: WalkState, s: string)
    requires s in LiveSels(WalkNodes(env, nodes, false, st).0)
    ensures s in LiveSels(nodes) && Keep(s, WalkNodes(env, nodes, false, st).1.ignore, env)
    decreases nodes
  {
    var (h, st1) := WalkNode(env, nodes[0], false, st);
    var (t, st2) := WalkNodes(env, nodes[1..], false, st1);
    LiveSelsAppend(h, t);
    LiveSelsAppend([nodes[0]], nodes[1..]);
    assert [nodes[0]] + nodes[1..] == nodes;
    assert LiveSels([nodes[0]]) == NodeLiveSels(nodes[0]) + LiveSels([]);
    if s in LiveSels(h) {
      WalkNodeLiveSound(env, nodes[0], st, s);
      KeepGrows(s, st1.ignore, st2.ignore, env);
    } else {
      WalkNodesLiveSound(env, nodes[1..], st1, s);
    }
  }

  lemma {:induction false} WalkNodeLiveSound(env: Env, n: Node, st: WalkState, s: string)
    requires s in LiveSels(WalkNode(env, n, false, st).0)
    ensures s in NodeLiveSels(n) && Keep(s, WalkNode(env, n, false, st).1.ignore, env)
    decreases n
  {
    match n
    case Comment(_) =>
    case Decl(_, _) =>
    case AtRule(name, params, kids) =>
      var k := WalkNodes(env, kids, IsKeyframes(name), st).0;
      assert LiveSels([AtRule(name, params, k)]) == NodeLiveSels(AtRule(name, params, k)) + LiveSels([]);
      WalkNodesLiveSound(env, kids, st, s);
    case Rule(text, sels, kids) =>
      var st0 := RuleState(env, sels, st);
      var kept := FilterUnusedSelectors(sels, st0.ignore, env);
      var (k, st1) := WalkNodes(env, kids, false, st0);
      assert |kept| > 0;
      assert LiveSels([Rule(env.rejoin(text, kept), kept, k)]) == kept + LiveSels([]);
      KeepGrows(s, st0.ignore, st1.ignore, env);
  }

  /** After a marker the only new ignore entry is the raw `p:hover`, which
      differs from the de-pseudified `p`, so the selector is rejected. */
  lemma HoverRejected(env: Env, p: string, ignore: seq<IgnoreEntry>)
    requires ':' !in p
    requires !(|p| > 0 && p[0] == '@') && p !in env.used && !IgnoreHit(ignore, p, env.test)
    ensures FilterUnusedSelectors([p + ":hover"], ignore + [Exact(p + ":hover")], env) == []
  {
    var sel := p + ":hover";
    var full := ignore + [Exact(sel)];
    PseudoExamples.HoverDropped(p, "");
    assert p + ":hover" + "" == sel && p + "" == p;
    assert DePseudify(sel) == p;
    assert !Keep(sel, full, env);
  }

  /** A rule none of whose selectors survives is removed with its children. */
  lemma RuleDropped(env: Env, text: string, sels: seq<string>, kids: seq<Node>, st: WalkState)
    requires FilterUnusedSelectors(sels, RuleState(env, sels, st).ignore, env) == []
    ensures WalkNodes(env, [Rule(text, sels, kids)], false, st).0 == []
  {
    var nodes := [Rule(text, sels, kids)];
    assert WalkNode(env, nodes[0], false, st).0 == [];
    assert nodes[1..] == [];
  }

  /** A marker comment stays and sets the flag for what follows. */
  lemma MarkerStep(env: Env, t: string, rest: seq<Node>, st: WalkState)
    requires IsIgnoreMarker(t)
    ensures WalkNodes(env, [Comment(t)] + rest, false, st).0
         == [Comment(t)] + WalkNodes(env, rest, false, st.(flag := true)).0
  {
    var nodes := [Comment(t)] + rest;
    assert nodes[0] == Comment(t) && nodes[1..] == rest;
    assert WalkNode(env, nodes[0], false, st) == ([Comment(t)], st.(flag := true));
  }

  /** The marker protects a rule by adding its raw selectors to the ignore
      list, but the list is compared with de-pseudified selectors: a rule
      `p:hover` right after `uncss:ignore` is still removed when `p` itself
      is unused and not ignored. */
  lemma FlaggedHoverDropped(env: Env, t: string, text: string, p: string, kids: seq<Node>, st: WalkState)
    requires IsIgnoreMarker(t) && ':' !in p
    requires !(|p| > 0 && p[0] == '@') && p !in env.used && !IgnoreHit(st.ignore, p, env.test)
    ensures WalkNodes(env, [Comment(t), Rule(text, [p + ":hover"], kids)], false, st).0 == [Comment(t)]
  {
    var sel := p + ":hover";
    var rule := Rule(text, [sel], kids);
    var st1 := st.(flag := true);
    HoverRejected(env, p, st.ignore);
    assert Exacts([sel]) == [Exact(sel)] + Exacts([]);
    assert RuleState(env, [sel], st1).ignore == st.ignore + [Exact(sel)];
    RuleDropped(env, text, [sel], kids, st1);
    MarkerStep(env, t, [rule], st);
    assert [Comment(t), rule] == [Comment(t)] + [rule];
    assert [Comment(t)] + [] == [Comment(t)];
  }
}
