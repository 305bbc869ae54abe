/** What the current engine does after the selector walk: drop `@media`
    blocks left without children, collect the animation names the
    remaining declarations use, and drop the `@keyframes` blocks no name
    refers to. */
module Pruning {
  import opened Text
  import opened Css
  import opened CssList
  import opened SelectorFilter
  import Seqs

  // ---------------------------------------------------------------------
  // Empty @media blocks

  predicate IsMedia(n: Node) {
    n.AtRule? && n.name == "media"
  }

  /** `filterEmptyAtRules` as written: one walk, a parent before its
      children, removing an `@media` whose children list is empty when it is
      visited. A block that only becomes empty once its children are removed
      is visited before that and stays. */
  function MediaPreNodes(nodes: seq<Node>): seq<Node>
    decreases nodes
  {
    if |nodes| == 0 then [] else MediaPreNode(nodes[0]) + MediaPreNodes(nodes[1..])
  }

  function MediaPreNode(n: Node): seq<Node>
    decreases n
  {
    match n
    case AtRule(name, params, kids) =>
      if name == "media" && |kids| == 0 then [] else [AtRule(name, params, MediaPreNodes(kids))]
    case Rule(text, sels, kids) => [Rule(text, sels, MediaPreNodes(kids))]
    case _ => [n]
  }

  /** The pruning as intended: children first, then the block itself if
      nothing is left in it. */
  function MediaNodes(nodes: seq<Node>): seq<Node>
    decreases nodes
  {
    if |nodes| == 0 then [] else MediaNode(nodes[0]) + MediaNodes(nodes[1..])
  }

  function MediaNode(n: Node): seq<Node>
    decreases n
  {
    match n
    case AtRule(name, params, kids) =>
      var k := MediaNodes(kids);
      if name == "media" && |k| == 0 then [] else [AtRule(name, params, k)]
    case Rule(text, sels, kids) => [Rule(text, sels, MediaNodes(kids))]
    case _ => [n]
  }

  /** No `@media` block anywhere in the tree is empty. */
  predicate NoEmptyMedia(nodes: seq<Node>)
    decreases nodes
  {
    |nodes| == 0 || (NodeNoEmptyMedia(nodes[0]) && NoEmptyMedia(nodes[1..]))
  }

  predicate NodeNoEmptyMedia(n: Node)
    decreases n
  {
    match n
    case AtRule(name, _, kids) => !(name == "media" && |kids| == 0) && NoEmptyMedia(kids)
    case Rule(_, _, kids) => NoEmptyMedia(kids)
    case _ => true
  }

  lemma {:induction false} NoEmptyMediaAppend(a: seq<Node>, b: seq<Node>)
    requires NoEmptyMedia(a) && NoEmptyMedia(b)
    ensures NoEmptyMedia(a + b)
    decreases a
  {
    if |a| == 0 {
      assert a + b == b;
    } else {
      assert (a + b)[0] == a[0] && (a + b)[1..] == a[1..] + b;
      NoEmptyMediaAppend(a[1..], b);
    }
  }

  /** After the intended pruning no `@media` block is empty. */
  lemma {:induction false} MediaNodesNoEmpty(nodes: seq<Node>)
    ensures NoEmptyMedia(MediaNodes(nodes))
    decreases nodes
  {
    if |nodes| > 0 {
      MediaNodeNoEmpty(nodes[0]);
      MediaNodesNoEmpty(nodes[1..]);
      NoEmptyMediaAppend(MediaNode(nodes[0]), MediaNodes(nodes[1..]));
    }
  }

  lemma {:induction false} MediaNodeNoEmpty(n: Node)
    ensures NoEmptyMedia(MediaNode(n))
    decreases n
  {
    var out := MediaNode(n);
    match n
    case AtRule(name, params, kids) =>
      MediaNodesNoEmpty(kids);
      if |out| > 0 {
        assert out[1..] == [];
      }
    case Rule(text, sels, kids) =>
      MediaNodesNoEmpty(kids);
      assert out[1..] == [];
    case Decl(_, _) =>
      assert out == [n] && out[1..] == [];
    case Comment(_) =>
      assert out == [n] && out[1..] == [];
      assert NodeNoEmptyMedia(out[0]) && NoEmptyMedia(out[1..]);
  }

  /** A tree without empty `@media` blocks is left as it is, so the pruning
      is idempotent. */
  lemma {:induction false} MediaNodesKeep(nodes: seq<Node>)
    requires NoEmptyMedia(nodes)
    ensures MediaNodes(nodes) == nodes
    decreases nodes
  {
    if |nodes| > 0 {
      MediaNodeKeep(nodes[0]);
      MediaNodesKeep(nodes[1..]);
      assert [nodes[0]] + nodes[1..] == nodes;
    }
  }

  lemma {:induction false} MediaNodeKeep(n: Node)
    requires NodeNoEmptyMedia(n)
    ensures MediaNode(n) == [n]
    decreases n
  {
    match n
    case AtRule(name, params, kids) =>
      MediaNodesKeep(kids);
    case Rule(text, sels, kids) =>
      MediaNodesKeep(kids);
    case _ =>
  }

  lemma MediaIdempotent(nodes: seq<Node>)
    ensures MediaNodes(MediaNodes(nodes)) == MediaNodes(nodes)
  {
    MediaNodesNoEmpty(nodes);
    MediaNodesKeep(MediaNodes(nodes));
  }

  /** The walk as written leaves an `@media` whose only child is an empty
      `@media`: `@media a { @media b {} }` becomes `@media a {}`. */
  lemma MediaPreLeavesEmpty(a: string, b: string)
    ensures var tree := [AtRule("media", a, [AtRule("media", b, [])])];
      MediaPreNodes(tree) == [AtRule("media", a, [])]
      && !NoEmptyMedia(MediaPreNodes(tree))
      && NoEmptyMedia(MediaNodes(tree)) && MediaNodes(tree) == []
  {
    var inner := AtRule("media", b, []);
    var tree := [AtRule("media", a, [inner])];
    assert MediaPreNode(inner) == [];
    assert MediaPreNodes([inner]) == [] + MediaPreNodes([]);
    assert MediaNode(inner) == [];
    assert MediaNodes([inner]) == [] + MediaNodes([]);
    assert MediaNode(tree[0]) == [];
    assert MediaPreNodes(tree) == MediaPreNode(tree[0]) + MediaPreNodes([]);
    assert MediaNodes(tree) == MediaNode(tree[0]) + MediaNodes([]);
  }

  /** Removing an empty `@media` block removes no rule and no declaration:
      the selectors, the rule texts and the declarations are the same in the
      same order. */
  lemma {:induction false} MediaNodesContent(nodes: seq<Node>)
    ensures AllSels(MediaNodes(nodes)) == AllSels(nodes)
    ensures RuleTexts(MediaNodes(nodes)) == RuleTexts(nodes)
    ensures AllDecls(MediaNodes(nodes)) == AllDecls(nodes)
    decreases nodes
  {
    if |nodes| > 0 {
      MediaNodeContent(nodes[0]);
      MediaNodesContent(nodes[1..]);
      AllSelsAppend(MediaNode(nodes[0]), MediaNodes(nodes[1..]));
      RuleTextsAppend(MediaNode(nodes[0]), MediaNodes(nodes[1..]));
      AllDeclsAppend(MediaNode(nodes[0]), MediaNodes(nodes[1..]));
    }
  }

  lemma {:induction false} MediaNodeContent(n: Node)
    ensures AllSels(MediaNode(n)) == NodeSels(n)
    ensures RuleTexts(MediaNode(n)) == NodeRuleTexts(n)
    ensures AllDecls(MediaNode(n)) == NodeDecls(n)
    decreases n
  {
    var out := MediaNode(n);
    match n
    case AtRule(name, params, kids) =>
      MediaNodesContent(kids);
      if |out| > 0 {
        assert out[1..] == [];
      }
    case Rule(text, sels, kids) =>
      MediaNodesContent(kids);
      assert out[1..] == [];
    case _ =>
      assert out[1..] == [];
  }

  /** The pass as written removes no rule and no declaration either. */
  lemma {:induction false} MediaPreNodesContent(nodes: seq<Node>)
    ensures AllSels(MediaPreNodes(nodes)) == AllSels(nodes)
    ensures RuleTexts(MediaPreNodes(nodes)) == RuleTexts(nodes)
    ensures AllDecls(MediaPreNodes(nodes)) == AllDecls(nodes)
    decreases nodes
  {
    if |nodes| > 0 {
      MediaPreNodeContent(nodes[0]);
      MediaPreNodesContent(nodes[1..]);
      AllSelsAppend(MediaPreNode(nodes[0]), MediaPreNodes(nodes[1..]));
      RuleTextsAppend(MediaPreNode(nodes[0]), MediaPreNodes(nodes[1..]));
      AllDeclsAppend(MediaPreNode(nodes[0]), MediaPreNodes(nodes[1..]));
    }
  }

  lemma {:induction false} MediaPreNodeContent(n: Node)
    ensures AllSels(MediaPreNode(n)) == NodeSels(n)
    ensures RuleTexts(MediaPreNode(n)) == NodeRuleTexts(n)
    ensures AllDecls(MediaPreNode(n)) == NodeDecls(n)
    decreases n
  {
    var out := MediaPreNode(n);
    match n
    case AtRule(name, params, kids) =>
      MediaPreNodesContent(kids);
      if |out| > 0 {
        assert out == [AtRule(name, params, MediaPreNodes(kids))] && out[1..] == [];
      }
    case Rule(text, sels, kids) =>
      MediaPreNodesContent(kids);
      assert out == [Rule(text, sels, MediaPreNodes(kids))] && out[1..] == [];
    case Decl(_, _) =>
      assert out == [n] && out[1..] == [];
    case Comment(_) =>
      assert out == [n] && out[1..] == [];
  }

  lemma {:induction false} MediaNodesAppend(a: seq<Node>, b: seq<Node>)
    ensures MediaNodes(a + b) == MediaNodes(a) + MediaNodes(b)
    decreases a
  {
    if |a| == 0 {
      assert a + b == b;
    } else {
      assert (a + b)[0] == a[0] && (a + b)[1..] == a[1..] + b;
      MediaNodesAppend(a[1..], b);
    }
  }

  /** What the pass as written leaves behind differs from the intended
      result only by empty `@media` blocks: pruning it once more, children
      first, gives exactly the intended result. */
  lemma {:induction false} MediaPreThenMedia(nodes: seq<Node>)
    ensures MediaNodes(MediaPreNodes(nodes)) == MediaNodes(nodes)
    decreases nodes
  {
    if |nodes| > 0 {
      MediaNodesAppend(MediaPreNode(nodes[0]), MediaPreNodes(nodes[1..]));
      MediaPreNodeThenMedia(nodes[0]);
      MediaPreThenMedia(nodes[1..]);
    }
  }

  lemma {:induction false} MediaPreNodeThenMedia(n: Node)
    ensures MediaNodes(MediaPreNode(n)) == MediaNode(n)
    decreases n
  {
    match n
    case AtRule(name, params, kids) =>
      if name == "media" && |kids| == 0 {
        assert MediaNodes(kids) == [];
      } else {
        var pre := AtRule(name, params, MediaPreNodes(kids));
        MediaPreThenMedia(kids);
        assert MediaNodes([pre]) == MediaNode(pre) + MediaNodes([]);
      }
    case Rule(text, sels, kids) =>
      var pre := Rule(text, sels, MediaPreNodes(kids));
      MediaPreThenMedia(kids);
      assert MediaNodes([pre]) == MediaNode(pre) + MediaNodes([]);
    case Decl(_, _) =>
      assert MediaNodes([n]) == MediaNode(n) + MediaNodes([]);
    case Comment(_) =>
      assert MediaNodes([n]) == MediaNode(n) + MediaNodes([]);
  }

  /** Pruning keeps the selectors of the ordinary rules, in order. */
  lemma {:induction false} MediaNodesLive(nodes: seq<Node>)
    ensures LiveSels(MediaNodes(nodes)) == LiveSels(nodes)
    decreases nodes
  {
    if |nodes| > 0 {
      MediaNodeLive(nodes[0]);
      MediaNodesLive(nodes[1..]);
      LiveSelsAppend(MediaNode(nodes[0]), MediaNodes(nodes[1..]));
    }
  }

  lemma {:induction false} MediaNodeLive(n: Node)
    ensures LiveSels(MediaNode(n)) == NodeLiveSels(n)
    decreases n
  {
    var out := MediaNode(n);
    match n
    case AtRule(name, params, kids) =>
      MediaNodesLive(kids);
      if |out| > 0 {
        assert out[1..] == [];
      }
    case _ =>
      assert out[1..] == [];
  }

  // ---------------------------------------------------------------------
  // Animation names

  /** The first blank-separated token of an `animation` item, when there is
      one. An item with no token yields nothing: the value the code would
      push is `undefined`, which no keyframes name equals. */
  function FirstTokens(items: seq<string>): seq<string> {
    if |items| == 0 then []
    else
      var toks := Space(items[0]);
      (if |toks| > 0 then [toks[0]] else []) + FirstTokens(items[1..])
  }

  /** The names one declaration contributes. */
  function DeclAnimations(d: Node): seq<string> {
    match d
    case Decl(prop, value) =>
      if EndsWith(prop, "animation-name") then Comma(value)
      else if EndsWith(prop, "animation") then FirstTokens(Comma(value))
      else []
    case _ => []
  }

  function NamesOf(decls: seq<Node>): seq<string> {
    if |decls| == 0 then [] else DeclAnimations(decls[0]) + NamesOf(decls[1..])
  }

  /** `getUsedAnimations`: the names of every declaration, in document order. */
  function UsedAnimations(nodes: seq<Node>): seq<string> {
    NamesOf(AllDecls(nodes))
  }

  /** A declaration of `animation`, `animation-name` or a vendor form of
      either. */
  predicate IsAnimationDecl(d: Node) {
    d.Decl? && (EndsWith(d.prop, "animation") || EndsWith(d.prop, "animation-name"))
  }

  /** A name listed by any declaration is collected. */
  lemma {:induction false} NamesOfHas(decls: seq<Node>, i: nat, x: string)
    requires i < |decls| && x in DeclAnimations(decls[i])
    ensures x in NamesOf(decls)
    decreases i
  {
    if i > 0 {
      assert decls[1..][i - 1] == decls[i];
      NamesOfHas(decls[1..], i - 1, x);
    }
  }

  /** The names collected are exactly those the animation declarations
      list: nothing else is collected and nothing they list is missed. */
  lemma {:induction false} NamesFromAnimationDecls(decls: seq<Node>)
    ensures forall x :: x in NamesOf(decls) <==>
      (exists i :: 0 <= i < |decls| && IsAnimationDecl(decls[i]) && x in DeclAnimations(decls[i]))
  {
    forall x, i | 0 <= i < |decls| && IsAnimationDecl(decls[i]) && x in DeclAnimations(decls[i])
      ensures x in NamesOf(decls)
    {
      NamesOfHas(decls, i, x);
    }
    if |decls| > 0 {
      NamesFromAnimationDecls(decls[1..]);
      forall x | x in NamesOf(decls)
        ensures exists i :: 0 <= i < |decls| && IsAnimationDecl(decls[i]) && x in DeclAnimations(decls[i])
      {
        assert NamesOf(decls) == DeclAnimations(decls[0]) + NamesOf(decls[1..]);
        if x in DeclAnimations(decls[0]) {
          assert IsAnimationDecl(decls[0]);
        } else {
          var i :| 0 <= i < |decls[1..]| && IsAnimationDecl(decls[1..][i]) && x in DeclAnimations(decls[1..][i]);
          assert decls[i + 1] == decls[1..][i];
        }
      }
    }
  }

  /** `x` is the first blank-separated token of `item`. */
  predicate FirstTokenOf(item: string, x: string) {
    |Space(item)| > 0 && Space(item)[0] == x
  }

  /** From an `animation` value every item's first token is taken, and
      nothing else. */
  lemma {:induction false} FirstTokensMembers(items: seq<string>)
    ensures forall x :: x in FirstTokens(items) <==>
      (exists i :: 0 <= i < |items| && FirstTokenOf(items[i], x))
  {
    if |items| > 0 {
      FirstTokensMembers(items[1..]);
      forall x
        ensures x in FirstTokens(items) <==> (exists i :: 0 <= i < |items| && FirstTokenOf(items[i], x))
      {
        if exists i :: 0 <= i < |items| && FirstTokenOf(items[i], x) {
          var i :| 0 <= i < |items| && FirstTokenOf(items[i], x);
          if i > 0 {
            assert items[1..][i - 1] == items[i];
          }
        }
        if x in FirstTokens(items[1..]) {
          var i :| 0 <= i < |items[1..]| && FirstTokenOf(items[1..][i], x);
          assert items[i + 1] == items[1..][i];
        }
      }
    }
  }

  /** A property ending in `animation-name` does not end in `animation`, so
      a declaration takes one branch only. */
  lemma AnimationNameEnds(prop: string)
    requires EndsWith(prop, "animation-name")
    ensures !EndsWith(prop, "animation")
  {
    assert prop[|prop| - 1] == 'e';
  }

  /** Pruning empty `@media` blocks before collecting names changes no name. */
  lemma MediaKeepsAnimations(nodes: seq<Node>)
    ensures UsedAnimations(MediaNodes(nodes)) == UsedAnimations(nodes)
  {
    MediaNodesContent(nodes);
  }

  // ---------------------------------------------------------------------
  // Unused @keyframes

  /** `filterKeyframes`: every at-rule whose name ends in `keyframes` and
      whose params are not a used name is removed and recorded, in document
      order, a parent before its children; the children of a removed block
      are still visited. */
  function KeyframesNodes(nodes: seq<Node>, names: seq<string>): (r: (seq<Node>, seq<Record>))
    decreases nodes
  {
    if |nodes| == 0 then ([], [])
    else
      var (h, r1) := KeyframesNode(nodes[0], names);
      var (t, r2) := KeyframesNodes(nodes[1..], names);
      (h + t, r1 + r2)
  }

  function KeyframesNode(n: Node, names: seq<string>): (r: (seq<Node>, seq<Record>))
    decreases n
  {
    match n
    case AtRule(name, params, kids) =>
      var (k, recs) := KeyframesNodes(kids, names);
      if IsKeyframes(name) && params !in names then ([], [UnusedAtRule(name, params)] + recs)
      else ([AtRule(name, params, k)], recs)
    case Rule(text, sels, kids) =>
      var (k, recs) := KeyframesNodes(kids, names);
      ([Rule(text, sels, k)], recs)
    case _ => ([n], [])
  }

  /** Every keyframes block in the tree is named by some used animation. */
  predicate KeyframesUsed(nodes: seq<Node>, names: seq<string>)
    decreases nodes
  {
    |nodes| == 0 || (NodeKeyframesUsed(nodes[0], names) && KeyframesUsed(nodes[1..], names))
  }

  predicate NodeKeyframesUsed(n: Node, names: seq<string>)
    decreases n
  {
    match n
    case AtRule(name, params, kids) =>
      (IsKeyframes(name) ==> params in names) && KeyframesUsed(kids, names)
    case Rule(_, _, kids) => KeyframesUsed(kids, names)
    case _ => true
  }

  /** Every record names a removed keyframes block that no animation uses. */
  predicate RecordsUnused(recs: seq<Record>, names: seq<string>) {
    forall i :: 0 <= i < |recs| ==>
      recs[i].UnusedAtRule? && IsKeyframes(recs[i].name) && recs[i].params !in names
  }

  lemma {:induction false} KeyframesUsedAppend(a: seq<Node>, b: seq<Node>, names: seq<string>)
    requires KeyframesUsed(a, names) && KeyframesUsed(b, names)
    ensures KeyframesUsed(a + b, names)
    decreases a
  {
    if |a| == 0 {
      assert a + b == b;
    } else {
      assert (a + b)[0] == a[0] && (a + b)[1..] == a[1..] + b;
      KeyframesUsedAppend(a[1..], b, names);
    }
  }

  /** After the filter every keyframes block left is used, and every record
      is a block that was not. */
  lemma {:induction false} KeyframesNodesSound(nodes: seq<Node>, names: seq<string>)
    ensures KeyframesUsed(KeyframesNodes(nodes, names).0, names)
    ensures RecordsUnused(KeyframesNodes(nodes, names).1, names)
    decreases nodes
  {
    if |nodes| > 0 {
      KeyframesNodeSound(nodes[0], names);
      KeyframesNodesSound(nodes[1..], names);
      KeyframesUsedAppend(KeyframesNode(nodes[0], names).0, KeyframesNodes(nodes[1..], names).0, names);
    }
  }

  lemma {:induction false} KeyframesNodeSound(n: Node, names: seq<string>)
    ensures KeyframesUsed(KeyframesNode(n, names).0, names)
    ensures RecordsUnused(KeyframesNode(n, names).1, names)
    decreases n
  {
    var out := KeyframesNode(n, names).0;
    match n
    case AtRule(name, params, kids) =>
      var (k, recs) := KeyframesNodes(kids, names);
      KeyframesNodesSound(kids, names);
      if IsKeyframes(name) && params !in names {
        assert out == [];
      } else {
        assert out == [AtRule(name, params, k)];
        assert NodeKeyframesUsed(out[0], names) && out[1..] == [];
      }
    case Rule(text, sels, kids) =>
      var (k, recs) := KeyframesNodes(kids, names);
      KeyframesNodesSound(kids, names);
      assert out == [Rule(text, sels, k)];
      assert NodeKeyframesUsed(out[0], names) && out[1..] == [];
    case Decl(_, _) =>
      assert out == [n] && out[1..] == [];
      assert NodeKeyframesUsed(out[0], names) && KeyframesUsed(out[1..], names);
    case Comment(_) =>
      assert out == [n] && out[1..] == [];
      assert NodeKeyframesUsed(out[0], names) && KeyframesUsed(out[1..], names);
  }

  /** A tree whose keyframes blocks are all used is left as it is and
      nothing is recorded. */
  lemma {:induction false} KeyframesNodesKeep(nodes: seq<Node>, names: seq<string>)
    requires KeyframesUsed(nodes, names)
    ensures KeyframesNodes(nodes, names) == (nodes, [])
    decreases nodes
  {
    if |nodes| > 0 {
      assert NodeKeyframesUsed(nodes[0], names) && KeyframesUsed(nodes[1..], names);
      KeyframesNodeKeep(nodes[0], names);
      KeyframesNodesKeep(nodes[1..], names);
      var (h, r1) := KeyframesNode(nodes[0], names);
      var (t, r2) := KeyframesNodes(nodes[1..], names);
      assert h + t == nodes && r1 + r2 == [];
    }
  }

  lemma {:induction false} KeyframesNodeKeep(n: Node, names: seq<string>)
    requires NodeKeyframesUsed(n, names)
    ensures KeyframesNode(n, names) == ([n], [])
    decreases n
  {
    match n
    case AtRule(name, params, kids) =>
      KeyframesNodesKeep(kids, names);
    case Rule(text, sels, kids) =>
      KeyframesNodesKeep(kids, names);
    case _ =>
  }

  /** The filter removes whole blocks only: the selectors left are a
      subsequence of those before. */
  lemma {:induction false} KeyframesNodesSels(nodes: seq<Node>, names: seq<string>)
    ensures Seqs.IsSubseq(AllSels(KeyframesNodes(nodes, names).0), AllSels(nodes))
    decreases nodes
  {
    if |nodes| > 0 {
      var h := KeyframesNode(nodes[0], names).0;
      var t := KeyframesNodes(nodes[1..], names).0;
      KeyframesNodeSels(nodes[0], names);
      KeyframesNodesSels(nodes[1..], names);
      AllSelsAppend(h, t);
      Seqs.SubseqConcat(AllSels(h), AllSels(t), NodeSels(nodes[0]), AllSels(nodes[1..]));
    }
  }

  lemma {:induction false} KeyframesNodeSels(n: Node, names: seq<string>)
    ensures Seqs.IsSubseq(AllSels(KeyframesNode(n, names).0), NodeSels(n))
    decreases n
  {
    var out := KeyframesNode(n, names).0;
    match n
    case AtRule(name, params, kids) =>
      KeyframesNodesSels(kids, names);
      if |out| > 0 {
        assert AllSels(out) == AllSels(KeyframesNodes(kids, names).0);
      }
    case Rule(text, sels, kids) =>
      var k := KeyframesNodes(kids, names).0;
      KeyframesNodesSels(kids, names);
      Seqs.SubseqRefl(sels);
      Seqs.SubseqConcat(sels, AllSels(k), sels, AllSels(kids));
      assert AllSels(out) == sels + AllSels(k);
    case _ =>
  }

  /** The tree with every keyframes block cut out, everything else as it is. */
  function NonKeyframes(nodes: seq<Node>): seq<Node>
    decreases nodes
  {
    if |nodes| == 0 then [] else NodeNonKeyframes(nodes[0]) + NonKeyframes(nodes[1..])
  }

  function NodeNonKeyframes(n: Node): seq<Node>
    decreases n
  {
    match n
    case AtRule(name, params, kids) => if IsKeyframes(name) then [] else [AtRule(name, params, NonKeyframes(kids))]
    case Rule(text, sels, kids) => [Rule(text, sels, NonKeyframes(kids))]
    case _ => [n]
  }

  lemma {:induction false} NonKeyframesAppend(a: seq<Node>, b: seq<Node>)
    ensures NonKeyframes(a + b) == NonKeyframes(a) + NonKeyframes(b)
    decreases a
  {
    if |a| == 0 {
      assert a + b == b;
    } else {
      assert (a + b)[0] == a[0] && (a + b)[1..] == a[1..] + b;
      NonKeyframesAppend(a[1..], b);
    }
  }

  /** The filter touches keyframes blocks only: outside them every node is
      still there, unchanged and in order. */
  lemma {:induction false} KeyframesNodesRest(nodes: seq<Node>, names: seq<string>)
    ensures NonKeyframes(KeyframesNodes(nodes, names).0) == NonKeyframes(nodes)
    decreases nodes
  {
    if |nodes| > 0 {
      KeyframesNodeRest(nodes[0], names);
      KeyframesNodesRest(nodes[1..], names);
      NonKeyframesAppend(KeyframesNode(nodes[0], names).0, KeyframesNodes(nodes[1..], names).0);
    }
  }

  lemma {:induction false} KeyframesNodeRest(n: Node, names: seq<string>)
    ensures NonKeyframes(KeyframesNode(n, names).0) == NodeNonKeyframes(n)
    decreases n
  {
    var out := KeyframesNode(n, names).0;
    match n
    case AtRule(name, params, kids) =>
      KeyframesNodesRest(kids, names);
      if |out| > 0 {
        assert out[1..] == [];
      }
    case Rule(text, sels, kids) =>
      KeyframesNodesRest(kids, names);
      assert out[1..] == [];
    case _ =>
      assert out[1..] == [];
  }

  /** The outermost keyframes blocks, in document order, each with its
      contents other than nested keyframes blocks. */
  function KeyframesBlocks(nodes: seq<Node>): seq<Node>
    decreases nodes
  {
    if |nodes| == 0 then [] else NodeKeyframesBlocks(nodes[0]) + KeyframesBlocks(nodes[1..])
  }

  function NodeKeyframesBlocks(n: Node): seq<Node>
    decreases n
  {
    match n
    case AtRule(name, params, kids) => if IsKeyframes(name) then [AtRule(name, params, NonKeyframes(kids))] else KeyframesBlocks(kids)
    case Rule(_, _, kids) => KeyframesBlocks(kids)
    case _ => []
  }

  /** A block some animation names. */
  function UsedBlock(names: seq<string>): Node -> bool {
    (b: Node) => b.AtRule? && b.params in names
  }

  lemma {:induction false} KeyframesBlocksAppend(a: seq<Node>, b: seq<Node>)
    ensures KeyframesBlocks(a + b) == KeyframesBlocks(a) + KeyframesBlocks(b)
    decreases a
  {
    if |a| == 0 {
      assert a + b == b;
    } else {
      assert (a + b)[0] == a[0] && (a + b)[1..] == a[1..] + b;
      KeyframesBlocksAppend(a[1..], b);
    }
  }

  /** The outermost keyframes blocks left are exactly those some animation
      names, in their order and with their contents: a used block always
      survives, an unused one never does. */
  lemma {:induction false} KeyframesNodesBlocks(nodes: seq<Node>, names: seq<string>)
    ensures KeyframesBlocks(KeyframesNodes(nodes, names).0) == Seqs.Filter(KeyframesBlocks(nodes), UsedBlock(names))
    decreases nodes
  {
    if |nodes| > 0 {
      KeyframesNodeBlocks(nodes[0], names);
      KeyframesNodesBlocks(nodes[1..], names);
      KeyframesBlocksAppend(KeyframesNode(nodes[0], names).0, KeyframesNodes(nodes[1..], names).0);
      Seqs.FilterAppend(NodeKeyframesBlocks(nodes[0]), KeyframesBlocks(nodes[1..]), UsedBlock(names));
    }
  }

  lemma {:induction false} KeyframesNodeBlocks(n: Node, names: seq<string>)
    ensures KeyframesBlocks(KeyframesNode(n, names).0) == Seqs.Filter(NodeKeyframesBlocks(n), UsedBlock(names))
    decreases n
  {
    var out := KeyframesNode(n, names).0;
    match n
    case AtRule(name, params, kids) =>
      if IsKeyframes(name) {
        var b := AtRule(name, params, NonKeyframes(kids));
        assert [b][1..] == [];
        assert Seqs.Filter([b], UsedBlock(names)) == if params in names then [b] else [];
        if params in names {
          KeyframesNodesRest(kids, names);
          assert out[1..] == [];
          assert KeyframesBlocks(out) == [b] + KeyframesBlocks([]);
        }
      } else {
        KeyframesNodesBlocks(kids, names);
        assert out[1..] == [];
      }
    case Rule(text, sels, kids) =>
      KeyframesNodesBlocks(kids, names);
      assert out[1..] == [];
    case _ =>
      assert out[1..] == [];
  }

  /** The filter keeps the selectors of the ordinary rules, in order. */
  lemma {:induction false} KeyframesNodesLive(nodes: seq<Node>, names: seq<string>)
    ensures LiveSels(KeyframesNodes(nodes, names).0) == LiveSels(nodes)
    decreases nodes
  {
    if |nodes| > 0 {
      KeyframesNodeLive(nodes[0], names);
      KeyframesNodesLive(nodes[1..], names);
      LiveSelsAppend(KeyframesNode(nodes[0], names).0, KeyframesNodes(nodes[1..], names).0);
    }
  }

  lemma {:induction false} KeyframesNodeLive(n: Node, names: seq<string>)
    ensures LiveSels(KeyframesNode(n, names).0) == NodeLiveSels(n)
    decreases n
  {
    var out := KeyframesNode(n, names).0;
    match n
    case AtRule(name, params, kids) =>
      KeyframesNodesLive(kids, names);
      if |out| > 0 {
        assert out[1..] == [];
      }
    case _ =>
      assert out[1..] == [];
  }

  // ---------------------------------------------------------------------
  // The whole filter

  /** `filterUnusedRules`: the selector walk, then the empty `@media`
      pruning, then the keyframes filter against the names the pruned tree
      uses. The result is the new tree and the records of what was removed.
      The records stay inside the filter: the code collects them in
      `unusedRules` but returns only the tree, so no caller sees them.
      The pruning is the corrected children-first pass `MediaNodes`; the
      parent-first pass as written can leave empty `@media` blocks behind,
      and `MediaPreThenMedia` says those are the only difference. */
  function FilterUnusedRules(env: Env, ignore: seq<IgnoreEntry>, nodes: seq<Node>): (seq<Node>, seq<Record>) {
    var (walked, st) := WalkNodes(env, nodes, false, WalkState(false, ignore, []));
    var pruned := MediaNodes(walked);
    var (kept, recs) := KeyframesNodes(pruned, UsedAnimations(pruned));
    (kept, st.unused + recs)
  }

  /** What the whole filter guarantees: every selector left was in the
      input, in order; every keyframes block left is named by an animation
      the filtered rules use; and every keyframes record is a block none
      used. */
  lemma FilterUnusedRulesSound(env: Env, ignore: seq<IgnoreEntry>, nodes: seq<Node>)
    ensures var (out, recs) := FilterUnusedRules(env, ignore, nodes);
      var walked := WalkNodes(env, nodes, false, WalkState(false, ignore, [])).0;
      var names := UsedAnimations(walked);
      Seqs.IsSubseq(AllSels(out), AllSels(nodes))
      && KeyframesUsed(out, names)
      && forall i :: 0 <= i < |recs| && recs[i].UnusedAtRule? ==> IsKeyframes(recs[i].name) && recs[i].params !in names
  {
    var (walked, st) := WalkNodes(env, nodes, false, WalkState(false, ignore, []));
    var pruned := MediaNodes(walked);
    var names := UsedAnimations(pruned);
    MediaKeepsAnimations(walked);
    WalkNodesSels(env, nodes, false, WalkState(false, ignore, []));
    MediaNodesContent(walked);
    KeyframesNodesSels(pruned, names);
    Seqs.SubseqTrans(AllSels(KeyframesNodes(pruned, names).0), AllSels(pruned), AllSels(nodes));
    KeyframesNodesSound(pruned, names);
    var recs := st.unused + KeyframesNodes(pruned, names).1;
    WalkNodesRecords(env, nodes, false, WalkState(false, ignore, []));
    forall i | 0 <= i < |recs| && recs[i].UnusedAtRule?
      ensures IsKeyframes(recs[i].name) && recs[i].params !in names
    {
      if i >= |st.unused| {
        assert recs[i] == KeyframesNodes(pruned, names).1[i - |st.unused|];
      }
    }
  }

  /** What the whole filter does to the ordinary rules: a selector the keep
      rule accepts under the initial ignore list survives, and a selector
      that survives was in the input and is accepted under the ignore list
      as the `uncss:ignore` comments extended it. */
  lemma FilterUnusedRulesLive(env: Env, ignore: seq<IgnoreEntry>, nodes: seq<Node>)
    ensures var out := FilterUnusedRules(env, ignore, nodes).0;
      var fin := WalkNodes(env, nodes, false, WalkState(false, ignore, [])).1;
      (forall s :: s in LiveSels(nodes) && Keep(s, ignore, env) ==> s in LiveSels(out))
      && (forall s :: s in LiveSels(out) ==> s in LiveSels(nodes) && Keep(s, fin.ignore, env))
  {
    var st := WalkState(false, ignore, []);
    var (walked, fin) := WalkNodes(env, nodes, false, st);
    var pruned := MediaNodes(walked);
    var out := KeyframesNodes(pruned, UsedAnimations(pruned)).0;
    MediaNodesLive(walked);
    KeyframesNodesLive(pruned, UsedAnimations(pruned));
    assert LiveSels(out) == LiveSels(walked);
    forall s | s in LiveSels(nodes) && Keep(s, ignore, env)
      ensures s in LiveSels(out)
    {
      WalkNodesKeeps(env, nodes, st, s);
    }
    forall s | s in LiveSels(out)
      ensures s in LiveSels(nodes) && Keep(s, fin.ignore, env)
    {
      WalkNodesLiveSound(env, nodes, st, s);
    }
  }
}
