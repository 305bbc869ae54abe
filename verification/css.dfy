/** The parsed stylesheet as the engine sees it: a forest of rules, at-rules,
    declarations and comments, in document order. */
module Css {
  import opened Text

  /** One node of the stylesheet tree.

      A rule keeps both its selector text and the list of its selectors,
      because the parser hands out both and the engine uses both: the list
      to decide what survives, the text for the report. */
  datatype Node =
    | Rule(selector: string, selectors: seq<string>, nodes: seq<Node>)
    | AtRule(name: string, params: string, nodes: seq<Node>)
    | Decl(prop: string, value: string)
    | Comment(text: string)

  /** An entry of the `ignore` option: a literal selector or a user regular
      expression, the latter known only by its index into the oracle that
      runs it. */
  datatype IgnoreEntry = Exact(text: string) | Pattern(id: nat)

  /** An entry of the list of removed things the engine reports: the
      selectors dropped from one rule, or a removed at-rule. */
  datatype Record = UnusedSelectors(selectors: seq<string>) | UnusedAtRule(name: string, params: string)

  /** Whether an at-rule of this name holds keyframe stops (`@keyframes`,
      `@-webkit-keyframes`, ...). */
  predicate IsKeyframes(name: string) {
    EndsWith(name, "keyframes")
  }

  /** Every selector of every rule, in document order (the parsed lists). */
  function AllSels(nodes: seq<Node>): seq<string>
    decreases nodes
  {
    if |nodes| == 0 then [] else NodeSels(nodes[0]) + AllSels(nodes[1..])
  }

  function NodeSels(n: Node): seq<string>
    decreases n
  {
    match n
    case Rule(_, sels, kids) => sels + AllSels(kids)
    case AtRule(_, _, kids) => AllSels(kids)
    case _ => []
  }

  /** The selectors of the ordinary rules: those that stand in the sheet
      itself or in at-rules other than keyframes blocks, and not inside
      another rule. In a stylesheet without nesting these are all the rules
      except the keyframe stops. */
  function LiveSels(nodes: seq<Node>): seq<string>
    decreases nodes
  {
    if |nodes| == 0 then [] else NodeLiveSels(nodes[0]) + LiveSels(nodes[1..])
  }

  function NodeLiveSels(n: Node): seq<string>
    decreases n
  {
    match n
    case Rule(_, sels, _) => sels
    case AtRule(name, _, kids) => if IsKeyframes(name) then [] else LiveSels(kids)
    case _ => []
  }

  /** The selector text of every rule, in document order. */
  function RuleTexts(nodes: seq<Node>): seq<string>
    decreases nodes
  {
    if |nodes| == 0 then [] else NodeRuleTexts(nodes[0]) + RuleTexts(nodes[1..])
  }

  function NodeRuleTexts(n: Node): seq<string>
    decreases n
  {
    match n
    case Rule(text, _, kids) => [text] + RuleTexts(kids)
    case AtRule(_, _, kids) => RuleTexts(kids)
    case _ => []
  }

  /** Every declaration, in document order, wherever it stands. */
  function AllDecls(nodes: seq<Node>): seq<Node>
    decreases nodes
  {
    if |nodes| == 0 then [] else NodeDecls(nodes[0]) + AllDecls(nodes[1..])
  }

  function NodeDecls(n: Node): seq<Node>
    decreases n
  {
    match n
    case Rule(_, _, kids) => AllDecls(kids)
    case AtRule(_, _, kids) => AllDecls(kids)
    case Decl(_, _) => [n]
    case Comment(_) => []
  }

  /** The parts of a tree a rule cannot hide: at-rules, declarations and
      comments that stand outside every rule, in document order. An at-rule
      appears with its children erased, so that two outlines compare only the
      nodes themselves. */
  function Outline(nodes: seq<Node>): seq<Node>
    decreases nodes
  {
    if |nodes| == 0 then [] else NodeOutline(nodes[0]) + Outline(nodes[1..])
  }

  function NodeOutline(n: Node): seq<Node>
    decreases n
  {
    match n
    case Rule(_, _, _) => []
    case AtRule(name, params, kids) => [AtRule(name, params, [])] + Outline(kids)
    case _ => [n]
  }

  /** Concatenation distributes over the document-order traversals. */
  lemma {:induction false} AllSelsAppend(a: seq<Node>, b: seq<Node>)
    ensures AllSels(a + b) == AllSels(a) + AllSels(b)
    decreases a
  {
    if |a| == 0 {
      assert a + b == b;
    } else {
      assert (a + b)[0] == a[0] && (a + b)[1..] == a[1..] + b;
      AllSelsAppend(a[1..], b);
    }
  }

  lemma {:induction false} AllDeclsAppend(a: seq<Node>, b: seq<Node>)
    ensures AllDecls(a + b) == AllDecls(a) + AllDecls(b)
    decreases a
  {
    if |a| == 0 {
      assert a + b == b;
    } else {
      assert (a + b)[0] == a[0] && (a + b)[1..] == a[1..] + b;
      AllDeclsAppend(a[1..], b);
    }
  }

  lemma {:induction false} RuleTextsAppend(a: seq<Node>, b: seq<Node>)
    ensures RuleTexts(a + b) == RuleTexts(a) + RuleTexts(b)
    decreases a
  {
    if |a| == 0 {
      assert a + b == b;
    } else {
      assert (a + b)[0] == a[0] && (a + b)[1..] == a[1..] + b;
      RuleTextsAppend(a[1..], b);
    }
  }

  lemma {:induction false} OutlineAppend(a: seq<Node>, b: seq<Node>)
    ensures Outline(a + b) == Outline(a) + Outline(b)
    decreases a
  {
    if |a| == 0 {
      assert a + b == b;
    } else {
      assert (a + b)[0] == a[0] && (a + b)[1..] == a[1..] + b;
      OutlineAppend(a[1..], b);
    }
  }

  lemma {:induction false} LiveSelsAppend(a: seq<Node>, b: seq<Node>)
    ensures LiveSels(a + b) == LiveSels(a) + LiveSels(b)
    decreases a
  {
    if |a| == 0 {
      assert a + b == b;
    } else {
      assert (a + b)[0] == a[0] && (a + b)[1..] == a[1..] + b;
      LiveSelsAppend(a[1..], b);
    }
  }
}
