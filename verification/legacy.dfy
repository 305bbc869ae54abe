/** The earlier engines, on the stylesheet tree of the `css` parser they
    used: rules with selector lists, `@media` blocks holding rules, and
    every other node. `lib/lib.js` asks each page in turn whether a
    selector matches (a page may also fail), `lib/utility.js` asks a
    single parsed document. Both filter every rule's selectors, then drop
    the rules and `@media` blocks left empty. */
module LegacyEngine {
  import opened Wrappers
  import opened Css
  import Seqs
  import Pseudo
  import SelectorFilter

  /** A node of the parsed stylesheet. */
  datatype LNode =
    | LRule(selectors: seq<string>, declarations: seq<string>)
    | LMedia(media: string, rules: seq<LNode>)
    | LOther(kind: string)

  /** What asking one page about one selector gives. */
  datatype Answer = Match | NoMatch | PageError(message: string)

  /** The page loop for one selector: pages are asked in order, a match
      ends the loop, and an error aborts it. */
  function AskPages(pages: nat, find: (nat, string) -> Answer, sel: string, i: nat): Result<bool, string>
    decreases pages - i
  {
    if i >= pages then Success(false)
    else match find(i, sel)
      case PageError(m) => Failure(m)
      case Match => Success(true)
      case NoMatch => AskPages(pages, find, sel, i + 1)
  }

  /** Every page from `i` up to, not including, `k` answers no. */
  predicate NoneUpTo(find: (nat, string) -> Answer, sel: string, i: nat, k: nat) {
    forall j :: i <= j < k ==> find(j, sel) == NoMatch
  }

  /** Page `k` is the first page from `i` on that does not answer no, and
      its answer is `a`. */
  predicate FirstAnswer(pages: nat, find: (nat, string) -> Answer, sel: string, i: nat, k: nat, a: Answer) {
    i <= k < pages && find(k, sel) == a && NoneUpTo(find, sel, i, k)
  }

  /** The loop's result is decided by the first page that does not answer
      no: a match if it matches, its error if it fails, and no match when
      every page answers no. */
  ghost predicate Decided(pages: nat, find: (nat, string) -> Answer, sel: string, i: nat, r: Result<bool, string>) {
    (r == Success(true) <==> exists k :: FirstAnswer(pages, find, sel, i, k, Match)) &&
    (r == Success(false) <==> NoneUpTo(find, sel, i, pages)) &&
    (forall m :: r == Failure(m) <==> exists k :: FirstAnswer(pages, find, sel, i, k, PageError(m)))
  }

  lemma {:induction false} AskPagesFacts(pages: nat, find: (nat, string) -> Answer, sel: string, i: nat)
    requires i <= pages
    ensures Decided(pages, find, sel, i, AskPages(pages, find, sel, i))
    decreases pages - i
  {
    if i == pages {
      AskPagesEnd(pages, find, sel);
    } else if find(i, sel) == NoMatch {
      AskPagesFacts(pages, find, sel, i + 1);
      AskPagesNext(pages, find, sel, i, AskPages(pages, find, sel, i + 1));
    } else {
      AskPagesHere(pages, find, sel, i);
    }
  }

  lemma AskPagesEnd(pages: nat, find: (nat, string) -> Answer, sel: string)
    ensures Decided(pages, find, sel, pages, AskPages(pages, find, sel, pages))
  {
  }

  /** A page that does not answer no decides the loop. */
  lemma AskPagesHere(pages: nat, find: (nat, string) -> Answer, sel: string, i: nat)
    requires i < pages && find(i, sel) != NoMatch
    ensures Decided(pages, find, sel, i, AskPages(pages, find, sel, i))
  {
    var a := find(i, sel);
    assert FirstAnswer(pages, find, sel, i, i, a);
    forall k: nat, b | FirstAnswer(pages, find, sel, i, k, b)
      ensures k == i && b == a
    {
    }
    assert !NoneUpTo(find, sel, i, pages) by {
      assert find(i, sel) != NoMatch;
    }
  }

  /** A page answering no passes the question to the next page. */
  lemma AskPagesNext(pages: nat, find: (nat, string) -> Answer, sel: string, i: nat, r: Result<bool, string>)
    requires i < pages && find(i, sel) == NoMatch
    requires r == AskPages(pages, find, sel, i + 1) && Decided(pages, find, sel, i + 1, r)
    ensures Decided(pages, find, sel, i, AskPages(pages, find, sel, i))
  {
    assert AskPages(pages, find, sel, i) == r;
    ShiftAnswer(pages, find, sel, i, i + 1, Match);
    forall m
      ensures r == Failure(m) <==> exists k :: FirstAnswer(pages, find, sel, i, k, PageError(m))
    {
      ShiftAnswer(pages, find, sel, i, i + 1, PageError(m));
    }
    assert NoneUpTo(find, sel, i, pages) <==> NoneUpTo(find, sel, i + 1, pages);
  }

  lemma ShiftAnswer(pages: nat, find: (nat, string) -> Answer, sel: string, i: nat, j: nat, a: Answer)
    requires find(i, sel) == NoMatch && a != NoMatch && j == i + 1
    ensures (exists k :: FirstAnswer(pages, find, sel, i, k, a)) <==>
            (exists k :: FirstAnswer(pages, find, sel, j, k, a))
  {
    if exists k :: FirstAnswer(pages, find, sel, i, k, a) {
      var k :| FirstAnswer(pages, find, sel, i, k, a);
      assert FirstAnswer(pages, find, sel, j, k, a);
    }
    if exists k :: FirstAnswer(pages, find, sel, j, k, a) {
      var k :| FirstAnswer(pages, find, sel, j, k, a);
      assert FirstAnswer(pages, find, sel, i, k, a);
    }
  }

  /** The earlier engine's configuration: the number of pages, the page
      oracle, the ignore list and its regular-expression oracle. */
  datatype LEnv = LEnv(pages: nat, find: (nat, string) -> Answer, ignore: seq<IgnoreEntry>, test: (nat, string) -> bool)

  /** Whether one selector survives, decided on its form without the
      sixteen pseudo-classes and pseudo-elements this engine strips. */
  function Decide(env: LEnv, sel: string): Result<bool, string> {
    var s := Pseudo.LegacyStrip(sel);
    if |s| > 0 && s[0] == '@' then Success(true)
    else if SelectorFilter.IgnoreHit(env.ignore, s, env.test) then Success(true)
    else AskPages(env.pages, env.find, s, 0)
  }

  /** `filterUnusedSelectors`: the selectors kept, as written, in order;
      or the first error a page reported. */
  function FilterSelectors(env: LEnv, sels: seq<string>): Result<seq<string>, string> {
    if |sels| == 0 then Success([])
    else
      var keep :- Decide(env, sels[0]);
      var rest :- FilterSelectors(env, sels[1..]);
      Success(if keep then [sels[0]] + rest else rest)
  }

  predicate Kept(env: LEnv, sel: string) {
    Decide(env, sel) == Success(true)
  }

  function KeptFn(env: LEnv): string -> bool {
    s => Kept(env, s)
  }

  /** The filter succeeds exactly when no selector's decision failed, and
      then keeps exactly the selectors decided in, in order. */
  lemma {:induction false} FilterSelectorsFacts(env: LEnv, sels: seq<string>)
    ensures FilterSelectors(env, sels).Success? <==> forall i :: 0 <= i < |sels| ==> Decide(env, sels[i]).Success?
    ensures FilterSelectors(env, sels).Success? ==> FilterSelectors(env, sels).value == Seqs.Filter(sels, KeptFn(env))
  {
    if |sels| > 0 {
      FilterSelectorsFacts(env, sels[1..]);
      assert forall i :: 1 <= i < |sels| ==> sels[i] == sels[1..][i - 1];
    }
  }

  /** A selector kept by the filter is one a page matched, an at-rule
      prelude or an ignored selector, all after stripping. */
  lemma KeptMeans(env: LEnv, sel: string)
    requires Kept(env, sel)
    ensures var s := Pseudo.LegacyStrip(sel);
      (|s| > 0 && s[0] == '@') || SelectorFilter.IgnoreHit(env.ignore, s, env.test) ||
      exists k :: FirstAnswer(env.pages, env.find, s, 0, k, Match)
  {
    AskPagesFacts(env.pages, env.find, Pseudo.LegacyStrip(sel), 0);
  }

  /** The selectors a rule is left with. A failed filter hands the error
      object to the rule as its selector list, and an error has no length,
      so the rule counts as empty and is dropped afterwards: the model
      gives it the empty list. */
  function Selected(env: LEnv, sels: seq<string>): seq<string> {
    match FilterSelectors(env, sels)
    case Success(kept) => kept
    case Failure(_) => []
  }

  /** `filterEmptyRules`: drops rules without selectors and `@media`
      blocks whose rules, filtered the same way, are empty. */
  function FilterEmpty(rules: seq<LNode>): seq<LNode>
    decreases rules
  {
    if |rules| == 0 then []
    else
      var head := FilterEmptyNode(rules[0]);
      (if head.Some? then [head.value] else []) + FilterEmpty(rules[1..])
  }

  function FilterEmptyNode(n: LNode): Option<LNode>
    decreases n
  {
    match n
    case LRule(sels, _) => if |sels| > 0 then Some(n) else None
    case LMedia(m, kids) =>
      var k := FilterEmpty(kids);
      if |k| > 0 then Some(LMedia(m, k)) else None
    case LOther(_) => Some(n)
  }

  /** No rule without selectors and no empty `@media` block, at any depth. */
  predicate Clean(rules: seq<LNode>)
    decreases rules
  {
    forall i :: 0 <= i < |rules| ==> CleanNode(rules[i])
  }

  predicate CleanNode(n: LNode)
    decreases n
  {
    match n
    case LRule(sels, _) => |sels| > 0
    case LMedia(_, kids) => |kids| > 0 && Clean(kids)
    case LOther(_) => true
  }

  lemma CleanCons(n: LNode, rest: seq<LNode>)
    ensures Clean([n] + rest) <==> CleanNode(n) && Clean(rest)
  {
    var l := [n] + rest;
    assert l[0] == n;
    if CleanNode(n) && Clean(rest) {
      forall i | 0 <= i < |l|
        ensures CleanNode(l[i])
      {
        if i > 0 {
          assert l[i] == rest[i - 1];
        }
      }
    }
    if Clean(l) {
      forall i | 0 <= i < |rest|
        ensures CleanNode(rest[i])
      {
        assert rest[i] == l[i + 1];
      }
    }
  }

  lemma FilterEmptyUnfold(rules: seq<LNode>)
    requires |rules| > 0
    ensures FilterEmpty(rules) ==
      (if FilterEmptyNode(rules[0]).Some? then [FilterEmptyNode(rules[0]).value] else []) + FilterEmpty(rules[1..])
  {
  }

  /** What is left is clean. */
  lemma {:induction false} FilterEmptyClean(rules: seq<LNode>)
    ensures Clean(FilterEmpty(rules))
    decreases rules
  {
    if |rules| > 0 {
      FilterEmptyNodeClean(rules[0]);
      FilterEmptyClean(rules[1..]);
      FilterEmptyUnfold(rules);
      var head := FilterEmptyNode(rules[0]);
      if head.Some? {
        CleanCons(head.value, FilterEmpty(rules[1..]));
      }
    }
  }

  lemma {:induction false} FilterEmptyNodeClean(n: LNode)
    ensures FilterEmptyNode(n).Some? ==> CleanNode(FilterEmptyNode(n).value)
    decreases n
  {
    if n.LMedia? {
      FilterEmptyClean(n.rules);
    }
  }

  /** A clean tree is left as it is. */
  lemma {:induction false} FilterEmptyKeepsClean(rules: seq<LNode>)
    requires Clean(rules)
    ensures FilterEmpty(rules) == rules
    decreases rules
  {
    if |rules| > 0 {
      CleanCons(rules[0], rules[1..]);
      assert [rules[0]] + rules[1..] == rules;
      FilterEmptyNodeKeepsClean(rules[0]);
      FilterEmptyKeepsClean(rules[1..]);
      FilterEmptyUnfold(rules);
    }
  }

  lemma {:induction false} FilterEmptyNodeKeepsClean(n: LNode)
    requires CleanNode(n)
    ensures FilterEmptyNode(n) == Some(n)
    decreases n
  {
    if n.LMedia? {
      FilterEmptyKeepsClean(n.rules);
    }
  }

  /** Filtering twice drops nothing more. */
  lemma FilterEmptyIdempotent(rules: seq<LNode>)
    ensures FilterEmpty(FilterEmpty(rules)) == FilterEmpty(rules)
  {
    FilterEmptyClean(rules);
    FilterEmptyKeepsClean(FilterEmpty(rules));
  }

  /** Every selector, in document order. */
  function LSels(rules: seq<LNode>): seq<string>
    decreases rules
  {
    if |rules| == 0 then [] else LNodeSels(rules[0]) + LSels(rules[1..])
  }

  function LNodeSels(n: LNode): seq<string>
    decreases n
  {
    match n
    case LRule(sels, _) => sels
    case LMedia(_, kids) => LSels(kids)
    case LOther(_) => []
  }

  /** Every node that is neither a rule nor a block, in document order. */
  function LOthers(rules: seq<LNode>): seq<string>
    decreases rules
  {
    if |rules| == 0 then [] else LNodeOthers(rules[0]) + LOthers(rules[1..])
  }

  function LNodeOthers(n: LNode): seq<string>
    decreases n
  {
    match n
    case LRule(_, _) => []
    case LMedia(_, kids) => LOthers(kids)
    case LOther(k) => [k]
  }

  /** Dropping empty rules and blocks loses no selector and no other node:
      what is dropped holds neither. */
  lemma {:induction false} FilterEmptyKeepsContent(rules: seq<LNode>)
    ensures LSels(FilterEmpty(rules)) == LSels(rules)
    ensures LOthers(FilterEmpty(rules)) == LOthers(rules)
    decreases rules
  {
    if |rules| > 0 {
      FilterEmptyNodeKeepsContent(rules[0]);
      FilterEmptyKeepsContent(rules[1..]);
      FilterEmptyUnfold(rules);
      var head := FilterEmptyNode(rules[0]);
      var front := if head.Some? then [head.value] else [];
      LSelsAppend(front, FilterEmpty(rules[1..]));
      LOthersAppend(front, FilterEmpty(rules[1..]));
    }
  }

  lemma {:induction false} FilterEmptyNodeKeepsContent(n: LNode)
    ensures FilterEmptyNode(n).Some? ==>
      LNodeSels(FilterEmptyNode(n).value) == LNodeSels(n) && LNodeOthers(FilterEmptyNode(n).value) == LNodeOthers(n)
    ensures FilterEmptyNode(n).None? ==> LNodeSels(n) == [] && LNodeOthers(n) == []
    decreases n
  {
    if n.LMedia? {
      FilterEmptyKeepsContent(n.rules);
    }
  }

  lemma LSelsAppend(front: seq<LNode>, rest: seq<LNode>)
    requires |front| <= 1
    ensures LSels(front + rest) == (if |front| == 1 then LNodeSels(front[0]) else []) + LSels(rest)
    ensures LOthers(front + rest) == (if |front| == 1 then LNodeOthers(front[0]) else []) + LOthers(rest)
  {
    if |front| == 1 {
      assert (front + rest)[1..] == rest;
    } else {
      assert front + rest == rest;
    }
  }

  lemma LOthersAppend(front: seq<LNode>, rest: seq<LNode>)
    requires |front| <= 1
    ensures LOthers(front + rest) == (if |front| == 1 then LNodeOthers(front[0]) else []) + LOthers(rest)
  {
    LSelsAppend(front, rest);
  }

  /** The intended tree filter, for any way `select` of filtering a
      selector list: every rule's selectors are filtered, every `@media`
      block's rules are replaced by the recursive result, and the empty
      ones are dropped. */
  function Intended(select: seq<string> -> seq<string>, rules: seq<LNode>): seq<LNode>
    decreases rules, 1
  {
    FilterEmpty(IntendedNodes(select, rules))
  }

  function IntendedNodes(select: seq<string> -> seq<string>, rules: seq<LNode>): (r: seq<LNode>)
    ensures |r| == |rules|
    decreases rules, 0
  {
    if |rules| == 0 then [] else [IntendedNode(select, rules[0])] + IntendedNodes(select, rules[1..])
  }

  function IntendedNode(select: seq<string> -> seq<string>, n: LNode): LNode
    decreases n
  {
    match n
    case LRule(sels, decls) => LRule(select(sels), decls)
    case LMedia(m, kids) => LMedia(m, Intended(select, kids))
    case LOther(_) => n
  }

  /** What `lib/lib.js` does to a node in place before the final
      `filterEmptyRules`. A rule gets its filtered selectors. An `@media`
      block's recursive result is stored under a misspelt name and so
      discarded, but the recursion still changed the nodes inside: their
      selectors, and the rules of the blocks nested in them, which the
      recursion's own `filterEmptyRules` replaced. */
  function Mutate(select: seq<string> -> seq<string>, rules: seq<LNode>): (r: seq<LNode>)
    ensures |r| == |rules|
    decreases rules
  {
    if |rules| == 0 then [] else [MutateNode(select, rules[0])] + Mutate(select, rules[1..])
  }

  function MutateNode(select: seq<string> -> seq<string>, n: LNode): LNode
    decreases n
  {
    match n
    case LRule(sels, decls) => LRule(select(sels), decls)
    case LMedia(m, kids) => LMedia(m, InPlace(Mutate(select, kids)))
    case LOther(_) => n
  }

  /** The side effect `filterEmptyRules` has on the list it is given: each
      `@media` block in it gets its rules filtered, and nothing is removed
      from the list itself. */
  function InPlace(rules: seq<LNode>): (r: seq<LNode>)
    ensures |r| == |rules|
  {
    if |rules| == 0 then []
    else
      var n := rules[0];
      [if n.LMedia? then LMedia(n.media, FilterEmpty(n.rules)) else n] + InPlace(rules[1..])
  }

  /** `filterUnusedRules` of `lib/lib.js`, as written. */
  function AsWritten(select: seq<string> -> seq<string>, rules: seq<LNode>): seq<LNode> {
    FilterEmpty(Mutate(select, rules))
  }

  function Selection(env: LEnv): seq<string> -> seq<string> {
    sels => Selected(env, sels)
  }

  /** `filterUnusedRules` of `lib/lib.js` on its pages and ignore list. */
  function FilterUnusedRules(env: LEnv, rules: seq<LNode>): seq<LNode> {
    AsWritten(Selection(env), rules)
  }

  lemma InPlaceUnfold(rules: seq<LNode>)
    requires |rules| > 0
    ensures InPlace(rules) == [if rules[0].LMedia? then LMedia(rules[0].media, FilterEmpty(rules[0].rules)) else rules[0]] + InPlace(rules[1..])
  {
  }

  /** Filtering the blocks of a list in place changes nothing the final
      filter keeps. */
  lemma {:induction false} FilterEmptyInPlace(rules: seq<LNode>)
    ensures FilterEmpty(InPlace(rules)) == FilterEmpty(rules)
    decreases rules
  {
    if |rules| > 0 {
      var n := rules[0];
      var n' := if n.LMedia? then LMedia(n.media, FilterEmpty(n.rules)) else n;
      InPlaceUnfold(rules);
      FilterEmptyInPlace(rules[1..]);
      if n.LMedia? {
        FilterEmptyIdempotent(n.rules);
      }
      assert FilterEmptyNode(n') == FilterEmptyNode(n);
      FilterEmptyUnfold(rules);
      FilterEmptyUnfold(InPlace(rules));
      assert InPlace(rules)[0] == n' && InPlace(rules)[1..] == InPlace(rules[1..]);
    }
  }

  lemma MutateUnfold(select: seq<string> -> seq<string>, rules: seq<LNode>)
    requires |rules| > 0
    ensures Mutate(select, rules)[0] == MutateNode(select, rules[0])
    ensures Mutate(select, rules)[1..] == Mutate(select, rules[1..])
    ensures IntendedNodes(select, rules)[0] == IntendedNode(select, rules[0])
    ensures IntendedNodes(select, rules)[1..] == IntendedNodes(select, rules[1..])
  {
  }

  /** The misspelling is harmless: the final `filterEmptyRules` filters
      every block again, at every depth, so the output is the one the
      intended assignment would give. */
  lemma {:induction false} TypoHarmless(select: seq<string> -> seq<string>, rules: seq<LNode>)
    ensures AsWritten(select, rules) == Intended(select, rules)
    decreases rules
  {
    if |rules| > 0 {
      var m := Mutate(select, rules);
      var t := IntendedNodes(select, rules);
      MutateUnfold(select, rules);
      TypoHarmlessNode(select, rules[0]);
      TypoHarmless(select, rules[1..]);
      FilterEmptyUnfold(m);
      FilterEmptyUnfold(t);
    }
  }

  lemma {:induction false} TypoHarmlessNode(select: seq<string> -> seq<string>, n: LNode)
    ensures FilterEmptyNode(MutateNode(select, n)) == FilterEmptyNode(IntendedNode(select, n))
    decreases n
  {
    if n.LMedia? {
      var kids := n.rules;
      TypoHarmless(select, kids);
      FilterEmptyInPlace(Mutate(select, kids));
      FilterEmptyIdempotent(IntendedNodes(select, kids));
      assert FilterEmpty(InPlace(Mutate(select, kids))) == FilterEmpty(Intended(select, kids));
    }
  }

  /** The `lib/lib.js` filter leaves a clean tree that keeps every other
      node, and every rule it keeps has selectors that survived the
      selector filter. */
  lemma FilterUnusedRulesFacts(env: LEnv, rules: seq<LNode>)
    ensures FilterUnusedRules(env, rules) == Intended(Selection(env), rules)
    ensures Clean(FilterUnusedRules(env, rules))
    ensures LOthers(FilterUnusedRules(env, rules)) == LOthers(rules)
  {
    TypoHarmless(Selection(env), rules);
    FilterEmptyClean(Mutate(Selection(env), rules));
    FilterEmptyKeepsContent(IntendedNodes(Selection(env), rules));
    IntendedKeepsOthers(Selection(env), rules);
  }

  lemma {:induction false} IntendedKeepsOthers(select: seq<string> -> seq<string>, rules: seq<LNode>)
    ensures LOthers(IntendedNodes(select, rules)) == LOthers(rules)
    decreases rules
  {
    if |rules| > 0 {
      var n := rules[0];
      MutateUnfold(select, rules);
      IntendedKeepsOthers(select, rules[1..]);
      if n.LMedia? {
        IntendedKeepsOthers(select, n.rules);
        FilterEmptyKeepsContent(IntendedNodes(select, n.rules));
      }
      assert LNodeOthers(IntendedNode(select, n)) == LNodeOthers(n);
      var t := IntendedNodes(select, rules);
      assert t == [t[0]] + t[1..];
      LOthersAppend([t[0]], t[1..]);
      assert rules == [n] + rules[1..];
      LOthersAppend([n], rules[1..]);
    }
  }

  /** `filterUnusedRules` of `lib/utility.js`: a node with selectors keeps
      those the document matches; a node with a (non-empty) `media` text
      gets its rules replaced by the recursive result; then nodes whose
      list became empty are removed. */
  function UtilityFilter(matches: string -> bool, rules: seq<LNode>): seq<LNode>
    decreases rules, 1
  {
    Seqs.Filter(UtilityNodes(matches, rules), NotEmptied)
  }

  function UtilityNodes(matches: string -> bool, rules: seq<LNode>): (r: seq<LNode>)
    ensures |r| == |rules|
    decreases rules, 0
  {
    if |rules| == 0 then [] else [UtilityNode(matches, rules[0])] + UtilityNodes(matches, rules[1..])
  }

  function UtilityNode(matches: string -> bool, n: LNode): LNode
    decreases n
  {
    match n
    case LRule(sels, decls) => LRule(Seqs.Filter(sels, matches), decls)
    case LMedia(m, kids) => if m != "" then LMedia(m, UtilityFilter(matches, kids)) else n
    case LOther(_) => n
  }

  /** The removal test: a node with a selector list that is empty, or with
      a `media` text and no rules. */
  predicate Emptied(n: LNode) {
    (n.LRule? && |n.selectors| == 0) || (n.LMedia? && n.media != "" && |n.rules| == 0)
  }

  const NotEmptied: LNode -> bool := n => !Emptied(n)

  /** Every `@media` block has a non-empty query text, at every depth. */
  predicate MediaNamed(rules: seq<LNode>)
    decreases rules
  {
    forall i :: 0 <= i < |rules| ==> MediaNamedNode(rules[i])
  }

  predicate MediaNamedNode(n: LNode)
    decreases n
  {
    match n
    case LRule(_, _) => true
    case LMedia(m, kids) => m != "" && MediaNamed(kids)
    case LOther(_) => true
  }

  function Matching(matches: string -> bool): seq<string> -> seq<string> {
    sels => Seqs.Filter(sels, matches)
  }

  /** On a tree whose blocks all have query text, the synchronous filter
      is the intended tree filter with "the document matches it" as the
      selector test. */
  lemma {:induction false} UtilityIsIntended(matches: string -> bool, rules: seq<LNode>)
    requires MediaNamed(rules)
    ensures UtilityFilter(matches, rules) == Intended(Matching(matches), rules)
    decreases rules
  {
    if |rules| > 0 {
      var n := rules[0];
      assert MediaNamedNode(n) && MediaNamed(rules[1..]);
      UtilityIsIntended(matches, rules[1..]);
      UtilityNodeIsIntended(matches, n);
      var u := UtilityNodes(matches, rules);
      var t := IntendedNodes(Matching(matches), rules);
      MutateUnfold(Matching(matches), rules);
      assert u[0] == UtilityNode(matches, n) && u[1..] == UtilityNodes(matches, rules[1..]);
      assert u == [u[0]] + u[1..];
      Seqs.FilterAppend([u[0]], u[1..], NotEmptied);
      FilterEmptyUnfold(t);
    }
  }

  lemma {:induction false} UtilityNodeIsIntended(matches: string -> bool, n: LNode)
    requires MediaNamedNode(n)
    ensures Seqs.Filter([UtilityNode(matches, n)], NotEmptied) ==
      (if FilterEmptyNode(IntendedNode(Matching(matches), n)).Some? then [FilterEmptyNode(IntendedNode(Matching(matches), n)).value] else [])
    decreases n
  {
    if n.LMedia? {
      UtilityIsIntended(matches, n.rules);
      FilterEmptyIdempotent(IntendedNodes(Matching(matches), n.rules));
    }
    assert [UtilityNode(matches, n)][1..] == [];
  }

  /** So the synchronous filter also leaves a clean tree, keeps every
      other node, and leaves each rule only selectors the document
      matches. */
  lemma UtilityFilterFacts(matches: string -> bool, rules: seq<LNode>)
    requires MediaNamed(rules)
    ensures Clean(UtilityFilter(matches, rules))
    ensures LOthers(UtilityFilter(matches, rules)) == LOthers(rules)
    ensures forall s :: s in LSels(UtilityFilter(matches, rules)) ==> matches(s)
  {
    UtilityIsIntended(matches, rules);
    FilterEmptyClean(IntendedNodes(Matching(matches), rules));
    FilterEmptyKeepsContent(IntendedNodes(Matching(matches), rules));
    IntendedKeepsOthers(Matching(matches), rules);
    IntendedSelsMatch(matches, rules);
  }

  lemma {:induction false} IntendedSelsMatch(matches: string -> bool, rules: seq<LNode>)
    ensures forall s :: s in LSels(IntendedNodes(Matching(matches), rules)) ==> matches(s)
    decreases rules
  {
    if |rules| > 0 {
      var n := rules[0];
      var t := IntendedNodes(Matching(matches), rules);
      MutateUnfold(Matching(matches), rules);
      IntendedSelsMatch(matches, rules[1..]);
      if n.LMedia? {
        IntendedSelsMatch(matches, n.rules);
        FilterEmptyKeepsContent(IntendedNodes(Matching(matches), n.rules));
      }
      assert forall s :: s in LNodeSels(t[0]) ==> matches(s);
      assert t == [t[0]] + t[1..];
      LSelsAppend([t[0]], t[1..]);
    }
  }
}
