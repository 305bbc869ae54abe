/** The report the current engine assembles once every page has been
    searched: the selectors some page used, how often, which selectors of
    the filtered stylesheet no page used, and the usage map ordered by
    count. */
module Report {
  import opened Css
  import opened SelectorFilter
  import opened Pruning
  import opened Wrappers
  import Seqs

  /** One key of a selector map and its count. */
  datatype Usage = Usage(selector: string, count: nat)

  /** The keys of a map, in insertion order. */
  function Keys(m: seq<Usage>): (r: seq<string>)
    ensures |r| == |m|
    ensures forall i :: 0 <= i < |m| ==> r[i] == m[i].selector
  {
    if |m| == 0 then [] else [m[0].selector] + Keys(m[1..])
  }

  /** The position of key `s`, if it is one. */
  function Find(m: seq<Usage>, s: string): (r: Option<nat>)
    ensures r.Some? ==> r.value < |m| && m[r.value].selector == s
    ensures r.None? <==> s !in Keys(m)
  {
    if |m| == 0 then None
    else if m[0].selector == s then Some(0)
    else
      var rest := Find(m[1..], s);
      assert Keys(m) == [m[0].selector] + Keys(m[1..]);
      if rest.Some? then Some(rest.value + 1) else None
  }

  /** `map[s] = (map[s] || 0) + 1`: one more occurrence of `s`. */
  function Tally(m: seq<Usage>, s: string): seq<Usage> {
    match Find(m, s)
    case Some(k) => m[k := Usage(s, m[k].count + 1)]
    case None => m + [Usage(s, 1)]
  }

  /** The `forEach` over the flattened per-page lists, from map `m`. */
  function TallyAll(m: seq<Usage>, xs: seq<string>): seq<Usage>
    decreases |xs|
  {
    if |xs| == 0 then m else TallyAll(Tally(m, xs[0]), xs[1..])
  }

  /** `usedSelectorMap`. */
  function CountUsage(xs: seq<string>): seq<Usage> {
    TallyAll([], xs)
  }

  /** A map that counts the occurrences in `xs`: its keys are the distinct
      elements of `xs` in the order they first occur, each with its number
      of occurrences. */
  predicate Counts(m: seq<Usage>, xs: seq<string>) {
    Keys(m) == Seqs.Dedupe(xs)
    && forall i :: 0 <= i < |m| ==> m[i].count == multiset(xs)[m[i].selector]
  }

  lemma TallyKeys(m: seq<Usage>, s: string)
    ensures Keys(Tally(m, s)) == Keys(m) + (if s in Keys(m) then [] else [s])
  {
    var r := Tally(m, s);
    match Find(m, s)
    case Some(k) =>
      assert Keys(r) == Keys(m);
      assert Keys(m) + [] == Keys(m);
    case None =>
      assert Keys(r) == Keys(m) + [s];
  }

  /** One step of the `forEach` keeps the map counting what it has seen. */
  lemma TallyCounts(m: seq<Usage>, xs: seq<string>, s: string)
    requires Counts(m, xs)
    ensures Counts(Tally(m, s), xs + [s])
  {
    var r := Tally(m, s);
    TallyKeys(m, s);
    Seqs.DedupeSnoc(xs, s);
    assert s in Keys(m) <==> s in xs;
    assert Keys(r) == Seqs.Dedupe(xs + [s]);
    assert multiset(xs + [s]) == multiset(xs) + multiset{s};
    forall i | 0 <= i < |r|
      ensures r[i].count == multiset(xs + [s])[r[i].selector]
    {
      if i < |m| && r[i].selector != s {
        assert r[i] == m[i];
      } else if i == |m| {
        assert s !in xs;
      }
    }
  }

  lemma TallyAllUnfold(m: seq<Usage>, xs: seq<string>)
    requires |xs| > 0
    ensures TallyAll(m, xs) == TallyAll(Tally(m, xs[0]), xs[1..])
  {
  }

  lemma SnocAppend(seen: seq<string>, xs: seq<string>)
    requires |xs| > 0
    ensures (seen + [xs[0]]) + xs[1..] == seen + xs
  {
  }

  lemma CountsSame(m: seq<Usage>, xs: seq<string>, m': seq<Usage>, xs': seq<string>)
    requires Counts(m, xs) && m == m' && xs == xs'
    ensures Counts(m', xs')
  {
  }

  lemma TallyAllStep(m: seq<Usage>, seen: seq<string>, xs: seq<string>)
    requires |xs| > 0
    requires Counts(TallyAll(Tally(m, xs[0]), xs[1..]), (seen + [xs[0]]) + xs[1..])
    ensures Counts(TallyAll(m, xs), seen + xs)
  {
    TallyAllUnfold(m, xs);
    SnocAppend(seen, xs);
    CountsSame(TallyAll(Tally(m, xs[0]), xs[1..]), (seen + [xs[0]]) + xs[1..], TallyAll(m, xs), seen + xs);
  }

  lemma {:induction false} TallyAllCounts(m: seq<Usage>, seen: seq<string>, xs: seq<string>)
    requires Counts(m, seen)
    ensures Counts(TallyAll(m, xs), seen + xs)
    decreases |xs|
  {
    if |xs| == 0 {
      assert seen + xs == seen;
    } else {
      TallyCounts(m, seen, xs[0]);
      TallyAllCounts(Tally(m, xs[0]), seen + [xs[0]], xs[1..]);
      TallyAllStep(m, seen, xs);
    }
  }

  /** The map the `forEach` builds counts the flattened lists. */
  lemma CountUsageCounts(xs: seq<string>)
    ensures Counts(CountUsage(xs), xs)
  {
    assert Counts([], []);
    TallyAllCounts([], [], xs);
    assert [] + xs == xs;
  }

  /** `selectorMap[s] = selectorMap[s] || 0`: a selector no page used
      joins the map with count 0. */
  function AddZero(m: seq<Usage>, s: string): seq<Usage> {
    if s in Keys(m) then m else m + [Usage(s, 0)]
  }

  /** The same for every `s` of `all`, left to right. */
  function AddZeros(m: seq<Usage>, all: seq<string>): seq<Usage>
    decreases |all|
  {
    if |all| == 0 then m else AddZeros(AddZero(m, all[0]), all[1..])
  }

  /** A map whose keys are the distinct elements of `keys` in first-occurrence
      order, and whose counts are the occurrences in `xs`. */
  predicate CountsOver(m: seq<Usage>, keys: seq<string>, xs: seq<string>) {
    Keys(m) == Seqs.Dedupe(keys)
    && forall i :: 0 <= i < |m| ==> m[i].count == multiset(xs)[m[i].selector]
  }

  lemma KeysSnoc(m: seq<Usage>, u: Usage)
    ensures Keys(m + [u]) == Keys(m) + [u.selector]
  {
  }

  lemma AddZeroOld(m: seq<Usage>, keys: seq<string>, xs: seq<string>, s: string)
    requires CountsOver(m, keys, xs) && s in keys
    ensures CountsOver(m, keys + [s], xs)
  {
    Seqs.DedupeSnoc(keys, s);
    assert Seqs.Dedupe(keys) + [] == Seqs.Dedupe(keys);
  }

  lemma AddZeroNew(m: seq<Usage>, keys: seq<string>, xs: seq<string>, s: string)
    requires CountsOver(m, keys, xs) && s !in keys && s !in xs
    ensures CountsOver(m + [Usage(s, 0)], keys + [s], xs)
  {
    var r := m + [Usage(s, 0)];
    Seqs.DedupeSnoc(keys, s);
    KeysSnoc(m, Usage(s, 0));
    forall i | 0 <= i < |r|
      ensures r[i].count == multiset(xs)[r[i].selector]
    {
      if i < |m| {
        assert r[i] == m[i];
      }
    }
  }

  lemma AddZeroStep(m: seq<Usage>, keys: seq<string>, xs: seq<string>, s: string)
    requires CountsOver(m, keys, xs)
    requires s !in xs || s in keys
    ensures CountsOver(AddZero(m, s), keys + [s], xs)
  {
    assert s in Keys(m) <==> s in keys;
    if s in keys {
      AddZeroOld(m, keys, xs, s);
    } else {
      AddZeroNew(m, keys, xs, s);
    }
  }

  lemma AddZerosUnfold(m: seq<Usage>, all: seq<string>)
    requires |all| > 0
    ensures AddZeros(m, all) == AddZeros(AddZero(m, all[0]), all[1..])
  {
  }

  lemma CountsOverSame(m: seq<Usage>, keys: seq<string>, xs: seq<string>, m': seq<Usage>, keys': seq<string>)
    requires CountsOver(m, keys, xs) && m == m' && keys == keys'
    ensures CountsOver(m', keys', xs)
  {
  }

  lemma AddZerosStep(m: seq<Usage>, keys: seq<string>, xs: seq<string>, all: seq<string>)
    requires |all| > 0
    requires CountsOver(AddZeros(AddZero(m, all[0]), all[1..]), (keys + [all[0]]) + all[1..], xs)
    ensures CountsOver(AddZeros(m, all), keys + all, xs)
  {
    AddZerosUnfold(m, all);
    SnocAppend(keys, all);
    CountsOverSame(AddZeros(AddZero(m, all[0]), all[1..]), (keys + [all[0]]) + all[1..], xs,
                   AddZeros(m, all), keys + all);
  }

  lemma {:induction false} AddZerosCounts(m: seq<Usage>, keys: seq<string>, xs: seq<string>, all: seq<string>)
    requires CountsOver(m, keys, xs)
    requires forall s :: s in xs ==> s in keys
    ensures CountsOver(AddZeros(m, all), keys + all, xs)
    decreases |all|
  {
    if |all| == 0 {
      assert keys + all == keys;
    } else {
      AddZeroStep(m, keys, xs, all[0]);
      AddZerosCounts(AddZero(m, all[0]), keys + [all[0]], xs, all[1..]);
      AddZerosStep(m, keys, xs, all);
    }
  }

  /** The selector map: every selector that some page used or the filtered
      stylesheet holds, each once, used ones first, each with the number of
      times pages used it (0 for the rest). */
  lemma SelectorMapCounts(xs: seq<string>, all: seq<string>)
    ensures CountsOver(AddZeros(CountUsage(xs), all), xs + all, xs)
  {
    CountUsageCounts(xs);
    AddZerosCounts(CountUsage(xs), xs, xs, all);
  }

  // ---------------------------------------------------------------------
  // The map by usage

  /** Places `e` before the first entry whose count is not greater. */
  function Insert(e: Usage, sorted: seq<Usage>): seq<Usage> {
    if |sorted| == 0 then [e]
    else if e.count >= sorted[0].count then [e] + sorted
    else [sorted[0]] + Insert(e, sorted[1..])
  }

  /** The `sort` by decreasing count. */
  function ByUsage(m: seq<Usage>): seq<Usage> {
    if |m| == 0 then [] else Insert(m[0], ByUsage(m[1..]))
  }

  predicate NonIncreasing(m: seq<Usage>) {
    forall i, j :: 0 <= i < j < |m| ==> m[i].count >= m[j].count
  }

  /** An entry no smaller than every entry of a sorted list can go first. */
  lemma ConsSorted(x: Usage, rest: seq<Usage>)
    requires NonIncreasing(rest)
    requires forall k :: 0 <= k < |rest| ==> x.count >= rest[k].count
    ensures NonIncreasing([x] + rest)
  {
    var r := [x] + rest;
    forall i, j | 0 <= i < j < |r|
      ensures r[i].count >= r[j].count
    {
      assert r[j] == rest[j - 1];
      if i > 0 {
        assert r[i] == rest[i - 1];
      }
    }
  }

  /** A bound on every count survives an insertion within it. */
  lemma {:induction false} InsertBound(e: Usage, sorted: seq<Usage>, b: nat)
    requires e.count <= b
    requires forall k :: 0 <= k < |sorted| ==> sorted[k].count <= b
    ensures forall k :: 0 <= k < |Insert(e, sorted)| ==> Insert(e, sorted)[k].count <= b
  {
    if |sorted| > 0 && e.count < sorted[0].count {
      var rest := Insert(e, sorted[1..]);
      InsertBound(e, sorted[1..], b);
      assert Insert(e, sorted) == [sorted[0]] + rest;
    }
  }

  lemma {:induction false} InsertSorted(e: Usage, sorted: seq<Usage>)
    requires NonIncreasing(sorted)
    ensures NonIncreasing(Insert(e, sorted))
  {
    if |sorted| == 0 {
    } else if e.count >= sorted[0].count {
      ConsSorted(e, sorted);
    } else {
      var rest := Insert(e, sorted[1..]);
      InsertSorted(e, sorted[1..]);
      InsertBound(e, sorted[1..], sorted[0].count);
      ConsSorted(sorted[0], rest);
    }
  }

  lemma {:induction false} InsertCount(e: Usage, sorted: seq<Usage>)
    ensures multiset(Insert(e, sorted)) == multiset(sorted) + multiset{e}
  {
    if |sorted| > 0 && e.count < sorted[0].count {
      InsertCount(e, sorted[1..]);
      assert sorted == [sorted[0]] + sorted[1..];
    }
  }

  /** The by-usage map holds the same entries, each as often, ordered by
      count from most to least used. */
  lemma {:induction false} ByUsageSorted(m: seq<Usage>)
    ensures NonIncreasing(ByUsage(m))
    ensures multiset(ByUsage(m)) == multiset(m)
  {
    if |m| > 0 {
      ByUsageSorted(m[1..]);
      InsertSorted(m[0], ByUsage(m[1..]));
      InsertCount(m[0], ByUsage(m[1..]));
      assert m == [m[0]] + m[1..];
    }
  }

  // ---------------------------------------------------------------------
  // The whole report

  /** What a page search yields: the list in the cache when there is one,
      otherwise the list the search computes. Any list read back from the
      cache, even an empty one, is taken as it is. */
  function PageSelectors(cached: Option<seq<string>>, searched: seq<string>): (r: seq<string>)
    ensures cached.Some? ==> r == cached.value
    ensures cached.None? ==> r == searched
  {
    match cached
    case Some(list) => list
    case None => searched
  }

  /** The result of the block after the page searches. `records` are the
      filter's internal list of removed things, which the program never
      returns or reports; the other fields are what it hands back. */
  datatype Outcome = Outcome(
    css: seq<Node>,
    records: seq<Record>,
    all: seq<string>,
    unused: seq<string>,
    used: seq<string>,
    selectorMap: seq<Usage>,
    byUsage: seq<Usage>)

  /** The block after every page has been searched, on the per-page lists. */
  function Summarize(perPage: seq<seq<string>>, css: seq<Node>, ignore: seq<IgnoreEntry>,
                    test: (nat, string) -> bool, rejoin: (string, seq<string>) -> string): Outcome
  {
    var flat := Seqs.Flatten(perPage);
    var counts := CountUsage(flat);
    var used := Keys(counts);
    var (out, recs) := FilterUnusedRules(Env(used, test, rejoin), ignore, css);
    var all := RuleTexts(out);
    var selectorMap := AddZeros(counts, all);
    Outcome(out, recs, all, Seqs.Filter(all, NotIn(used)), used, selectorMap, ByUsage(selectorMap))
  }

  /** `_.difference(all, used)`: every selector text no page used stays,
      as often as it occurs. */
  lemma UnusedCounts(all: seq<string>, used: seq<string>, flat: seq<string>)
    requires forall s :: s in used <==> s in flat
    ensures forall s :: multiset(Seqs.Filter(all, NotIn(used)))[s] == if s in flat then 0 else multiset(all)[s]
  {
    Seqs.FilterCount(all, NotIn(used));
  }

  /** What the report promises: `used` is every selector some page used,
      once each, in first-use order; `unused` is every selector text of the
      filtered stylesheet no page used, in order and with repeats; the
      selector map counts every use and gives the others 0; and the map by
      usage is the same entries from most to least used. */
  lemma SummarizeFacts(perPage: seq<seq<string>>, css: seq<Node>, ignore: seq<IgnoreEntry>,
                      test: (nat, string) -> bool, rejoin: (string, seq<string>) -> string)
    ensures var o := Summarize(perPage, css, ignore, test, rejoin);
      var flat := Seqs.Flatten(perPage);
      o.used == Seqs.Dedupe(flat)
      && o.all == RuleTexts(o.css)
      && (forall s :: s in o.unused <==> s in o.all && s !in flat)
      && Seqs.IsSubseq(o.unused, o.all)
      && (forall s :: multiset(o.unused)[s] == if s in flat then 0 else multiset(o.all)[s])
      && Keys(o.selectorMap) == Seqs.Dedupe(flat + o.all)
      && (forall i :: 0 <= i < |o.selectorMap| ==>
            o.selectorMap[i].count == multiset(flat)[o.selectorMap[i].selector])
      && NonIncreasing(o.byUsage)
      && multiset(o.byUsage) == multiset(o.selectorMap)
  {
    var o := Summarize(perPage, css, ignore, test, rejoin);
    var flat := Seqs.Flatten(perPage);
    CountUsageCounts(flat);
    SelectorMapCounts(flat, o.all);
    Seqs.FilterMembers(o.all, NotIn(o.used));
    Seqs.FilterIsSubseq(o.all, NotIn(o.used));
    UnusedCounts(o.all, o.used, flat);
    ByUsageSorted(o.selectorMap);
  }
}
