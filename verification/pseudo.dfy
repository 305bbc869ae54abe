/** The selector normaliser: a global regular-expression replace that deletes
    every occurrence of a fixed set of pseudo-classes and pseudo-elements
    (the dynamic and UI-state pseudo-classes of section 6.6 and the
    pseudo-elements of section 7 of W3C Selectors Level 3, plus vendor
    prefixed pseudo-elements), scanning left to right.

    A JavaScript alternation tries its alternatives in the order written and
    takes the first that matches, and the pattern has no look-behind, so
    whether a token is deleted at position `p` depends only on `s[p..]`. The
    replace is therefore a recursion on suffixes. */
module Pseudo {
  import opened Text
  import Seqs

  /** The deletable tokens, in pattern order, and whether the vendor
      alternative `::?-(?:moz|ms|webkit|o)-[a-z0-9-]+` closes the pattern.
      Every alternative of both patterns begins with a colon. */
  datatype PseudoTable = PseudoTable(literals: seq<string>, vendor: bool)

  /** The pattern of the current engine. */
  const Current := PseudoTable(
    [ ":link", ":visited",
      ":hover", ":active", ":focus",
      ":enabled", ":disabled", ":checked", ":indeterminate",
      ":required", ":invalid", ":valid",
      "::first-line", "::first-letter", "::selection", "::before", "::after",
      ":target",
      ":before", ":after" ],
    true)

  /** The shorter pattern of the earlier engine: no form validation, no
      `:target`, no vendor alternative. */
  const Legacy := PseudoTable(
    [ ":link", ":visited",
      ":hover", ":active", ":focus",
      ":enabled", ":disabled", ":checked", ":indeterminate",
      "::first-line", "::first-letter", "::selection", "::before", "::after",
      ":before", ":after" ],
    false)

  /** Length of the first listed literal that `s` starts with, 0 if none. */
  function LiteralMatch(lits: seq<string>, s: string): (k: nat)
    ensures k <= |s|
  {
    if |lits| == 0 then 0
    else if StartsWith(s, lits[0]) then |lits[0]|
    else LiteralMatch(lits[1..], s)
  }

  predicate IsVendorChar(c: char) {
    ('a' <= c <= 'z') || ('0' <= c <= '9') || c == '-'
  }

  /** Length of the longest run of `[a-z0-9-]` at the start of `s` (the
      greedy `+`). */
  function VendorRun(s: string): (k: nat)
    ensures k <= |s|
    ensures forall i :: 0 <= i < k ==> IsVendorChar(s[i])
    ensures k < |s| ==> !IsVendorChar(s[k])
  {
    if |s| > 0 && IsVendorChar(s[0]) then 1 + VendorRun(s[1..]) else 0
  }

  /** Length of `moz-`, `ms-`, `webkit-` or `o-` at the start of `s`, 0 if none. */
  function VendorName(s: string): (k: nat)
    ensures k <= |s|
  {
    if StartsWith(s, "moz-") then 4
    else if StartsWith(s, "ms-") then 3
    else if StartsWith(s, "webkit-") then 7
    else if StartsWith(s, "o-") then 2
    else 0
  }

  /** Length of a vendor pseudo-element at the start of `s`, 0 if none. The
      optional second colon is tried first; when it is present the
      alternative without it would need `-` where `:` stands, so the greedy
      choice is the only one. */
  function VendorMatch(s: string): (k: nat)
    ensures k > 0 ==> k <= |s| && s[0] == ':'
  {
    if |s| == 0 || s[0] != ':' then 0
    else
      var colons := if |s| >= 2 && s[1] == ':' then 2 else 1;
      if colons < |s| && s[colons] == '-' then
        var name := VendorName(s[colons + 1..]);
        var start := colons + 1 + name;
        if name > 0 && VendorRun(s[start..]) > 0 then start + VendorRun(s[start..]) else 0
      else 0
  }

  /** Length of the token the pattern deletes at the start of `s`, 0 if none.
      Since every alternative begins with a colon, nothing starts elsewhere. */
  function TokenAt(t: PseudoTable, s: string): (k: nat)
    ensures k > 0 ==> k <= |s| && s[0] == ':'
  {
    if |s| == 0 || s[0] != ':' then 0
    else
      var lit := LiteralMatch(t.literals, s);
      if lit > 0 then lit else if t.vendor then VendorMatch(s) else 0
  }

  /** `selector.replace(pattern, '')` with the global flag. */
  function Strip(t: PseudoTable, s: string): (r: string)
    ensures |r| <= |s|
    decreases |s|
  {
    if |s| == 0 then ""
    else
      var k := TokenAt(t, s);
      if k > 0 then Strip(t, s[k..]) else [s[0]] + Strip(t, s[1..])
  }

  /** `dePseudify` of the current engine. */
  function DePseudify(s: string): string {
    Strip(Current, s)
  }

  /** The pseudo-stripping step of the earlier engine's selector filter. */
  function LegacyStrip(s: string): string {
    Strip(Legacy, s)
  }

  /** Stripping only deletes characters: what is left is the input with some
      stretches removed, every other character kept in order. */
  lemma {:induction false} StripIsSubseq(t: PseudoTable, s: string)
    ensures Seqs.IsSubseq(Strip(t, s), s)
    decreases |s|
  {
    if |s| > 0 {
      var k := TokenAt(t, s);
      if k > 0 {
        StripIsSubseq(t, s[k..]);
        SuffixSubseq(s, k);
        Seqs.SubseqTrans(Strip(t, s[k..]), s[k..], s);
      } else {
        StripIsSubseq(t, s[1..]);
        assert ([s[0]] + Strip(t, s[1..]))[1..] == Strip(t, s[1..]);
      }
    }
  }

  lemma {:induction false} SuffixSubseq(s: string, k: nat)
    requires k <= |s|
    ensures Seqs.IsSubseq(s[k..], s)
    decreases k
  {
    if k == 0 {
      Seqs.SubseqRefl(s);
    } else {
      assert s[1..][k - 1..] == s[k..];
      SuffixSubseq(s[1..], k - 1);
    }
  }

  /** Text before the first colon passes through untouched. */
  lemma {:induction false} StripColonFreePrefix(t: PseudoTable, p: string, s: string)
    requires ':' !in p
    ensures Strip(t, p + s) == p + Strip(t, s)
    decreases |p|
  {
    if |p| == 0 {
      assert p + s == s;
    } else {
      var ps := p + s;
      assert ps[0] == p[0] && p[0] != ':';
      StripStep(t, ps);
      assert ps[1..] == p[1..] + s;
      assert ':' !in p[1..] by {
        assert forall i :: 0 <= i < |p[1..]| ==> p[1..][i] == p[i + 1];
      }
      StripColonFreePrefix(t, p[1..], s);
      var x := Strip(t, s);
      assert Strip(t, ps) == [p[0]] + (p[1..] + x);
      assert [p[0]] + (p[1..] + x) == ([p[0]] + p[1..]) + x;
      assert [p[0]] + p[1..] == p;
    }
  }

  /** A selector without a colon is left unchanged. */
  lemma StripNoColon(t: PseudoTable, s: string)
    requires ':' !in s
    ensures Strip(t, s) == s
  {
    StripColonFreePrefix(t, s, "");
    assert s + "" == s;
  }

  /** A selector without a colon is its own de-pseudified form. */
  lemma DePseudifyNoColon(s: string)
    requires ':' !in s
    ensures DePseudify(s) == s && LegacyStrip(s) == s
  {
    StripNoColon(Current, s);
    StripNoColon(Legacy, s);
  }

  /** A string not starting with a colon loses no character at its start. */
  lemma StripStep(t: PseudoTable, s: string)
    requires |s| > 0 && s[0] != ':'
    ensures Strip(t, s) == [s[0]] + Strip(t, s[1..])
  {
    StripKeep(t, s);
  }

  /** Where no token starts, the first character is kept. */
  lemma StripKeep(t: PseudoTable, s: string)
    requires |s| > 0 && TokenAt(t, s) == 0
    ensures Strip(t, s) == [s[0]] + Strip(t, s[1..])
  {
  }

  /** Where a token starts, it is deleted and the scan resumes after it. */
  lemma StripDrop(t: PseudoTable, s: string, k: nat)
    requires k > 0 && TokenAt(t, s) == k
    ensures Strip(t, s) == Strip(t, s[k..])
  {
  }

  /** Each of the first `j` literals differs from `c` at position `d`. */
  predicate DiffersAt(lits: seq<string>, j: nat, d: nat, c: char) {
    j <= |lits| && forall i :: 0 <= i < j ==> d < |lits[i]| && lits[i][d] != c
  }

  /** The `j`-th literal is the one that matches when every earlier literal
      already differs from `s` at position `d`. */
  lemma {:induction false} LiteralMatchAt(lits: seq<string>, s: string, j: nat, d: nat)
    requires j < |lits| && StartsWith(s, lits[j])
    requires d < |s| && DiffersAt(lits, j, d, s[d])
    ensures LiteralMatch(lits, s) == |lits[j]|
  {
    if j > 0 {
      if |lits[0]| <= |s| {
        assert s[..|lits[0]|][d] == s[d];
      }
      assert DiffersAt(lits[1..], j - 1, d, s[d]) by {
        forall i | 0 <= i < j - 1
          ensures d < |lits[1..][i]| && lits[1..][i][d] != s[d]
        {
          assert lits[1..][i] == lits[i + 1];
        }
      }
      LiteralMatchAt(lits[1..], s, j - 1, d);
    }
  }

  /** The `j`-th literal is the one that matches when no earlier literal is
      a prefix of `s`: the alternation takes the first alternative that fits. */
  lemma {:induction false} LiteralMatchFirst(lits: seq<string>, s: string, j: nat)
    requires j < |lits| && StartsWith(s, lits[j])
    requires forall i :: 0 <= i < j ==> !StartsWith(s, lits[i])
    ensures LiteralMatch(lits, s) == |lits[j]|
    decreases j
  {
    if j > 0 {
      assert !StartsWith(s, lits[0]);
      forall i | 0 <= i < j - 1
        ensures !StartsWith(s, lits[1..][i])
      {
        assert lits[1..][i] == lits[i + 1];
      }
      LiteralMatchFirst(lits[1..], s, j - 1);
    }
  }

  /** Where the `j`-th literal is the first to match, it is deleted and the
      scan resumes after it. */
  lemma StripLiteral(t: PseudoTable, s: string, j: nat)
    requires |s| > 0 && s[0] == ':'
    requires j < |t.literals| && StartsWith(s, t.literals[j])
    requires forall i :: 0 <= i < j ==> !StartsWith(s, t.literals[i])
    ensures Strip(t, s) == Strip(t, s[|t.literals[j]|..])
  {
    LiteralMatchFirst(t.literals, s, j);
    if |t.literals[j]| > 0 {
      StripDrop(t, s, |t.literals[j]|);
    } else {
      assert s[0..] == s;
    }
  }

  /** No literal matches when none is a prefix of `s`. */
  lemma {:induction false} LiteralMatchNone(lits: seq<string>, s: string)
    requires forall i :: 0 <= i < |lits| ==> !StartsWith(s, lits[i])
    ensures LiteralMatch(lits, s) == 0
  {
    if |lits| > 0 {
      LiteralMatchNone(lits[1..], s);
    }
  }

  /** The characters that stand second in some listed token. */
  predicate SecondOfToken(c: char) {
    c == ':' || c == '-' || c == 'l' || c == 'v' || c == 'h' || c == 'a' || c == 'f'
    || c == 'e' || c == 'd' || c == 'c' || c == 'i' || c == 'r' || c == 't' || c == 'b'
  }

  /** No literal matches when each differs from `s` in second place. */
  lemma SecondMismatch(lits: seq<string>, s: string)
    requires |s| >= 2
    requires forall i :: 0 <= i < |lits| ==>
      |lits[i]| > 1 && lits[i][0] == ':' && lits[i][1] != s[1]
    ensures LiteralMatch(lits, s) == 0
  {
    forall i | 0 <= i < |lits|
      ensures !StartsWith(s, lits[i])
    {
      if |lits[i]| <= |s| {
        assert s[..|lits[i]|][1] == s[1];
      }
    }
    LiteralMatchNone(lits, s);
  }

  lemma CurrentSeconds()
    ensures forall i :: 0 <= i < |Current.literals| ==>
      |Current.literals[i]| > 1 && Current.literals[i][0] == ':' && SecondOfToken(Current.literals[i][1])
  {
  }

  lemma LegacySeconds()
    ensures forall i :: 0 <= i < |Legacy.literals| ==>
      |Legacy.literals[i]| > 1 && Legacy.literals[i][0] == ':' && SecondOfToken(Legacy.literals[i][1])
  {
  }

  /** A colon followed by a character no listed token has in second place
      starts no token of the current pattern. */
  lemma NoTokenAfterColon(s: string)
    requires |s| >= 2 && s[0] == ':' && !SecondOfToken(s[1])
    ensures TokenAt(Current, s) == 0
  {
    CurrentSeconds();
    SecondMismatch(Current.literals, s);
  }

  /** The same for the earlier pattern. */
  lemma LegacyNoTokenAfterColon(s: string)
    requires |s| >= 2 && s[0] == ':' && !SecondOfToken(s[1])
    ensures TokenAt(Legacy, s) == 0
  {
    LegacySeconds();
    SecondMismatch(Legacy.literals, s);
  }

  /** What the scan below keeps: the output so far followed by the
      stripped rest of the input is the whole answer. */
  predicate Scanned(t: PseudoTable, s: string, i: nat, out: string) {
    i <= |s| && out + Strip(t, s[i..]) == Strip(t, s)
  }

  /** A step of the scan below that deletes the token at `i`. */
  lemma ScanDrop(t: PseudoTable, s: string, i: nat, out: string, k: nat)
    requires i < |s| && k > 0 && TokenAt(t, s[i..]) == k
    requires Scanned(t, s, i, out)
    ensures Scanned(t, s, i + k, out)
  {
    StripDrop(t, s[i..], k);
    assert s[i..][k..] == s[i + k..];
  }

  /** A step of the scan below that moves `s[i]` to the output. */
  lemma ScanKeep(t: PseudoTable, s: string, i: nat, out: string)
    requires i < |s| && TokenAt(t, s[i..]) == 0
    requires Scanned(t, s, i, out)
    ensures Scanned(t, s, i + 1, out + [s[i]])
  {
    var rest := Strip(t, s[i + 1..]);
    StripKeep(t, s[i..]);
    assert s[i..][1..] == s[i + 1..];
    assert out + ([s[i]] + rest) == (out + [s[i]]) + rest;
  }

  lemma ScanStart(t: PseudoTable, s: string)
    ensures Scanned(t, s, 0, "")
  {
    assert s[0..] == s;
  }

  /** The scan ends with nothing left to strip. */
  lemma ScanDone(t: PseudoTable, s: string, out: string)
    requires Scanned(t, s, |s|, out)
    ensures out == Strip(t, s)
  {
    assert s[|s|..] == "";
    assert out + "" == out;
  }

  /** Characters before which no token starts are copied as they are. */
  lemma {:induction false} GapKept(t: PseudoTable, s: string, last: nat, p: nat, out: string)
    requires last <= p <= |s|
    requires forall q :: last <= q < p ==> TokenAt(t, s[q..]) == 0
    requires Scanned(t, s, last, out)
    ensures Scanned(t, s, p, out + s[last..p])
    decreases p - last
  {
    if last == p {
      assert out + s[last..p] == out;
    } else {
      ScanKeep(t, s, last, out);
      GapKept(t, s, last + 1, p, out + [s[last]]);
      assert (out + [s[last]]) + s[last + 1..p] == out + s[last..p];
    }
  }

  /** The global replace in terms of its leftmost match: everything before
      the first token is kept, the token is deleted, and the replace goes on
      after it. */
  lemma StripLeftmost(t: PseudoTable, s: string, p: nat, k: nat)
    requires p < |s| && k > 0 && TokenAt(t, s[p..]) == k
    requires forall q :: 0 <= q < p ==> TokenAt(t, s[q..]) == 0
    ensures Strip(t, s) == s[..p] + Strip(t, s[p + k..])
  {
    ScanStart(t, s);
    GapKept(t, s, 0, p, "");
    ScanDrop(t, s, p, s[0..p], k);
    assert s[0..p] == s[..p];
  }

  /** Where no token starts anywhere, the replace changes nothing. */
  lemma StripNoMatch(t: PseudoTable, s: string)
    requires forall q :: 0 <= q < |s| ==> TokenAt(t, s[q..]) == 0
    ensures Strip(t, s) == s
  {
    ScanStart(t, s);
    GapKept(t, s, 0, |s|, "");
    ScanDone(t, s, "" + s[0..|s|]);
    assert "" + s[0..|s|] == s;
  }

  /** The replace as the regular-expression engine performs it: from the
      position after the last match, search for the leftmost next match,
      copy the stretch before it, skip the match, and copy the tail once no
      match is left. Its result is the recursive definition. */
  method StripScan(t: PseudoTable, s: string) returns (out: string)
    ensures out == Strip(t, s)
  {
    out := "";
    var last := 0;
    ScanStart(t, s);
    while last < |s|
      invariant Scanned(t, s, last, out)
      decreases |s| - last
    {
      var p := last;
      while p < |s| && TokenAt(t, s[p..]) == 0
        invariant last <= p <= |s|
        invariant forall q :: last <= q < p ==> TokenAt(t, s[q..]) == 0
        decreases |s| - p
      {
        p := p + 1;
      }
      GapKept(t, s, last, p, out);
      out := out + s[last..p];
      if p < |s| {
        var k := TokenAt(t, s[p..]);
        ScanDrop(t, s, p, out, k);
        last := p + k;
      } else {
        last := p;
      }
    }
    ScanDone(t, s, out);
  }
}
