/** The list splitting the engine borrows from its CSS parser to read
    `animation` and `animation-name` values: `comma` splits on commas and
    `space` on blanks, each piece trimmed. Values are taken to hold no
    quotes, parentheses or backslashes, inside which the parser would not
    split. */
module CssList {
  import opened Text

  /** The pieces between separators, empty ones included: the parser's
      scanner with nothing kept back. */
  function SplitAny(s: string, seps: set<char>): (parts: seq<string>)
    ensures |parts| >= 1
    ensures forall i :: 0 <= i < |parts| ==> forall c :: c in seps ==> c !in parts[i]
  {
    if |s| == 0 then [""]
    else
      var rest := SplitAny(s[1..], seps);
      if s[0] in seps then [""] + rest else [[s[0]] + rest[0]] + rest[1..]
  }

  function Trims(parts: seq<string>, tr: string -> string): (r: seq<string>)
    ensures |r| == |parts|
  {
    if |parts| == 0 then [] else [tr(parts[0])] + Trims(parts[1..], tr)
  }

  function NonEmpty(parts: seq<string>): seq<string> {
    if |parts| == 0 then []
    else (if parts[0] != "" then [parts[0]] else []) + NonEmpty(parts[1..])
  }

  /** The result described piece by piece: every non-empty piece before the
      last separator, then the last piece if it is non-empty or `last` asks
      for it, each trimmed. */
  function Assemble(parts: seq<string>, last: bool, tr: string -> string): seq<string>
    requires |parts| >= 1
  {
    var n := |parts| - 1;
    Trims(NonEmpty(parts[..n]), tr) + (if last || parts[n] != "" then [tr(parts[n])] else [])
  }

  /** The parser's loop: `current` collects characters; a separator pushes
      `current` trimmed when it is not empty; at the end `current` is pushed
      when it is not empty or `last` is set. */
  function Scan(s: string, seps: set<char>, current: string, last: bool, tr: string -> string): seq<string>
    decreases |s|
  {
    if |s| == 0 then (if last || current != "" then [tr(current)] else [])
    else if s[0] in seps then
      (if current != "" then [tr(current)] else []) + Scan(s[1..], seps, "", last, tr)
    else Scan(s[1..], seps, current + [s[0]], last, tr)
  }

  function TrimFn(): string -> string {
    s => Trim(s)
  }

  /** `list.comma`. */
  function Comma(s: string): seq<string> {
    Scan(s, {','}, "", true, TrimFn())
  }

  /** `list.space`. */
  function Space(s: string): seq<string> {
    Scan(s, {' ', '\n', '\t'}, "", false, TrimFn())
  }

  lemma TrimsAppend(a: seq<string>, b: seq<string>, tr: string -> string)
    ensures Trims(a + b, tr) == Trims(a, tr) + Trims(b, tr)
  {
    var l := Trims(a + b, tr);
    var r := Trims(a, tr) + Trims(b, tr);
    forall i | 0 <= i < |l|
      ensures l[i] == r[i]
    {
      TrimsAt(a + b, i, tr);
      if i < |a| {
        TrimsAt(a, i, tr);
      } else {
        TrimsAt(b, i - |a|, tr);
      }
    }
  }

  lemma {:induction false} TrimsAt(parts: seq<string>, i: nat, tr: string -> string)
    requires i < |parts|
    ensures Trims(parts, tr)[i] == tr(parts[i])
  {
    if i > 0 {
      TrimsAt(parts[1..], i - 1, tr);
    }
  }

  lemma {:induction false} NonEmptyCons(p: string, parts: seq<string>)
    ensures NonEmpty([p] + parts) == (if p != "" then [p] else []) + NonEmpty(parts)
  {
    assert ([p] + parts)[1..] == parts;
  }

  /** A piece followed by more pieces: it is emitted, trimmed, when it is
      not empty. */
  lemma AssembleCons(p: string, rest: seq<string>, last: bool, tr: string -> string)
    requires |rest| >= 1
    ensures Assemble([p] + rest, last, tr) == (if p != "" then [tr(p)] else []) + Assemble(rest, last, tr)
  {
    var whole := [p] + rest;
    var n := |rest| - 1;
    assert whole[..|whole| - 1] == [p] + rest[..n];
    assert whole[|whole| - 1] == rest[n];
    NonEmptyCons(p, rest[..n]);
    var front := if p != "" then [p] else [];
    TrimsAppend(front, NonEmpty(rest[..n]), tr);
    assert Trims(front, tr) == if p != "" then [tr(p)] else [];
  }

  /** What the loop computes from `s` with `current` collected so far,
      described piece by piece. */
  predicate ScanIsAssembled(s: string, seps: set<char>, current: string, last: bool, tr: string -> string) {
    var parts := SplitAny(s, seps);
    Scan(s, seps, current, last, tr) == Assemble([current + parts[0]] + parts[1..], last, tr)
  }

  lemma ScanEnd(seps: set<char>, current: string, last: bool, tr: string -> string)
    ensures ScanIsAssembled("", seps, current, last, tr)
  {
    var parts := SplitAny("", seps);
    assert current + parts[0] == current;
    assert ([current] + parts[1..])[..0] == [];
  }

  /** A separator closes the current piece. */
  lemma ScanSeparator(s: string, seps: set<char>, current: string, last: bool, tr: string -> string)
    requires |s| > 0 && s[0] in seps
    requires ScanIsAssembled(s[1..], seps, "", last, tr)
    ensures ScanIsAssembled(s, seps, current, last, tr)
  {
    var parts := SplitAny(s, seps);
    var rest := SplitAny(s[1..], seps);
    assert "" + rest[0] == rest[0];
    assert [rest[0]] + rest[1..] == rest;
    assert Scan(s, seps, current, last, tr)
      == (if current != "" then [tr(current)] else []) + Assemble(rest, last, tr);
    assert parts == [""] + rest;
    assert current + parts[0] == current && parts[1..] == rest;
    AssembleCons(current, rest, last, tr);
  }

  /** Any other character joins the current piece. */
  lemma ScanCharacter(s: string, seps: set<char>, current: string, last: bool, tr: string -> string)
    requires |s| > 0 && s[0] !in seps
    requires ScanIsAssembled(s[1..], seps, current + [s[0]], last, tr)
    ensures ScanIsAssembled(s, seps, current, last, tr)
  {
    var parts := SplitAny(s, seps);
    var rest := SplitAny(s[1..], seps);
    assert current + [s[0]] + rest[0] == current + parts[0];
    assert parts[1..] == rest[1..];
  }

  /** The loop computes the piece-by-piece description, whatever it has
      collected so far. */
  lemma {:induction false} ScanAssembles(s: string, seps: set<char>, current: string, last: bool, tr: string -> string)
    ensures ScanIsAssembled(s, seps, current, last, tr)
    decreases |s|
  {
    if |s| == 0 {
      ScanEnd(seps, current, last, tr);
    } else if s[0] in seps {
      ScanAssembles(s[1..], seps, "", last, tr);
      ScanSeparator(s, seps, current, last, tr);
    } else {
      ScanAssembles(s[1..], seps, current + [s[0]], last, tr);
      ScanCharacter(s, seps, current, last, tr);
    }
  }

  /** `list.comma` is the piece-by-piece description over the comma pieces. */
  lemma CommaAssembles(s: string)
    ensures Comma(s) == Assemble(SplitAny(s, {','}), true, TrimFn())
  {
    var parts := SplitAny(s, {','});
    ScanAssembles(s, {','}, "", true, TrimFn());
    assert "" + parts[0] == parts[0] && [parts[0]] + parts[1..] == parts;
  }

  /** Trimming keeps a contiguous stretch, so it adds no character. */
  lemma TrimMembers(s: string)
    ensures forall c :: c in Trim(s) ==> c in s
  {
    var a := TrimStart(s);
    var b := TrimEnd(a);
    forall c | c in b
      ensures c in s
    {
      var i :| 0 <= i < |b| && b[i] == c;
      assert a[i] == c;
      assert s[|s| - |a| + i] == c;
    }
  }

  /** No comma item holds a comma, none has white space at either end, and
      there is always at least one item. */
  lemma CommaItems(s: string)
    ensures |Comma(s)| >= 1
    ensures forall i :: 0 <= i < |Comma(s)| ==>
      ',' !in Comma(s)[i] && Trim(Comma(s)[i]) == Comma(s)[i]
  {
    var parts := SplitAny(s, {','});
    CommaAssembles(s);
    var n := |parts| - 1;
    var ne := NonEmpty(parts[..n]);
    NonEmptyMembers(parts[..n]);
    assert Comma(s) == Trims(ne, TrimFn()) + [TrimFn()(parts[n])];
    forall i | 0 <= i < |Comma(s)|
      ensures ',' !in Comma(s)[i] && Trim(Comma(s)[i]) == Comma(s)[i]
    {
      var raw: string;
      if i < |ne| {
        raw := ne[i];
        TrimsAt(ne, i, TrimFn());
        assert raw in parts[..n];
        var k :| 0 <= k < n && parts[..n][k] == raw;
        assert ',' !in parts[k];
      } else {
        raw := parts[n];
      }
      assert Comma(s)[i] == Trim(raw) && ',' !in raw;
      TrimMembers(raw);
      TrimIdempotent(raw);
    }
  }

  lemma {:induction false} NonEmptyMembers(parts: seq<string>)
    ensures forall p :: p in NonEmpty(parts) ==> p in parts && p != ""
  {
    if |parts| > 0 {
      NonEmptyMembers(parts[1..]);
      NonEmptyCons(parts[0], parts[1..]);
      assert [parts[0]] + parts[1..] == parts;
    }
  }

  lemma TrimIdempotent(s: string)
    ensures Trim(Trim(s)) == Trim(s)
  {
    var t := Trim(s);
    if |t| > 0 {
      var a := TrimStart(s);
      assert t == TrimEnd(a) && StartsWith(a, t);
      assert t[0] == a[0];
    }
    TrimTrimmed(t);
  }
}
