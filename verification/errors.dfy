/** The banner put before each stylesheet's text and the rewriting of a
    CSS parse error against it: the parser reports a line of the joined
    text, and the message is rewritten to name the stylesheet, number the
    lines from its banner and show the lines around the error. */
module Errors {
  import opened Wrappers
  import opened Text

  const BannerMark := "/*** uncss> filename:"
  const BannerOpen := BannerMark + " "
  const BannerClose := " ***/\n"

  /** The banner step of `readStylesheets`: each text gets the name of the
      file it was read from in front. */
  function Banners(files: seq<string>, contents: seq<string>): (r: seq<string>)
    requires |files| == |contents|
    ensures |r| == |files|
  {
    if |files| == 0 then []
    else [BannerOpen + files[0] + BannerClose + contents[0]] + Banners(files[1..], contents[1..])
  }

  lemma {:induction false} BannersAt(files: seq<string>, contents: seq<string>, i: nat)
    requires |files| == |contents| && i < |files|
    ensures Banners(files, contents)[i] == BannerOpen + files[i] + BannerClose + contents[i]
  {
    if i > 0 {
      BannersAt(files[1..], contents[1..], i - 1);
    }
  }

  /** The first 21 characters of the line are the banner mark
      (`substr(0, 21)` compared with it). */
  predicate IsBannerLine(l: string) {
    StartsWith(l, BannerMark)
  }

  /** `lines[i].substring(22, lines[i].length - 4)`. */
  function Extract(l: string): string {
    Substring(l, |BannerOpen|, |l| - 4)
  }

  /** A banner line read back: the first line of a bannered text is a
      banner line, and what is extracted from it is the file name followed
      by one space: the extraction stops four characters before the end of
      the line, and the closing mark is five long. */
  lemma BannerRoundTrip(file: string, content: string)
    requires '\n' !in file
    ensures IsBannerLine(Split(BannerOpen + file + BannerClose + content, '\n')[0])
    ensures Extract(Split(BannerOpen + file + BannerClose + content, '\n')[0]) == file + " "
  {
    var l := BannerOpen + file + " ***/";
    assert BannerOpen + file + BannerClose + content == l + "\n" + content;
    assert '\n' !in l;
    BeforeUpTo(l, content);
    FirstSplitIsBefore(l + "\n" + content, '\n');
    BannerLine(file);
  }

  lemma BannerLine(file: string)
    ensures IsBannerLine(BannerOpen + file + " ***/")
    ensures Extract(BannerOpen + file + " ***/") == file + " "
  {
    var l := BannerOpen + file + " ***/";
    assert l == BannerMark + (" " + file + " ***/");
    assert l == BannerOpen + (file + " ") + "***/";
    assert l[|BannerOpen|..|l| - 4] == file + " ";
  }

  lemma {:induction false} BeforeUpTo(l: string, rest: string)
    requires '\n' !in l
    ensures Before(l + "\n" + rest, '\n') == l
  {
    if |l| > 0 {
      BeforeUpTo(l[1..], rest);
      assert (l + "\n" + rest)[1..] == l[1..] + "\n" + rest;
    } else {
      assert l + "\n" + rest == "\n" + rest;
    }
  }

  /** A JavaScript value used as a condition: a missing or empty name is
      falsy. */
  predicate Named(f: Option<string>) {
    f.Some? && f.value != ""
  }

  /** A banner line that names a file. */
  predicate NamedBanner(l: string) {
    IsBannerLine(l) && Extract(l) != ""
  }

  datatype Found = Found(filename: Option<string>, zeroLine: nat)

  /** The upward search from index `i`: every banner line seen sets the
      name and the base line, and the search stops once the name is not
      empty. Reading past the end of the lines throws a TypeError. */
  function Search(lines: seq<string>, i: int, filename: Option<string>, zeroLine: nat): Result<Found, string>
    decreases i + 1
  {
    if i < 0 || Named(filename) then Success(Found(filename, zeroLine))
    else if i >= |lines| then Failure("TypeError")
    else if IsBannerLine(lines[i]) then Search(lines, i - 1, Some(Extract(lines[i])), i)
    else Search(lines, i - 1, filename, zeroLine)
  }

  /** What the search reports from index `i` down: a name taken from the
      nearest banner line that names a file, or no name when none does. */
  predicate FoundNearest(lines: seq<string>, i: int, f: Found)
    requires i < |lines|
  {
    if Named(f.filename) then
      0 <= f.zeroLine <= i && NamedBanner(lines[f.zeroLine]) && f.filename == Some(Extract(lines[f.zeroLine])) &&
      forall k :: f.zeroLine < k <= i ==> !NamedBanner(lines[k])
    else
      forall k :: 0 <= k <= i ==> !NamedBanner(lines[k])
  }

  lemma FoundNearestStep(lines: seq<string>, i: int, f: Found)
    requires 0 <= i < |lines| && !NamedBanner(lines[i])
    requires FoundNearest(lines, i - 1, f)
    ensures FoundNearest(lines, i, f)
  {
  }

  /** Started inside the text without a name, the search succeeds and
      finds the nearest banner line at or above `i` that names a file, or
      reports there is none. */
  lemma {:induction false} SearchFindsNearest(lines: seq<string>, i: int, filename: Option<string>, zeroLine: nat)
    requires -1 <= i < |lines| && !Named(filename)
    ensures Search(lines, i, filename, zeroLine).Success?
    ensures FoundNearest(lines, i, Search(lines, i, filename, zeroLine).value)
    decreases i + 1
  {
    if i < 0 {
      SearchEnd(lines, filename, zeroLine);
    } else if IsBannerLine(lines[i]) {
      var name := Some(Extract(lines[i]));
      SearchBanner(lines, i, filename, zeroLine);
      if Named(name) {
        FoundHere(lines, i);
      } else {
        SearchFindsNearest(lines, i - 1, name, i);
        FoundNearestStep(lines, i, Search(lines, i - 1, name, i).value);
      }
    } else {
      SearchPlain(lines, i, filename, zeroLine);
      SearchFindsNearest(lines, i - 1, filename, zeroLine);
      FoundNearestStep(lines, i, Search(lines, i - 1, filename, zeroLine).value);
    }
  }

  lemma SearchEnd(lines: seq<string>, filename: Option<string>, zeroLine: nat)
    requires !Named(filename)
    ensures Search(lines, -1, filename, zeroLine) == Success(Found(filename, zeroLine))
    ensures FoundNearest(lines, -1, Found(filename, zeroLine))
  {
  }

  lemma SearchBanner(lines: seq<string>, i: nat, filename: Option<string>, zeroLine: nat)
    requires i < |lines| && !Named(filename) && IsBannerLine(lines[i])
    ensures Search(lines, i, filename, zeroLine) == Search(lines, i - 1, Some(Extract(lines[i])), i)
  {
  }

  lemma SearchPlain(lines: seq<string>, i: nat, filename: Option<string>, zeroLine: nat)
    requires i < |lines| && !Named(filename) && !IsBannerLine(lines[i])
    ensures Search(lines, i, filename, zeroLine) == Search(lines, i - 1, filename, zeroLine)
  {
  }

  /** A banner line that names a file ends the search where it stands. */
  lemma FoundHere(lines: seq<string>, i: nat)
    requires i < |lines| && NamedBanner(lines[i])
    ensures Search(lines, i - 1, Some(Extract(lines[i])), i) == Success(Found(Some(Extract(lines[i])), i))
    ensures FoundNearest(lines, i, Found(Some(Extract(lines[i])), i))
  {
  }

  /** `line.length > 120 && error.column`: a long line (minified CSS) is
      cut to the forty characters before the column. */
  function Cut(l: string, column: int): (r: string)
    ensures |r| <= |l|
  {
    if |l| > 120 && column != 0 then Substring(l, column - 40, column) else l
  }

  /** A cut line is never longer than forty characters, and a short line
      or an unknown column leaves the line whole. A long line keeps the
      forty characters before the column, as `substring` clamps its bounds
      to the line: fewer near either end, none for a negative column or
      one more than forty past the end. */
  lemma CutBound(l: string, column: int)
    ensures |l| > 120 && column != 0 ==> |Cut(l, column)| <= 40
    ensures |l| <= 120 || column == 0 ==> Cut(l, column) == l
    ensures |l| > 120 && 40 <= column <= |l| ==> Cut(l, column) == l[column - 40..column]
    ensures |l| > 120 && 0 < column < 40 ==> Cut(l, column) == l[..column]
    ensures |l| > 120 && |l| < column < |l| + 40 ==> Cut(l, column) == l[column - 40..]
    ensures |l| > 120 && (column < 0 || column >= |l| + 40) ==> Cut(l, column) == ""
  {
  }

  /** One line of context: its number counted from the banner, whether it
      is the line the parser reported, and its (possibly cut) text. */
  datatype Context = Context(number: int, marked: bool, text: string)

  /** The loop over `j` from `line - 6` to `line + 4`, skipping indices
      above the banner or past the end. */
  function Window(lines: seq<string>, line: int, column: int, zeroLine: nat, j: int): seq<Context>
    decreases line + 5 - j
  {
    if j >= line + 5 then []
    else if j - zeroLine < 0 || j >= |lines| then Window(lines, line, column, zeroLine, j + 1)
    else [Context(j + 1 - zeroLine, j == line - 1, Cut(lines[j], column))] + Window(lines, line, column, zeroLine, j + 1)
  }

  function Max(a: int, b: int): int { if a < b then b else a }
  function Min(a: int, b: int): int { if a < b then a else b }

  /** The context entry the window holds for index `j`. */
  function ContextAt(lines: seq<string>, line: int, column: int, zeroLine: nat, j: int): Context
    requires 0 <= j < |lines|
  {
    Context(j + 1 - zeroLine, j == line - 1, Cut(lines[j], column))
  }

  /** The window described directly: the indices from the larger of the
      start and the banner's index up to, not including, the smaller of
      `line + 5` and the number of lines, in order. */
  predicate WindowIs(w: seq<Context>, lines: seq<string>, line: int, column: int, zeroLine: nat, j: int) {
    var lo := Max(j, zeroLine);
    var hi := Min(line + 5, |lines|);
    |w| == Max(0, hi - lo) &&
    forall k :: 0 <= k < |w| ==> 0 <= lo + k < |lines| && w[k] == ContextAt(lines, line, column, zeroLine, lo + k)
  }

  lemma WindowSkip(lines: seq<string>, line: int, column: int, zeroLine: nat, j: int)
    requires j < line + 5 && (j - zeroLine < 0 || j >= |lines|)
    requires WindowIs(Window(lines, line, column, zeroLine, j + 1), lines, line, column, zeroLine, j + 1)
    ensures WindowIs(Window(lines, line, column, zeroLine, j), lines, line, column, zeroLine, j)
  {
  }

  lemma WindowTake(lines: seq<string>, line: int, column: int, zeroLine: nat, j: int)
    requires j < line + 5 && j - zeroLine >= 0 && j < |lines|
    requires WindowIs(Window(lines, line, column, zeroLine, j + 1), lines, line, column, zeroLine, j + 1)
    ensures WindowIs(Window(lines, line, column, zeroLine, j), lines, line, column, zeroLine, j)
  {
    var rest := Window(lines, line, column, zeroLine, j + 1);
    var w := Window(lines, line, column, zeroLine, j);
    assert w == [ContextAt(lines, line, column, zeroLine, j)] + rest;
    assert Max(j, zeroLine) == j && Max(j + 1, zeroLine) == j + 1;
    forall k | 0 <= k < |w|
      ensures 0 <= j + k < |lines| && w[k] == ContextAt(lines, line, column, zeroLine, j + k)
    {
      if k > 0 {
        assert w[k] == rest[k - 1];
      }
    }
  }

  /** The loop computes the direct description, from any start. */
  lemma {:induction false} WindowShape(lines: seq<string>, line: int, column: int, zeroLine: nat, j: int)
    ensures WindowIs(Window(lines, line, column, zeroLine, j), lines, line, column, zeroLine, j)
    decreases line + 5 - j
  {
    if j < line + 5 {
      WindowShape(lines, line, column, zeroLine, j + 1);
      if j - zeroLine < 0 || j >= |lines| {
        WindowSkip(lines, line, column, zeroLine, j);
      } else {
        WindowTake(lines, line, column, zeroLine, j);
      }
    }
  }

  /** At most eleven lines are shown, numbered from one at the banner, and
      exactly the reported line carries the marker. */
  lemma WindowFacts(lines: seq<string>, line: int, column: int, zeroLine: nat)
    ensures var w := Window(lines, line, column, zeroLine, line - 6);
      |w| <= 11 &&
      (forall k :: 0 <= k < |w| ==> w[k].number >= 1 && (w[k].marked <==> w[k].number == line - zeroLine)) &&
      (zeroLine <= line - 1 < |lines| ==> exists k :: 0 <= k < |w| && w[k].marked)
  {
    var w := Window(lines, line, column, zeroLine, line - 6);
    WindowShape(lines, line, column, zeroLine, line - 6);
    var lo := Max(line - 6, zeroLine);
    if zeroLine <= line - 1 < |lines| {
      var k := line - 1 - lo;
      assert 0 <= k < |w|;
      assert w[k].marked;
    }
  }

  /** The text appended for the window. */
  function Render(w: seq<Context>): string {
    if |w| == 0 then ""
    else "\n\t" + JsNumber(w[0].number) + ":    " + (if w[0].marked then " -> " else "    ") + w[0].text + Render(w[1..])
  }

  /** A number written the way JavaScript converts an integer to text. */
  function JsNumber(n: int): string {
    if n >= 0 then Decimal(n) else "-" + Decimal(-n)
  }

  /** Length of the run of digits `s` begins with. */
  function DigitRun(s: string): (k: nat)
    ensures k <= |s|
  {
    if |s| == 0 || !IsDigit(s[0]) then 0 else 1 + DigitRun(s[1..])
  }

  /** `/[0-9]+:/` matches at the start of `s`. Greedy digits followed by a
      colon: no shorter run can be followed by one. */
  predicate NumberColonAt(s: string) {
    var k := DigitRun(s);
    0 < k < |s| && s[k] == ':'
  }

  /** `s.replace(/[0-9]+:/, rep)`: the leftmost match is replaced. */
  function ReplaceFirst(s: string, rep: string): string {
    if |s| == 0 then s
    else if NumberColonAt(s) then rep + s[DigitRun(s) + 1..]
    else [s[0]] + ReplaceFirst(s[1..], rep)
  }

  /** Without a match the text is unchanged. */
  lemma {:induction false} ReplaceFirstNone(s: string, rep: string)
    requires forall q :: 0 <= q <= |s| ==> !NumberColonAt(s[q..])
    ensures ReplaceFirst(s, rep) == s
  {
    if |s| > 0 {
      assert s[0..] == s;
      forall q | 0 <= q <= |s| - 1
        ensures !NumberColonAt(s[1..][q..])
      {
        assert s[1..][q..] == s[q + 1..];
      }
      ReplaceFirstNone(s[1..], rep);
    }
  }

  /** With a match, exactly the leftmost one (its digits and its colon) is
      replaced. */
  lemma {:induction false} ReplaceFirstAt(s: string, rep: string, p: nat)
    requires p <= |s| && NumberColonAt(s[p..])
    requires forall q :: 0 <= q < p ==> !NumberColonAt(s[q..])
    ensures ReplaceFirst(s, rep) == s[..p] + rep + s[p + DigitRun(s[p..]) + 1..]
  {
    if p == 0 {
      ReplaceHere(s, rep);
    } else {
      NoMatchShift(s, p);
      ReplaceFirstAt(s[1..], rep, p - 1);
      ReplaceLater(s, rep, p);
    }
  }

  lemma ReplaceLater(s: string, rep: string, p: nat)
    requires 0 < p <= |s| && NumberColonAt(s[p..]) && !NumberColonAt(s) && s[1..][p - 1..] == s[p..]
    requires ReplaceFirst(s[1..], rep) == s[1..][..p - 1] + rep + s[1..][p - 1 + DigitRun(s[1..][p - 1..]) + 1..]
    ensures ReplaceFirst(s, rep) == s[..p] + rep + s[p + DigitRun(s[p..]) + 1..]
  {
    ReplaceStep(s, rep, p, DigitRun(s[p..]));
  }

  lemma ReplaceHere(s: string, rep: string)
    requires NumberColonAt(s[0..])
    ensures ReplaceFirst(s, rep) == s[..0] + rep + s[0 + DigitRun(s[0..]) + 1..]
  {
    assert s[0..] == s;
  }

  /** No match before `p` in `s` is no match before `p - 1` in its tail. */
  lemma NoMatchShift(s: string, p: nat)
    requires 0 < p <= |s| && NumberColonAt(s[p..])
    requires forall q :: 0 <= q < p ==> !NumberColonAt(s[q..])
    ensures !NumberColonAt(s) && p - 1 <= |s[1..]| && s[1..][p - 1..] == s[p..]
    ensures forall q :: 0 <= q < p - 1 ==> !NumberColonAt(s[1..][q..])
  {
    assert s[0..] == s;
    assert s[1..][p - 1..] == s[p..];
    forall q | 0 <= q < p - 1
      ensures !NumberColonAt(s[1..][q..])
    {
      assert s[1..][q..] == s[q + 1..];
    }
  }

  lemma ReplaceStep(s: string, rep: string, p: nat, k: nat)
    requires 0 < p && p + k + 1 <= |s| && !NumberColonAt(s)
    requires ReplaceFirst(s[1..], rep) == s[1..][..p - 1] + rep + s[1..][p - 1 + k + 1..]
    ensures ReplaceFirst(s, rep) == s[..p] + rep + s[p + k + 1..]
  {
    assert ReplaceFirst(s, rep) == [s[0]] + ReplaceFirst(s[1..], rep);
    assert s[1..][p + k..] == s[p + k + 1..];
    assert [s[0]] + s[1..][..p - 1] == s[..p];
  }

  /** A parse error: its message, the line and column the parser reported
      (0 when absent) and the stylesheet's name, if known. */
  datatype CssError = CssError(message: string, line: int, column: int, filename: Option<string>)

  const Preamble := "uncss/node_modules/css: unable to parse "

  /** `error.filename` concatenated into a string. */
  function NameText(f: Option<string>): string {
    match f
    case Some(n) => n
    case None => "undefined"
  }

  /** The final message: the preamble, the stylesheet's name, a colon and
      a line break, the body, and a closing line break. */
  function Frame(filename: Option<string>, body: string): string {
    Preamble + NameText(filename) + ":\n" + body + "\n"
  }

  lemma FrameShape(filename: Option<string>, body: string)
    ensures StartsWith(Frame(filename, body), Preamble + NameText(filename) + ":\n")
    ensures EndsWith(Frame(filename, body), "\n")
  {
    var head := Preamble + NameText(filename) + ":\n";
    var m := Frame(filename, body);
    assert m == head + (body + "\n");
    assert m[..|head|] == head;
    assert m[|m| - 1..] == "\n";
  }

  /** The message with the window of context appended and, when a banner
      was found below the first line, the first `digits:` replaced by the
      line number counted from that banner. */
  function Body(e: CssError, lines: seq<string>, zeroLine: nat): string {
    var body := e.message + Render(Window(lines, e.line, e.column, zeroLine, e.line - 6));
    if zeroLine > 0 then ReplaceFirst(body, JsNumber(e.line - zeroLine) + ":") else body
  }

  /** `parseErrorMessage`: the error with its message rewritten, or the
      TypeError the search throws when the reported line lies past the end
      of the text. */
  function ParseErrorMessage(e: CssError, css: string): Result<CssError, string> {
    if e.line == 0 then
      Success(e.(message := Frame(e.filename, e.message)))
    else
      var lines := Split(css, '\n');
      var found :- Search(lines, e.line - 1, e.filename, 0);
      Success(e.(message := Frame(found.filename, Body(e, lines, found.zeroLine)), filename := found.filename))
  }

  /** The rewriting fails exactly when a line is reported, no name is known
      and the line lies past the end of the text. */
  lemma ParseErrorFails(e: CssError, css: string)
    ensures ParseErrorMessage(e, css).Failure? <==>
      e.line > 0 && !Named(e.filename) && e.line - 1 >= |Split(css, '\n')|
  {
    var lines := Split(css, '\n');
    if e.line > 0 && e.line - 1 < |lines| && !Named(e.filename) {
      SearchFindsNearest(lines, e.line - 1, e.filename, 0);
    }
  }

  /** A rewritten message names the stylesheet after the fixed preamble,
      keeps the parser's message in its body, and ends with a line break;
      the name is the one the nearest naming banner gives. */
  lemma ParseErrorShape(e: CssError, css: string)
    requires ParseErrorMessage(e, css).Success?
    ensures var r := ParseErrorMessage(e, css).value;
      StartsWith(r.message, Preamble + NameText(r.filename) + ":\n") && EndsWith(r.message, "\n")
    ensures e.line == 0 ==> ParseErrorMessage(e, css).value.message == Frame(e.filename, e.message)
    ensures var lines := Split(css, '\n');
      e.line > 0 && !Named(e.filename) ==>
        (e.line - 1 < |lines| && Search(lines, e.line - 1, e.filename, 0).Success? &&
         FoundNearest(lines, e.line - 1, Search(lines, e.line - 1, e.filename, 0).value) &&
         ParseErrorMessage(e, css).value.filename == Search(lines, e.line - 1, e.filename, 0).value.filename)
  {
    var lines := Split(css, '\n');
    var r := ParseErrorMessage(e, css).value;
    if e.line == 0 {
      FrameShape(e.filename, e.message);
    } else {
      var found := Search(lines, e.line - 1, e.filename, 0).value;
      assert r.filename == found.filename;
      FrameShape(found.filename, Body(e, lines, found.zeroLine));
      if e.line > 0 && !Named(e.filename) {
        ParseErrorFails(e, css);
        SearchFindsNearest(lines, e.line - 1, e.filename, 0);
      }
    }
  }
}
