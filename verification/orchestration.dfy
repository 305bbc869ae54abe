/** The steps of the current engine that prepare its input: expanding the
    HTML file arguments, dropping the stylesheets named by `ignoreSheets`,
    turning the linked sheets of every page into one list of paths, and
    assembling the CSS text with the optional raw CSS. File globbing, the
    absolute-URL and raw-HTML tests and the user regular expressions are
    oracles. */
module Orchestration {
  import opened Wrappers
  import opened Text
  import opened Css
  import Seqs
  import SelectorFilter
  import Paths

  const NoHtml := "UnCSS: no HTML files found"
  const RawError := "UnCSS: options.raw - expected a string"
  const NoSheets := "UnCSS: no stylesheets found"

  /** The `files` argument: a single string or an array of strings. */
  datatype FileArg = FileName(name: string) | FileList(names: seq<string>)

  /** The tests and the glob the expansion calls: `is-absolute-url`,
      `is-html`, and `glob.sync` with its matches already written with the
      platform's path separator. */
  datatype Finder = Finder(isAbsolute: string -> bool, isHtml: string -> bool, glob: string -> seq<string>)

  /** A string argument is wrapped into a one-element list. */
  function AsList(arg: FileArg): seq<string> {
    match arg
    case FileName(f) => [f]
    case FileList(fs) => fs
  }

  /** One argument: a URL or raw HTML stands for itself, anything else is a
      glob pattern replaced by its matches. */
  function Expand(file: string, fd: Finder): seq<string> {
    if !fd.isAbsolute(file) && !fd.isHtml(file) then fd.glob(file) else [file]
  }

  function ExpandAll(files: seq<string>, fd: Finder): (r: seq<seq<string>>)
    ensures |r| == |files|
    ensures forall i :: 0 <= i < |files| ==> r[i] == Expand(files[i], fd)
  {
    if |files| == 0 then [] else [Expand(files[0], fd)] + ExpandAll(files[1..], fd)
  }

  /** `getHTML` up to loading the pages: the expanded list of pages, or the
      error raised when there is none. */
  function HtmlFiles(arg: FileArg, fd: Finder): Result<seq<string>, string> {
    var files := Seqs.Flatten(ExpandAll(AsList(arg), fd));
    if |files| == 0 then Failure(NoHtml) else Success(files)
  }

  /** The page list holds exactly what the arguments expand to, and it is
      an error exactly when every argument expands to nothing. A single
      string behaves as a list holding it. */
  lemma HtmlFilesFacts(arg: FileArg, fd: Finder)
    ensures HtmlFiles(FileName(arg.name), fd) == HtmlFiles(FileList([arg.name]), fd) <== arg.FileName?
    ensures var files := AsList(arg);
      HtmlFiles(arg, fd).Failure? <==> forall i :: 0 <= i < |files| ==> Expand(files[i], fd) == []
    ensures HtmlFiles(arg, fd).Failure? ==> HtmlFiles(arg, fd).error == NoHtml
    ensures var files := AsList(arg);
      HtmlFiles(arg, fd).Success? ==>
        forall x :: x in HtmlFiles(arg, fd).value <==> exists i :: 0 <= i < |files| && x in Expand(files[i], fd)
  {
    var files := AsList(arg);
    var ex := ExpandAll(files, fd);
    Seqs.FlattenEmpty(ex);
    forall x
      ensures x in Seqs.Flatten(ex) <==> exists i :: 0 <= i < |files| && x in Expand(files[i], fd)
    {
      Seqs.FlattenMembers(ex, x);
    }
  }

  /** An address or a page given as raw HTML is loaded as it is. */
  lemma HtmlFilesLiteral(file: string, fd: Finder)
    requires fd.isAbsolute(file) || fd.isHtml(file)
    ensures HtmlFiles(FileName(file), fd) == Success([file])
  {
    var ex := ExpandAll([file], fd);
    assert AsList(FileName(file)) == [file];
    assert Expand(file, fd) == [file];
    assert ex == [[file]];
    assert ex[1..] == [];
    assert Seqs.Flatten(ex) == [file] + Seqs.Flatten(ex[1..]);
    assert [file] + [] == [file];
  }

  /** `_.every(options.ignoreSheets, ...)`: a sheet is read unless some
      entry names it, by equality or by its regular expression. */
  function KeepSheet(ignore: seq<IgnoreEntry>, test: (nat, string) -> bool): string -> bool {
    s => !SelectorFilter.IgnoreHit(ignore, s, test)
  }

  function FilterEach(sheets: seq<seq<string>>, p: string -> bool): (r: seq<seq<string>>)
    ensures |r| == |sheets|
    ensures forall i :: 0 <= i < |sheets| ==> r[i] == Seqs.Filter(sheets[i], p)
  {
    if |sheets| == 0 then [] else [Seqs.Filter(sheets[0], p)] + FilterEach(sheets[1..], p)
  }

  /** The `ignoreSheets` step of `getCSS`, guarded by the list being
      non-empty. */
  function IgnoreSheets(ignore: seq<IgnoreEntry>, test: (nat, string) -> bool, sheets: seq<seq<string>>): seq<seq<string>> {
    if |ignore| > 0 then FilterEach(sheets, KeepSheet(ignore, test)) else sheets
  }

  /** No entry of the list names the sheet. */
  predicate Unnamed(ignore: seq<IgnoreEntry>, test: (nat, string) -> bool, s: string) {
    forall k :: 0 <= k < |ignore| ==> !SelectorFilter.EntryMatches(ignore[k], s, test)
  }

  /** Each page keeps its own list, and that list keeps, in order and with
      all their repetitions, exactly the sheets no entry names. */
  lemma IgnoreSheetsFacts(ignore: seq<IgnoreEntry>, test: (nat, string) -> bool, sheets: seq<seq<string>>)
    ensures |IgnoreSheets(ignore, test, sheets)| == |sheets|
    ensures forall i :: 0 <= i < |sheets| ==> Seqs.IsSubseq(IgnoreSheets(ignore, test, sheets)[i], sheets[i])
    ensures forall i, s :: 0 <= i < |sheets| ==>
      multiset(IgnoreSheets(ignore, test, sheets)[i])[s] ==
        (if Unnamed(ignore, test, s) then multiset(sheets[i])[s] else 0)
  {
    var r := IgnoreSheets(ignore, test, sheets);
    IgnoreSheetsUnguarded(ignore, test, sheets);
    var p := KeepSheet(ignore, test);
    forall i | 0 <= i < |sheets|
      ensures Seqs.IsSubseq(r[i], sheets[i])
      ensures forall s :: multiset(r[i])[s] == (if Unnamed(ignore, test, s) then multiset(sheets[i])[s] else 0)
    {
      Seqs.FilterIsSubseq(sheets[i], p);
      Seqs.FilterCount(sheets[i], p);
    }
  }

  /** The guard changes nothing: with an empty list no sheet is named. */
  lemma IgnoreSheetsUnguarded(ignore: seq<IgnoreEntry>, test: (nat, string) -> bool, sheets: seq<seq<string>>)
    ensures IgnoreSheets(ignore, test, sheets) == FilterEach(sheets, KeepSheet(ignore, test))
  {
    if |ignore| == 0 {
      var r := FilterEach(sheets, KeepSheet(ignore, test));
      forall i | 0 <= i < |sheets|
        ensures r[i] == sheets[i]
      {
        Seqs.FilterAll(sheets[i], KeepSheet(ignore, test));
      }
    }
  }

  /** The paths of every page's sheets, page by page, each list resolved
      against its own page. */
  function ParseEach(files: seq<string>, sheets: seq<seq<string>>, opts: Paths.Options, o: Paths.Oracles): (r: seq<seq<string>>)
    requires |sheets| <= |files|
    ensures |r| == |sheets|
    ensures forall i :: 0 <= i < |sheets| ==> r[i] == Paths.ParsePaths(Paths.Current, files[i], sheets[i], opts, o)
  {
    if |sheets| == 0 then []
    else [Paths.ParsePaths(Paths.Current, files[0], sheets[0], opts, o)] + ParseEach(files[1..], sheets[1..], opts, o)
  }

  /** The rest of `getCSS`: when some page links a sheet, the paths of all
      of them, flattened and without repetitions; otherwise nothing. The
      caller hands one list of sheets per page, or a single list for the
      first page when the sheets are configured. */
  function Collect(files: seq<string>, sheets: seq<seq<string>>, opts: Paths.Options, o: Paths.Oracles): seq<string>
    requires |sheets| <= |files|
  {
    if |Seqs.Flatten(sheets)| > 0 then Seqs.Dedupe(Seqs.Flatten(ParseEach(files, sheets, opts, o))) else []
  }

  /** `getCSS` up to reading the files. */
  function SheetPaths(files: seq<string>, ignore: seq<IgnoreEntry>, test: (nat, string) -> bool,
                      sheets: seq<seq<string>>, opts: Paths.Options, o: Paths.Oracles): seq<string>
    requires |sheets| <= |files|
  {
    Collect(files, IgnoreSheets(ignore, test, sheets), opts, o)
  }

  /** Some page's sheet `j`, resolved against that page, is `x`. */
  predicate PathOf(files: seq<string>, sheets: seq<seq<string>>, opts: Paths.Options, o: Paths.Oracles, x: string)
    requires |sheets| <= |files|
  {
    exists i, j :: 0 <= i < |sheets| && 0 <= j < |sheets[i]| &&
      x == Paths.Resolve(Paths.Current, files[i], sheets[i][j], opts, o)
  }

  /** The emptiness test changes nothing either: parsing keeps every list's
      length, so no sheets give no paths. */
  lemma CollectUnguarded(files: seq<string>, sheets: seq<seq<string>>, opts: Paths.Options, o: Paths.Oracles)
    requires |sheets| <= |files|
    ensures Collect(files, sheets, opts, o) == Seqs.Dedupe(Seqs.Flatten(ParseEach(files, sheets, opts, o)))
  {
    var parsed := ParseEach(files, sheets, opts, o);
    Seqs.FlattenEmpty(sheets);
    Seqs.FlattenEmpty(parsed);
  }

  /** The list of paths has no repetitions, holds exactly the resolved
      sheets of all pages, and is empty exactly when no page links any. */
  lemma CollectFacts(files: seq<string>, sheets: seq<seq<string>>, opts: Paths.Options, o: Paths.Oracles)
    requires |sheets| <= |files|
    ensures Seqs.NoDup(Collect(files, sheets, opts, o))
    ensures forall x :: x in Collect(files, sheets, opts, o) <==> PathOf(files, sheets, opts, o, x)
    ensures |Collect(files, sheets, opts, o)| == 0 <==> forall i :: 0 <= i < |sheets| ==> |sheets[i]| == 0
  {
    var parsed := ParseEach(files, sheets, opts, o);
    var r := Collect(files, sheets, opts, o);
    CollectUnguarded(files, sheets, opts, o);
    Seqs.FlattenEmpty(sheets);
    Seqs.FlattenEmpty(parsed);
    forall x
      ensures x in r <==> PathOf(files, sheets, opts, o, x)
    {
      Seqs.FlattenMembers(parsed, x);
      if x in r {
        var i :| 0 <= i < |parsed| && x in parsed[i];
        var j :| 0 <= j < |parsed[i]| && parsed[i][j] == x;
        Paths.ParsePathsAt(Paths.Current, files[i], sheets[i], opts, o, j);
      }
      if PathOf(files, sheets, opts, o, x) {
        var i, j :| 0 <= i < |sheets| && 0 <= j < |sheets[i]| &&
          x == Paths.Resolve(Paths.Current, files[i], sheets[i][j], opts, o);
        Paths.ParsePathsAt(Paths.Current, files[i], sheets[i], opts, o, j);
        assert x in parsed[i];
      }
    }
  }

  /** A string that starts, at some position, a run of white space of some
      length, the empty run included: `/\s*\/.test(s)`. */
  predicate SpaceRunTest(s: string) {
    exists p, k | 0 <= p <= |s| && 0 <= k <= |s| - p :: SpaceRunAt(s, p, k)
  }

  /** The `k` characters of `s` from position `p` on are white space. */
  predicate SpaceRunAt(s: string, p: int, k: int) {
    0 <= p <= |s| && 0 <= k <= |s| - p && AllSpace(s[p..p + k])
  }

  /** The postcss plugin's default `ignoreSheets`: the one regular
      expression `/\s*\/`. */
  const PluginIgnore: seq<IgnoreEntry> := [Pattern(0)]

  function PluginTest(id: nat, s: string): bool {
    SpaceRunTest(s)
  }

  /** The expression matches the empty run at the start of every string,
      so under the plugin's default no linked sheet is read. */
  lemma PluginIgnoresAll(files: seq<string>, sheets: seq<seq<string>>, opts: Paths.Options, o: Paths.Oracles)
    requires |sheets| <= |files|
    ensures forall i :: 0 <= i < |sheets| ==> IgnoreSheets(PluginIgnore, PluginTest, sheets)[i] == []
    ensures SheetPaths(files, PluginIgnore, PluginTest, sheets, opts, o) == []
  {
    var kept := IgnoreSheets(PluginIgnore, PluginTest, sheets);
    var p := KeepSheet(PluginIgnore, PluginTest);
    forall s: string
      ensures !p(s)
    {
      assert SpaceRunAt(s, 0, 0);
      assert SelectorFilter.EntryMatches(PluginIgnore[0], s, PluginTest);
    }
    forall i | 0 <= i < |sheets|
      ensures kept[i] == []
    {
      Seqs.FilterNone(sheets[i], p);
    }
    CollectFacts(files, kept, opts, o);
  }

  /** `options.raw`: a string, or a value of another type, known by its
      truthiness. */
  datatype RawOption = RawString(text: string) | RawValue(truthy: bool)

  /** The raw CSS is appended after the read sheets when it is a non-empty
      string; a truthy value of another type is an error. */
  function WithRaw(contents: seq<string>, raw: RawOption): Result<seq<string>, string> {
    match raw
    case RawString(t) => if t != "" then Success(contents + [t]) else Success(contents)
    case RawValue(truthy) => if truthy then Failure(RawError) else Success(contents)
  }

  const Separator := " \n"

  /** `Array.prototype.join(' \n')`. */
  function JoinSheets(sheets: seq<string>): string {
    if |sheets| == 0 then ""
    else if |sheets| == 1 then sheets[0]
    else sheets[0] + Separator + JoinSheets(sheets[1..])
  }

  /** Joining two non-empty lists puts one separator between their joins. */
  lemma {:induction false} JoinAppend(a: seq<string>, b: seq<string>)
    requires |a| > 0 && |b| > 0
    ensures JoinSheets(a + b) == JoinSheets(a) + Separator + JoinSheets(b)
  {
    var ab := a + b;
    assert ab[0] == a[0];
    if |a| == 1 {
      assert ab[1..] == b;
    } else {
      assert ab[1..] == a[1..] + b;
      JoinAppend(a[1..], b);
    }
  }

  /** The joined text is as long as the sheets and one separator between
      each two of them. */
  lemma {:induction false} JoinLength(sheets: seq<string>)
    requires |sheets| > 0
    ensures |JoinSheets(sheets)| == TotalLength(sheets) + |Separator| * (|sheets| - 1)
  {
    if |sheets| > 1 {
      JoinLength(sheets[1..]);
    }
  }

  function TotalLength(sheets: seq<string>): nat {
    if |sheets| == 0 then 0 else |sheets[0]| + TotalLength(sheets[1..])
  }

  /** The CSS text `processWithTextApi` hands to the parser, or the error
      it raises first. */
  function CssText(contents: seq<string>, raw: RawOption): Result<string, string> {
    var all :- WithRaw(contents, raw);
    if |all| == 0 then Failure(NoSheets) else Success(JoinSheets(all))
  }

  /** Only a non-empty raw string adds to the sheets. */
  predicate AddsRaw(raw: RawOption) {
    raw.RawString? && raw.text != ""
  }

  /** The two errors and when each is raised. */
  lemma CssTextErrors(contents: seq<string>, raw: RawOption)
    ensures CssText(contents, raw) == Failure(RawError) <==> raw == RawValue(true)
    ensures CssText(contents, raw) == Failure(NoSheets) <==>
      raw != RawValue(true) && |contents| == 0 && !AddsRaw(raw)
  {
    if AddsRaw(raw) {
      assert |contents + [raw.text]| > 0;
    }
  }

  /** Without raw CSS the text is the join of the read sheets. */
  lemma CssTextPlain(contents: seq<string>, raw: RawOption)
    requires !AddsRaw(raw) && raw != RawValue(true) && |contents| > 0
    ensures CssText(contents, raw) == Success(JoinSheets(contents))
  {
    assert WithRaw(contents, raw) == Success(contents);
  }

  /** The raw CSS comes last, after one separator when sheets were read. */
  lemma CssTextRaw(contents: seq<string>, t: string)
    requires t != ""
    ensures |contents| == 0 ==> CssText(contents, RawString(t)) == Success(t)
    ensures |contents| > 0 ==> CssText(contents, RawString(t)) == Success(JoinSheets(contents) + Separator + t)
  {
    var all := contents + [t];
    assert WithRaw(contents, RawString(t)) == Success(all);
    assert CssText(contents, RawString(t)) == Success(JoinSheets(all));
    if |contents| == 0 {
      assert all == [t];
    } else {
      JoinAppend(contents, [t]);
    }
  }

  lemma PrefixOfTriple(a: string, b: string, c: string)
    ensures StartsWith(a + b + c, a)
  {
    assert (a + b + c)[..|a|] == a;
  }

  lemma PrefixOfConcat(a: string, b: string)
    ensures StartsWith(a + b, a)
  {
    assert (a + b)[..|a|] == a;
  }

  /** The read sheets open the text, in order. */
  lemma CssTextStartsWithSheets(contents: seq<string>, raw: RawOption)
    requires CssText(contents, raw).Success? && |contents| > 0
    ensures StartsWith(CssText(contents, raw).value, JoinSheets(contents))
  {
    var j := JoinSheets(contents);
    if AddsRaw(raw) {
      RawAfterSheets(contents, raw.text);
    } else {
      CssTextErrors(contents, raw);
      CssTextPlain(contents, raw);
      PrefixOfConcat(j, "");
      assert j + "" == j;
    }
  }

  lemma RawAfterSheets(contents: seq<string>, t: string)
    requires t != "" && |contents| > 0
    ensures StartsWith(CssText(contents, RawString(t)).value, JoinSheets(contents))
  {
    var j := JoinSheets(contents);
    CssTextRaw(contents, t);
    PrefixOfTriple(j, Separator, t);
  }
}
