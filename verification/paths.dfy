/** Where the stylesheets a page links to are read from: the `isURL` test
    and `parsePaths`, in its current form and in the earlier engine's form.
    The URL parser, the URL resolver, the path joiner, `dirname` and the
    raw-HTML test are oracles. */
module Paths {
  import opened Wrappers
  import opened Text

  /** The regular expression `/^https?/`, alternative by alternative. */
  predicate UrlPattern(s: string) {
    StartsWith(s, "https") || StartsWith(s, "http")
  }

  /** `isURL`. */
  predicate IsUrl(s: string) {
    UrlPattern(s)
  }

  /** The optional `s` adds nothing: a URL is anything that begins with
      `http`, whatever follows. */
  lemma IsUrlIsHttp(s: string)
    ensures IsUrl(s) <==> StartsWith(s, "http")
  {
    if StartsWith(s, "https") {
      assert s[..4] == s[..5][..4];
    }
  }

  lemma UrlExamples(rest: string)
    ensures IsUrl("http://" + rest) && IsUrl("https://" + rest) && IsUrl("httpfoo")
    ensures !IsUrl("//" + rest) && !IsUrl("ftp://" + rest) && !IsUrl("./" + rest)
    ensures forall s: string :: |s| < 4 ==> !IsUrl(s)
  {
    assert ("http://" + rest)[..4] == "http";
    assert ("https://" + rest)[..4] == "http";
    IsUrlIsHttp("http://" + rest);
    IsUrlIsHttp("https://" + rest);
    assert ("//" + rest)[0] == '/';
    assert ("ftp://" + rest)[0] == 'f';
    assert ("./" + rest)[0] == '.';
  }

  /** The engine that read the paths: the earlier one has no raw-HTML
      branch. */
  datatype Engine = Current | Legacy

  /** The libraries the classification calls: `url.parse(source).protocol`
      (possibly null), `url.resolve`, `path.join` with two and three
      parts, `path.dirname`, and the `is-html` test. */
  datatype Oracles = Oracles(
    protocol: string -> Option<string>,
    resolve: (string, string) -> string,
    join2: (string, string) -> string,
    join3: (string, string, string) -> string,
    dirname: string -> string,
    isHtml: string -> bool)

  /** `htmlroot` is unset when empty (undefined and `''` are both falsy). */
  datatype Options = Options(htmlroot: string, csspath: string)

  /** `sheet.split('?')[0].split('#')[0]`: the longest prefix with no `?`
      and no `#`. */
  function StripQuery(sheet: string): (r: string)
    ensures StartsWith(sheet, r) && '?' !in r && '#' !in r
    ensures |r| < |sheet| ==> sheet[|r|] == '?' || sheet[|r|] == '#'
  {
    var a := Before(sheet, '?');
    var b := Before(a, '#');
    assert StartsWith(sheet, b) by {
      assert sheet[..|b|] == sheet[..|a|][..|b|];
    }
    assert '?' !in b by {
      forall i | 0 <= i < |b|
        ensures b[i] != '?'
      {
        assert b[i] == a[i];
      }
    }
    b
  }

  /** The protocol used for a protocol-relative sheet: the page's, when it
      was fetched over http(s) and has one, otherwise `http:`. */
  function ProtocolFor(source: string, o: Oracles): string {
    if IsUrl(source) && o.protocol(source).Some? && o.protocol(source).value != "" then o.protocol(source).value
    else "http:"
  }

  /** The path of one stylesheet link found on `source`. */
  function Resolve(e: Engine, source: string, sheet: string, opts: Options, o: Oracles): string {
    if StartsWith(sheet, "http") then sheet
    else if StartsWith(sheet, "//") then ProtocolFor(source, o) + sheet
    else if IsUrl(source) then o.resolve(source, sheet)
    else
      var local := StripQuery(sheet);
      if |local| > 0 && local[0] == '/' && opts.htmlroot != "" then o.join2(opts.htmlroot, local)
      else if e == Current && o.isHtml(source) then o.join2(opts.csspath, local)
      else o.join3(o.dirname(source), opts.csspath, local)
  }

  /** `parsePaths`. */
  function ParsePaths(e: Engine, source: string, sheets: seq<string>, opts: Options, o: Oracles): (r: seq<string>)
    ensures |r| == |sheets|
  {
    if |sheets| == 0 then [] else [Resolve(e, source, sheets[0], opts, o)] + ParsePaths(e, source, sheets[1..], opts, o)
  }

  /** Each sheet is resolved on its own: the paths of two lists of sheets
      are the paths of each, in order. */
  lemma {:induction false} ParsePathsAppend(e: Engine, source: string, a: seq<string>, b: seq<string>, opts: Options, o: Oracles)
    ensures ParsePaths(e, source, a + b, opts, o) == ParsePaths(e, source, a, opts, o) + ParsePaths(e, source, b, opts, o)
  {
    if |a| > 0 {
      ParsePathsAppend(e, source, a[1..], b, opts, o);
      assert (a + b)[1..] == a[1..] + b;
      assert (a + b)[0] == a[0];
      var head := [Resolve(e, source, a[0], opts, o)];
      assert ParsePaths(e, source, a + b, opts, o) == head + ParsePaths(e, source, a[1..] + b, opts, o);
      assert ParsePaths(e, source, a, opts, o) == head + ParsePaths(e, source, a[1..], opts, o);
    } else {
      assert a + b == b;
    }
  }

  /** The path at each position is the sheet at that position, resolved. */
  lemma {:induction false} ParsePathsAt(e: Engine, source: string, sheets: seq<string>, opts: Options, o: Oracles, i: nat)
    requires i < |sheets|
    ensures ParsePaths(e, source, sheets, opts, o)[i] == Resolve(e, source, sheets[i], opts, o)
  {
    if i > 0 {
      ParsePathsAt(e, source, sheets[1..], opts, o, i - 1);
    }
  }

  /** A sheet beginning with `http` is already a full address. */
  lemma HttpSheetKept(e: Engine, source: string, sheet: string, opts: Options, o: Oracles)
    requires IsUrl(sheet)
    ensures Resolve(e, source, sheet, opts, o) == sheet
  {
    IsUrlIsHttp(sheet);
  }

  /** A protocol-relative sheet gets the page's protocol, or `http:` when
      the page is a local file or its protocol is unknown. */
  lemma ProtocolRelative(e: Engine, source: string, sheet: string, opts: Options, o: Oracles)
    requires StartsWith(sheet, "//")
    ensures exists p :: (Resolve(e, source, sheet, opts, o) == p + sheet &&
                         (p == "http:" || (IsUrl(source) && o.protocol(source) == Some(p))))
    ensures !IsUrl(source) ==> Resolve(e, source, sheet, opts, o) == "http:" + sheet
    ensures IsUrl(source) && o.protocol(source).Some? && o.protocol(source).value != "" ==>
      Resolve(e, source, sheet, opts, o) == o.protocol(source).value + sheet
    ensures !(IsUrl(source) && o.protocol(source).Some? && o.protocol(source).value != "") ==>
      Resolve(e, source, sheet, opts, o) == "http:" + sheet
  {
    assert sheet[0] == '/';
    assert !StartsWith(sheet, "http");
    var p := ProtocolFor(source, o);
    assert Resolve(e, source, sheet, opts, o) == p + sheet;
  }

  /** A sheet on a page fetched over http(s) is handed to the URL
      resolver as written, query and fragment included. */
  lemma RemoteResolved(e: Engine, source: string, sheet: string, opts: Options, o: Oracles)
    requires IsUrl(source) && !StartsWith(sheet, "http") && !StartsWith(sheet, "//")
    ensures Resolve(e, source, sheet, opts, o) == o.resolve(source, sheet)
  {
  }

  lemma StartsWithPrefix(s: string, q: string, p: string)
    requires StartsWith(s, q) && StartsWith(q, p)
    ensures StartsWith(s, p)
  {
    assert s[..|p|] == s[..|q|][..|p|];
  }

  lemma BeforeAbsent(s: string, c: char)
    requires c !in s
    ensures Before(s, c) == s
  {
    var r := Before(s, c);
    assert |r| == |s|;
    assert s[..|r|] == s;
  }

  /** Stripping twice strips nothing more. */
  lemma StripQueryIdempotent(sheet: string)
    ensures StripQuery(StripQuery(sheet)) == StripQuery(sheet)
  {
    var q := StripQuery(sheet);
    BeforeAbsent(q, '?');
    BeforeAbsent(q, '#');
  }

  /** For a local page, a query string or a fragment on the sheet does not
      change where it is read from. */
  lemma LocalQueryIgnored(e: Engine, source: string, sheet: string, opts: Options, o: Oracles)
    requires !IsUrl(source) && !StartsWith(sheet, "http") && !StartsWith(sheet, "//")
    ensures Resolve(e, source, sheet, opts, o) == Resolve(e, source, StripQuery(sheet), opts, o)
  {
    var q := StripQuery(sheet);
    StripQueryIdempotent(sheet);
    if StartsWith(q, "http") {
      StartsWithPrefix(sheet, q, "http");
    }
    if StartsWith(q, "//") {
      StartsWithPrefix(sheet, q, "//");
    }
  }

  /** The two engines differ only for a page given as raw HTML, whose
      relative sheets the current engine joins to `csspath` alone. */
  lemma EnginesAgree(source: string, sheet: string, opts: Options, o: Oracles)
    ensures !o.isHtml(source) ==>
      Resolve(Current, source, sheet, opts, o) == Resolve(Legacy, source, sheet, opts, o)
    ensures o.isHtml(source) && Resolve(Current, source, sheet, opts, o) != Resolve(Legacy, source, sheet, opts, o) ==>
      Resolve(Current, source, sheet, opts, o) == o.join2(opts.csspath, StripQuery(sheet)) &&
      Resolve(Legacy, source, sheet, opts, o) == o.join3(o.dirname(source), opts.csspath, StripQuery(sheet))
  {
  }
}
