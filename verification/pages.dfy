/** The page side of the engine: which selectors a loaded page uses, which
    `<link rel="stylesheet">` elements a page contributes, and where a
    root-relative script is fetched from. The DOM lookup
    `document.querySelector` is an oracle returning one of three answers. */
module Pages {
  import opened Wrappers
  import opened Text
  import opened Css
  import Pseudo
  import Seqs
  import Report

  /** What `document.querySelector(selector)` does: returns an element,
      returns null, or throws (a selector the DOM engine cannot parse). */
  datatype Query = Found | NotFound | Throws

  /** The filter callback: the element is truthy, null is falsy, and a
      thrown error keeps the selector. */
  predicate Kept(q: Query) {
    match q
    case Found => true
    case NotFound => false
    case Throws => true
  }

  function KeepFn(query: string -> Query): string -> bool {
    s => Kept(query(s))
  }

  /** `findAll`: the selectors the page matches, failing open. */
  function FindAll(sels: seq<string>, query: string -> Query): seq<string> {
    Seqs.Filter(sels, KeepFn(query))
  }

  /** The search keeps an order-preserving part of its input: a selector
      survives, with all its occurrences, exactly when the lookup did not
      return null. */
  lemma FindAllKeeps(sels: seq<string>, query: string -> Query)
    ensures Seqs.IsSubseq(FindAll(sels, query), sels)
    ensures forall s :: multiset(FindAll(sels, query))[s] ==
                        (if query(s) == NotFound then 0 else multiset(sels)[s])
  {
    Seqs.FilterIsSubseq(sels, KeepFn(query));
    Seqs.FilterCount(sels, KeepFn(query));
  }

  /** A page whose engine rejects every selector keeps all of them. */
  lemma FindAllFailsOpen(sels: seq<string>, query: string -> Query)
    requires forall s :: s in sels ==> query(s) == Throws
    ensures FindAll(sels, query) == sels
  {
    Seqs.FilterAll(sels, KeepFn(query));
  }

  /** The dePseudified selectors of every rule, keyframe stops included, in
      walk order. */
  function Stripped(sels: seq<string>): (r: seq<string>)
    ensures |r| == |sels|
    ensures forall i :: 0 <= i < |sels| ==> r[i] == Pseudo.DePseudify(sels[i])
  {
    if |sels| == 0 then [] else [Pseudo.DePseudify(sels[0])] + Stripped(sels[1..])
  }

  /** `getUsedSelectors`: the candidates searched on one page. */
  function UsedOnPage(css: seq<Node>, query: string -> Query): seq<string> {
    FindAll(Stripped(AllSels(css)), query)
  }

  /** The list one page contributes: the cached list when there is one (an
      empty list counts), otherwise the search. */
  function PageUsed(cached: Option<seq<string>>, css: seq<Node>, query: string -> Query): seq<string> {
    Report.PageSelectors(cached, UsedOnPage(css, query))
  }

  /** Without a cache, a page reports exactly the dePseudified selectors of
      the stylesheet whose lookup did not return null. */
  lemma PageUsedSearched(css: seq<Node>, query: string -> Query)
    ensures forall x :: x in PageUsed(None, css, query) <==>
      (exists s :: s in AllSels(css) && Pseudo.DePseudify(s) == x) && query(x) != NotFound
  {
    var cands := Stripped(AllSels(css));
    var r := PageUsed(None, css, query);
    Seqs.FilterMembers(cands, KeepFn(query));
    assert r == Seqs.Filter(cands, KeepFn(query));
    forall x
      ensures x in r <==> (exists s :: s in AllSels(css) && Pseudo.DePseudify(s) == x) && query(x) != NotFound
    {
      if x in cands {
        var i :| 0 <= i < |cands| && cands[i] == x;
        assert AllSels(css)[i] in AllSels(css);
      }
      if exists s :: s in AllSels(css) && Pseudo.DePseudify(s) == x {
        var s :| s in AllSels(css) && Pseudo.DePseudify(s) == x;
        var i :| 0 <= i < |AllSels(css)| && AllSels(css)[i] == s;
        assert cands[i] == x;
      }
    }
  }

  /** `options.media`: a single value or an array of values, where a value
      may be undefined. */
  datatype MediaOption = One(value: Option<string>) | Many(values: seq<Option<string>>)

  /** A non-array value is wrapped into a one-element array. */
  function Wrap(o: MediaOption): seq<Option<string>> {
    match o
    case One(v) => [v]
    case Many(vs) => vs
  }

  const Defaults: seq<Option<string>> := [Some(""), Some("all"), Some("screen")]

  /** `_.union(['', 'all', 'screen'], options.media)`. */
  function Accepted(o: MediaOption): seq<Option<string>> {
    Seqs.Dedupe(Defaults + Wrap(o))
  }

  /** A stylesheet link: its `href` and `media` attributes, each possibly
      absent. */
  datatype Link = Link(href: Option<string>, media: Option<string>)

  /** `link.getAttribute('media') || ''`. */
  function MediaOf(l: Link): string {
    match l.media
    case Some(m) => m
    case None => ""
  }

  function Shown(accepted: seq<Option<string>>): Link -> bool {
    l => Some(MediaOf(l)) in accepted
  }

  function Hrefs(links: seq<Link>): (r: seq<Option<string>>)
    ensures |r| == |links|
    ensures forall i :: 0 <= i < |links| ==> r[i] == links[i].href
  {
    if |links| == 0 then [] else [links[0].href] + Hrefs(links[1..])
  }

  /** `getStylesheets`: the hrefs of the links whose media is accepted, in
      document order. */
  function Stylesheets(links: seq<Link>, o: MediaOption): seq<Option<string>> {
    Hrefs(Seqs.Filter(links, Shown(Accepted(o))))
  }

  /** The rule without the union: a link is shown when its media is one of
      the three defaults or one of the configured values. */
  predicate ShownBy(o: MediaOption, l: Link) {
    MediaOf(l) == "" || MediaOf(l) == "all" || MediaOf(l) == "screen" || Some(MediaOf(l)) in Wrap(o)
  }

  function ShownByFn(o: MediaOption): Link -> bool {
    l => ShownBy(o, l)
  }

  lemma AcceptedMembers(o: MediaOption)
    ensures forall l :: Shown(Accepted(o))(l) == ShownBy(o, l)
  {
    forall l
      ensures Shown(Accepted(o))(l) == ShownBy(o, l)
    {
      var m := Some(MediaOf(l));
      assert m in Accepted(o) <==> m in Defaults + Wrap(o);
    }
  }

  /** The stylesheets are the hrefs of exactly the links the plain rule
      shows, in document order. */
  lemma StylesheetsByMedia(links: seq<Link>, o: MediaOption)
    ensures Stylesheets(links, o) == Hrefs(Seqs.Filter(links, ShownByFn(o)))
  {
    AcceptedMembers(o);
    Seqs.FilterCongruent(links, Shown(Accepted(o)), ShownByFn(o));
  }

  /** With no `media` option, every link without a media attribute or with
      `all` or `screen` contributes, and nothing else does. */
  lemma DefaultMedia(links: seq<Link>)
    ensures forall l :: ShownBy(One(None), l) <==> MediaOf(l) in ["", "all", "screen"]
    ensures (forall l :: l in links ==> MediaOf(l) in ["", "all", "screen"]) ==>
      Stylesheets(links, One(None)) == Hrefs(links)
  {
    StylesheetsByMedia(links, One(None));
    if forall l :: l in links ==> MediaOf(l) in ["", "all", "screen"] {
      Seqs.FilterAll(links, ShownByFn(One(None)));
    }
  }

  /** A `print` stylesheet is shown only when `print` is configured. */
  lemma PrintMedia(href: Option<string>)
    ensures Stylesheets([Link(href, Some("print"))], One(None)) == []
    ensures Stylesheets([Link(href, Some("print"))], One(Some("print"))) == [href]
  {
    var l := Link(href, Some("print"));
    StylesheetsByMedia([l], One(None));
    StylesheetsByMedia([l], One(Some("print")));
    assert !ShownBy(One(None), l);
    assert ShownBy(One(Some("print")), l);
    assert [l][1..] == [];
  }

  /** `HtmlrootResourceLoader.fetch`: the URL a script element is loaded
      from, or None for an element without a `src` attribute (an empty
      one included). A root-relative `src` is resolved against `htmlroot`
      on disk; anything else keeps the URL the page resolved. */
  function Fetch(src: Option<string>, originalUrl: string, htmlroot: string,
                 join: (string, string) -> string): (r: Option<string>)
    ensures r.None? <==> src.None? || src.value == ""
    ensures r.Some? ==> (r.value == originalUrl || StartsWith(r.value, "file://"))
    ensures r.Some? && src.value[0] == '/' ==> r.value == "file://" + join(htmlroot, src.value)
    ensures r.Some? && src.value[0] != '/' ==> r.value == originalUrl
  {
    match src
    case None => None
    case Some(s) =>
      if s == "" then None
      else if StartsWith(s, "/") then Some("file://" + join(htmlroot, s))
      else Some(originalUrl)
  }
}
