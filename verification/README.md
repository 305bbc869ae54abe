# uncss: the selector-usage filter, in Dafny

uncss removes from a stylesheet the rules that no page uses. Each page is
loaded and every selector of the stylesheet is looked up in its document.
The selectors some page matched are kept, together with those the `ignore`
option protects. Rules left without selectors, `@media` blocks left without
children, and `@keyframes` blocks no animation names are then removed. A
report counts how often each selector was used.

This project models that core as immutable datatypes and pure functions.
The DOM lookup, the user's regular expressions, the path library, the URL
parser and file globbing are oracles passed in as function parameters.

| file | module | what it models |
|---|---|---|
| `wrappers.dfy` | `Wrappers` | `Option` and `Result` |
| `seqs.dfy` | `Seqs` | `Array.prototype.filter`, `_.flatten`, `_.uniq`, subsequences |
| `text.dfy` | `Text` | JavaScript string primitives: prefixes, `\s`, `trim`, `split`, `substring`, decimal numbers |
| `css.dfy` | `Css` | the postcss tree (rules, at-rules, declarations, comments) and its document-order traversals |
| `pseudo.dfy` | `Pseudo` | `dePseudify` of `src/lib.js` and the smaller pseudo-class list of `lib/lib.js` |
| `pseudo_examples.dfy` | `PseudoExamples` | the documented `dePseudify` examples, stated for any colon-free context |
| `select.dfy` | `SelectorFilter` | `filterUnusedSelectors` and the walk of `filterUnusedRules` (`uncss:ignore` comments, keyframe stops, unused-selector records) |
| `list.dfy` | `CssList` | the comma and space splitting used to read `animation` values |
| `prune.dfy` | `Pruning` | `filterEmptyAtRules`, `getUsedAnimations`, `filterKeyframes`, and the whole `filterUnusedRules` |
| `report.dfy` | `Report` | the used-selector union, the per-selector counts, the sorted usage map, and the report |
| `pages.dfy` | `Pages` | `findAll` (fail-open lookups), `getStylesheets` (the `media` filter), the resource loader's URL choice |
| `paths.dfy` | `Paths` | `isURL` and `parsePaths`, in the current engine and in the earlier one |
| `errors.dfy` | `Errors` | the filename banner and `parseErrorMessage` |
| `legacy.dfy` | `LegacyEngine` | the earlier engine: `filterUnusedSelectors` with a page loop, `filterEmptyRules`, both recursive `filterUnusedRules` |
| `orchestration.dfy` | `Orchestration` | `getHTML`'s file list, `getCSS` (`ignoreSheets`, path flattening and dedupe), the raw CSS and the joined text of `processWithTextApi`, the postcss plugin's default |

## Model

An *ordinary rule* below is a rule that stands in the sheet itself or in an
at-rule other than a keyframes block, and not inside another rule
(`Css.LiveSels`).

| member | source | states |
|---|---|---|
| Pseudo.Strip | src/lib.js:40-42 | stripping pseudo-classes never lengthens a selector |
| Pseudo.StripIsSubseq | src/lib.js:17-43 | the stripped selector is an order-preserving subsequence of the input: characters are only deleted |
| Pseudo.DePseudifyNoColon | src/lib.js:18-41 | a selector with no `:` is left unchanged, by the current list and by the earlier engine's list |
| Pseudo.StripColonFreePrefix | src/lib.js:40-42 | a colon-free prefix passes through untouched and the rest is stripped on its own |
| Pseudo.LiteralMatchFirst | src/lib.js:18-38 | the alternation takes the first listed literal that is a prefix, whatever longer literals follow |
| Pseudo.StripLiteral | src/lib.js:18-38 | at a position where listed token `j` is the first listed literal that is a prefix, exactly that token is deleted and the replace resumes after it |
| Pseudo.StripLeftmost | src/lib.js:38-42 | the global replace keeps everything before the leftmost token, deletes that token, and goes on after it |
| Pseudo.StripNoMatch | src/lib.js:38-42 | a selector in which no token starts anywhere is returned unchanged |
| Pseudo.StripScan | src/lib.js:38-42 | the engine's global replace (search the leftmost match from the end of the last one, copy the stretch before it, skip it, copy the tail when no match is left) gives exactly the stripped selector |
| PseudoExamples.AfterFront | src/lib.js:31-32 | `:after`, the last literal of the list, is deleted at the front of any selector |
| PseudoExamples.PseudoElementDropped | tests/depseudify.js:8-9 | `X:before` and `X::before` become `X` for every colon-free `X` |
| PseudoExamples.HoverDropped | src/lib.js:22 | `:hover` inside a colon-free context is removed and nothing else is |
| PseudoExamples.HoverBeforeNot | tests/depseudify.js:20 | `p:hover :not(x):not(y)` becomes `p :not(x):not(y)` |
| PseudoExamples.CheckedSibling | tests/depseudify.js:25-26 | `p:checked q:before` becomes `p q`, as for `input:checked ~ label:before` |
| PseudoExamples.KeepColonFree | src/lib.js:18-36 | a pseudo-class whose name starts with no listed token's second character is kept |
| PseudoExamples.OnlyChild | tests/depseudify.js:28 | `:only-child` is not in the list and is kept |
| PseudoExamples.NthChild | tests/depseudify.js:21 | `:nth-child(x)` is kept |
| PseudoExamples.RootKept | tests/depseudify.js:17 | `:root` is kept |
| PseudoExamples.NotIdempotent | src/lib.js:38-42 | one pass can form a new token: `:ho:hoverver` becomes `:hover`, which a second pass removes |
| SelectorFilter.IgnoreHit | src/lib.js:65-72 | the ignore loop succeeds exactly when some entry equals the selector or its regular expression tests true |
| SelectorFilter.FilterUnusedSelectors | src/lib.js:52-76 | the kept selectors are an ordered subsequence of the rule's, and a selector is kept exactly when its dePseudified form starts with `@`, is ignored, or is used |
| SelectorFilter.DroppedAreRejected | src/lib.js:193-200 | the recorded unused selectors are exactly the rejected ones; kept and unused together are the rule's selectors as a multiset |
| SelectorFilter.MarkerShape | src/lib.js:180 | a comment the ignore test accepts is an optional `!`, an optional space, `uncss:ignore` and an optional space |
| SelectorFilter.MarkerForms | src/lib.js:180 | every comment of that shape is accepted |
| SelectorFilter.RuleStateFacts | src/lib.js:188-208 | after a flagged rule its raw selectors are ignored from then on; a record is added exactly when some selector is rejected, and it holds exactly the rejected ones |
| SelectorFilter.WalkNodesOutline | src/lib.js:177-215 | the walk removes, adds and changes no node outside rules: every comment, declaration and at-rule stays, in order, with the same name and parameters |
| SelectorFilter.WalkNodesSels | src/lib.js:193-213 | the selectors left in the tree are an ordered subsequence of the original ones |
| SelectorFilter.WalkNodesKeeps | src/lib.js:188-213 | every selector of an ordinary rule that the keep test accepts under the ignore list in force when the walk starts is still in an ordinary rule afterwards |
| SelectorFilter.WalkNodesLiveSound | src/lib.js:188-213 | every selector left in an ordinary rule was in one before and is accepted by the keep test under the ignore list as the ignore comments extended it |
| SelectorFilter.WalkNodesNonEmpty | src/lib.js:209-213 | no rule outside a keyframes block is left with zero selectors |
| SelectorFilter.WalkNodesRecords | src/lib.js:202-208 | the walk adds only unused-selector records |
| SelectorFilter.FlaggedRuleKept | src/lib.js:188-191 | a colon-free rule after an ignore comment keeps all its selectors |
| SelectorFilter.MarkerProtects | src/lib.js:178-191 | an ignore comment followed by a colon-free rule leaves both in place, the rule with all its selectors |
| SelectorFilter.FlaggedHoverDropped | src/lib.js:178-200 | a rule `p:hover` right after an ignore comment is still removed when `p` is not used and not otherwise ignored: the raw selector is ignored, but the comparison is made with the dePseudified one |
| SelectorFilter.KeyframesUntouched | src/lib.js:177-187 | a keyframes block whose stops hold declarations and comments, with comments or declarations between them, is left as it is: its stops are not filtered, do not consume the ignore flag and add no record, and only an ignore comment inside the block changes the state, by setting the flag |
| SelectorFilter.CommentedKeyframes | src/lib.js:177-187 | `@keyframes spin { /* start */ from { color: red } }` passes through unchanged and leaves the state as it was |
| SelectorFilter.StopsKept | src/lib.js:184-187 | whatever a keyframes block holds, each stop stays in place with its selector text and selectors |
| SelectorFilter.LeavesUntouched | src/lib.js:177-182 | declarations and comments pass through unchanged, and the state changes only by an ignore comment setting the flag |
| SelectorFilter.DeclsUntouched | src/lib.js:177-215 | declarations pass through the walk unchanged and leave the state as it was |
| CssList.CommaItems | src/lib.js:88 | the comma list always has at least one item, and every item is free of commas and already trimmed |
| CssList.CommaAssembles | src/lib.js:88-93 | the scanner's comma list equals the reference: split at every comma, drop the empty pieces except the last one, trim each |
| Pruning.MediaNodesNoEmpty | src/lib.js:121-128 | after the corrected pruning no `@media` block without children remains at any depth |
| Pruning.MediaPreLeavesEmpty | src/lib.js:123-127 | the parent-first walk as written leaves an outer `@media` empty when its only child is an empty `@media` |
| Pruning.MediaNodesContent | src/lib.js:121-128 | pruning removes no selector, rule text or declaration |
| Pruning.MediaIdempotent | src/lib.js:121-128 | pruning a pruned tree changes nothing |
| Pruning.MediaPreThenMedia | src/lib.js:121-128 | the pass as written differs from the corrected one only by empty `@media` blocks: pruning its result children-first gives the corrected result |
| Pruning.MediaNodesLive | src/lib.js:121-128 | pruning keeps every selector of the ordinary rules, in order |
| Pruning.NamesFromAnimationDecls | src/lib.js:83-98 | a name is collected exactly when some `animation-name` or `animation` declaration lists it |
| Pruning.FirstTokensMembers | src/lib.js:90-94 | from an `animation` value exactly the first blank-separated token of each comma item is taken |
| Pruning.MediaKeepsAnimations | src/lib.js:217-221 | pruning empty `@media` blocks first does not change the animation names collected afterwards |
| Pruning.KeyframesNodesSound | src/lib.js:107-114 | every keyframes block left is named by a used animation, and every record is a block none names |
| Pruning.KeyframesNodesKeep | src/lib.js:107-114 | a tree whose keyframes blocks are all used is returned unchanged, with no records |
| Pruning.KeyframesNodesBlocks | src/lib.js:107-114 | the outermost keyframes blocks left are exactly those whose name is used, in their order: a used block always survives with its contents, apart from nested keyframes blocks, and an unused one never does |
| Pruning.KeyframesNodesRest | src/lib.js:107-114 | outside keyframes blocks the tree is unchanged |
| Pruning.KeyframesNodesLive | src/lib.js:107-114 | the keyframes filter keeps every selector of the ordinary rules, in order |
| Pruning.FilterUnusedRulesSound | src/lib.js:164-224 | the whole filter keeps an ordered subsequence of the selectors, keeps only used keyframes, and records only unused ones |
| Pruning.FilterUnusedRulesLive | src/lib.js:164-224 | an ordinary rule's selector accepted under the initial ignore list survives the whole filter, and every surviving one was in the input and is accepted under the ignore list as extended by ignore comments |
| Css.AllSelsAppend | src/lib.js:149-155 | collecting selectors over two forests gives the two collections, in order |
| Report.CountUsageCounts | src/lib.js:296-300 | each used selector appears once and its count is its number of occurrences over all pages |
| Report.SelectorMapCounts | src/lib.js:306-310 | selectors seen only in the filtered stylesheet get count 0 and the others keep their counts |
| Report.ByUsageSorted | src/lib.js:313-322 | the by-usage list is a permutation of the selector map sorted by non-increasing count |
| Report.SummarizeFacts | src/lib.js:296-346 | `used` is the distinct union of all pages' lists, `all` comes from the filtered tree, `unused` is `all` without the used texts, each other text kept as often as it occurs and in order, and the maps have the right counts and order |
| Pages.FindAllKeeps | src/jsdom.js:134-140 | the kept selectors are an ordered subsequence; a selector survives with all its occurrences exactly when the lookup did not return null |
| Pages.FindAllFailsOpen | src/phantom.js:52-61 | a page on which every lookup throws keeps every selector |
| Pages.PageUsedSearched | src/lib.js:136-142 | without a cache, a page reports exactly the dePseudified selectors whose lookup did not return null |
| Pages.StylesheetsByMedia | src/jsdom.js:96-111 | the hrefs returned are those of the links whose media is empty, `all`, `screen` or configured, in document order |
| Pages.DefaultMedia | src/jsdom.js:96-111 | with no `media` option exactly the links with no media, `all` or `screen` are read |
| Pages.PrintMedia | src/jsdom.js:97-109 | a `print` link is read only when `print` is configured |
| Pages.Fetch | src/jsdom.js:20-33 | no or an empty `src` loads nothing; a root-relative `src` is read from `htmlroot` on disk; any other keeps the page's URL |
| Paths.IsUrlIsHttp | lib/isURL.js:8-10 | a string is a URL exactly when it starts with `http` |
| Paths.UrlExamples | lib/isURL.js:9 | `http://`, `https://` and `httpfoo` are URLs; `//`, `ftp://`, `./` and anything shorter than four characters are not |
| Paths.ParsePathsAt | src/utility.js:18-62 | each sheet's path is that sheet resolved on its own; the list keeps its length and order |
| Paths.ParsePathsAppend | src/utility.js:18-19 | the paths of two lists of sheets are the paths of each, in order |
| Paths.HttpSheetKept | src/utility.js:22-25 | a sheet starting with `http` is returned unchanged |
| Paths.ProtocolRelative | src/utility.js:33-38 | a `//` sheet gets exactly the page's protocol prepended when the page was fetched over http(s) and has a non-empty protocol, and `http:` in every other case |
| Paths.RemoteResolved | src/utility.js:40-42 | on a page fetched over http(s) other sheets go to the URL resolver as written |
| Paths.StripQuery | src/utility.js:50 | the stripped sheet is the longest prefix of the sheet with no `?` and no `#`: it stops at the first of them, or is the whole sheet |
| Paths.LocalQueryIgnored | src/utility.js:44-57 | for a local page a query string or fragment does not change the path |
| Paths.EnginesAgree | src/utility.js:51-59 | the two engines agree except on a raw-HTML page, where the current one joins a relative sheet to `csspath` alone |
| Errors.BannersAt | src/utility.js:89-98 | the result has one entry per file, and entry `i` is the banner of file `i` followed by its contents |
| Errors.BannerRoundTrip | src/utility.js:94 | the first line of a bannered sheet is recognised as a banner and yields the file name plus one trailing space |
| Errors.SearchFindsNearest | src/utility.js:109-116 | the upward search takes its name from the nearest banner line at or above the reported line, or finds none |
| Errors.WindowFacts | src/utility.js:117-129 | at most eleven context lines, numbered from 1 relative to the banner, marked exactly on the reported line, which is present when it lies in the text |
| Errors.WindowShape | src/utility.js:117-129 | the context is exactly the lines `j` from `max(line-6, zeroLine)` below `min(line+5, length)`, each numbered `j+1-zeroLine` |
| Errors.CutBound | src/utility.js:122-125 | a line over 120 characters with a known column is cut to the (at most forty) characters before the column, with the bounds clamped to the line; others are kept whole |
| Errors.ReplaceFirstAt | src/utility.js:132-134 | the first `digits:` occurrence, and only it, is replaced |
| Errors.ReplaceFirstNone | src/utility.js:132-134 | a message without `digits:` is unchanged |
| Errors.FrameShape | src/utility.js:135 | the message starts with the fixed preamble, the file name and `:` and a line break, and ends with a line break |
| Errors.ParseErrorFails | src/utility.js:105-116 | the rewriting throws exactly when a line is reported, no file name is known, and the line lies past the end of the text |
| Errors.ParseErrorShape | src/utility.js:101-137 | a rewritten message has the fixed frame around the name found by the nearest-banner search; with no line the message is only framed |
| LegacyEngine.AskPagesFacts | lib/lib.js:149-172 | the page loop answers with the first page that does not say no: a match, or that page's error; it answers no when every page says no |
| LegacyEngine.FilterSelectorsFacts | lib/lib.js:124-177 | the selector filter fails exactly when some decision fails; otherwise it keeps, in order, the selectors decided true |
| LegacyEngine.KeptMeans | lib/lib.js:129-145 | a kept selector, stripped of the earlier list, starts with `@`, is ignored, or is matched by some page with every earlier page answering no |
| LegacyEngine.FilterEmptyClean | lib/lib.js:180-192 | after `filterEmptyRules` no rule has zero selectors and no media node is empty, at any depth |
| LegacyEngine.FilterEmptyKeepsClean | lib/lib.js:180-192 | a tree with nothing empty is returned unchanged |
| LegacyEngine.FilterEmptyIdempotent | lib/lib.js:180-192 | filtering twice filters no more |
| LegacyEngine.FilterEmptyKeepsContent | lib/lib.js:180-192 | no selector and no node of another type is removed |
| LegacyEngine.TypoHarmless | lib/lib.js:224-240 | although the media result is stored under `rule.sules`, the final `filterEmptyRules` gives the same tree as storing it under `rule.rules` |
| LegacyEngine.FilterUnusedRulesFacts | lib/lib.js:201-246 | the filtered tree is the intended recursive filter, has nothing empty, and keeps every node of another type in order |
| LegacyEngine.UtilityIsIntended | lib/utility.js:40-72 | the single-page filter equals the same recursive filter with the match oracle as the selection |
| LegacyEngine.UtilityFilterFacts | lib/utility.js:50-71 | its result has nothing empty, keeps every other node in order, and every selector left matches the page |
| Orchestration.HtmlFilesFacts | src/uncss.js:19-35 | a single file name acts as a one-element list; the pages are what the arguments expand to, and there is an error exactly when they expand to nothing |
| Orchestration.HtmlFilesLiteral | src/uncss.js:24-29 | an address or raw HTML is loaded as given |
| Orchestration.IgnoreSheetsFacts | src/uncss.js:71-82 | each page keeps its own list, an ordered subsequence holding every occurrence of the sheets no entry names and none of the others |
| Orchestration.IgnoreSheetsUnguarded | src/uncss.js:71-82 | the emptiness guard changes nothing |
| Orchestration.CollectFacts | src/uncss.js:84-101 | the paths have no repetitions, are exactly the pages' sheets resolved against their pages, and are empty exactly when no page links a sheet |
| Orchestration.CollectUnguarded | src/uncss.js:84-101 | the reset to an empty list when nothing is found agrees with flattening and deduplicating anyway |
| Orchestration.PluginIgnoresAll | src/uncss.js:256 | the plugin's default `/\s*/` names every sheet, so no linked sheet is read |
| Orchestration.CssTextErrors | src/uncss.js:115-131 | a truthy non-string `raw` raises the `raw` error; the `no stylesheets` error is raised exactly when nothing was read and no non-empty raw CSS is given |
| Orchestration.CssTextRaw | src/uncss.js:115-139 | non-empty raw CSS comes last, after one `' \n'` separator when sheets were read |
| Orchestration.CssTextPlain | src/uncss.js:129-139 | without raw CSS the text is the read sheets joined with `' \n'` |
| Orchestration.CssTextStartsWithSheets | src/uncss.js:139 | the read sheets open the text, in order |
| Orchestration.JoinAppend | src/uncss.js:139 | joining two non-empty lists puts exactly one separator between their joins |
| Orchestration.JoinLength | src/uncss.js:139 | the text is as long as the sheets plus one separator between each two |

## Left out

- Page loading, DOM mutation (`<noscript>` unwrapping), timeouts, `inject`, PhantomJS and jsdom themselves. `querySelector` and `soupselect` are oracles.
- CSS parsing and stringifying. The tree is given, and the walk-while-removing of postcss is modelled as a pure rebuild of the tree.
- `postcss.list.comma` and `space` are modelled as splitting values that hold no quotes, parentheses or backslashes.
- File and network reads, console logging, the selector-cache files and the selector-map files. The per-page used lists, cached or searched, are inputs.
- `Promise.map` concurrency and the order of asynchronous callbacks. Page results are taken in page order.
- `init`, `process` and the option defaulting with `_.merge`. The `uncssrc` file, `lib/uncss.js`, `lib/phantom.js`, `lib/phantom-script.js` and the CLI are not part of this model.
- The `lastIndex` state of a user regular expression with the `g` flag. A regular expression is a pure test.
- Object key order: JavaScript lists integer-like keys first. The report models keys in insertion order.
- Inherited object keys: the report's maps are plain objects (`src/lib.js:296-310`). For a selector text that names an `Object.prototype` member, such as `constructor` or `toString`, `selectorMap[s] || 0` reads the inherited value, and its count becomes a function or a string. The model starts every count at 0.
- A cache file holding JSON that is not an array of strings.
- `getStylesheets` in `src/uncss.js`, which picks the configured sheets or the pages' links. The per-page link lists are modelled in `Pages`.
- `mapReadFiles` and `showHelp` in `lib/utility.js`.
- Pruning.FilterUnusedRules: runs the corrected children-first `@media` pruning instead of the parent-first pass of `src/lib.js:218` (see Findings). On `@media a { @media b { .x {} } }` with `.x` unused, the code leaves `@media a {}` and the model removes it. MediaPreThenMedia states that this empty block is the only difference.
- Css.Node: an at-rule without a body (`@import url(a.css);`, `@media print;`) is represented as an at-rule with no children. The parser gives such a node no `nodes` list, so on a bodiless `@media` the check at `src/lib.js:124` throws a TypeError and the run fails. Pruning.MediaNodes and MediaPreNodes remove it as an empty `@media` instead.
- Pruning.FirstTokensMembers: an empty comma item of an `animation` value (`animation: a 1s,`) has no first token. The code pushes `undefined` for it (`src/lib.js:93`) and the model pushes nothing. No at-rule's parameters are `undefined`, so the same keyframes blocks are kept.
- SelectorFilter.WalkNodesKeeps, WalkNodesLiveSound and Pruning.FilterUnusedRulesLive: speak of ordinary rules only, so say nothing about rules nested inside other rules or stops of keyframes blocks. The walk still filters nested rules, as WalkNodesSels and WalkNodesNonEmpty state.
- Orchestration.Collect: hrefs are strings. A `<link>` without `href` gives `null` (`src/jsdom.js:106`), on which `src/utility.js:22` throws a TypeError. That failure is not modelled.
- Paths.ParsePaths: a `null` sheet, which the code rejects with a TypeError at `src/utility.js:22`, cannot be passed.
- Errors.Cut: lengths and positions count characters, where JavaScript counts UTF-16 code units (`src/utility.js:123-124`). A line with characters outside the Basic Multilingual Plane can be cut by the code but not by the model, or cut at a different place.
- LegacyEngine.UtilityFilterFacts: requires every media node's query text to be non-empty, for the same reason as UtilityIsIntended.
- Pseudo.StripScan: the vendor alternative `::?-(?:moz|ms|webkit|o)-[a-z0-9-]+` is modelled by hand, as is the regular expression engine's leftmost, first-alternative choice.
- LegacyEngine.Selected: a page error makes `lib/lib.js` store the error object where the selector list belongs, and `filterEmptyRules` then drops the rule. The model gives the rule an empty selector list. A second `done` call after the error is left out.
- LegacyEngine.UtilityIsIntended: requires every media node's query text to be non-empty, because `lib/utility.js` does not recurse into a node whose `media` is the empty string.
- Errors.ParseErrorShape: states the frame, the name and the nearest banner but not the rendered text of each context line. WindowShape and WindowFacts state the window's lines, numbers and marker.
- Errors.Search: reading past the end of the text makes the source throw a TypeError. The model returns a failure carrying the text `TypeError`.
- Orchestration.HtmlFiles: the rewriting of glob matches to the platform's path separator is part of the glob oracle.
- Paths.Resolve: `url.parse`, `url.resolve`, `path.join`, `path.dirname` and `is-html` are oracles. `src/isURL.js` is not part of this model, and a page counts as remote by the `lib/isURL.js` test.

Where the code and its documentation disagree, the model follows the code:
- `dePseudify` is not idempotent (see PseudoExamples.NotIdempotent).
- Test expectations for `:focus-within`, upper case, escaped colons and `::placeholder` (`tests/depseudify.js:10-14,18,22-23,32`) do not follow from the list in `src/lib.js` and are not modelled. The code turns `.sm\:valid\:font-bold:valid` into `.sm\\:font-bold`, because the escaped `:valid` is deleted too, and it deletes the `:hover` inside the quoted attribute value `[data-text="example of :hover pseudo-class"]`.
- A rule after an ignore comment is protected only when its selectors have no listed pseudo-class: the code adds the raw selectors to the ignore list but compares the dePseudified ones (see SelectorFilter.FlaggedHoverDropped).
- `walkDecls` visits declarations inside keyframes blocks too.
- The ignore-comment test is case-sensitive.

## Findings

| source | as written | input that shows it | evidently intended | confidence | as-written member | corrected member |
|---|---|---|---|---|---|---|
| src/lib.js:121-128 | `walkAtRules` visits a parent before its children, so an `@media` whose only child is an `@media` emptied by the same pass is checked while it still has that child | `@media a { @media b { } }` | every `@media` left without rules is removed, at any depth; the whole filter uses this corrected pass | not executed | Pruning.MediaPreLeavesEmpty | Pruning.MediaNodesNoEmpty |
