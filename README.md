# Notion equation fixer: scanner, selector and pass loop

The repository drives a Notion page through Selenium. It converts inline `$…$` and `$$…$$`
LaTeX into equation blocks. Its logic lives in three places:

- **`JS_FIND_MATCHES`** finds the page canvas (`.notion-page-content`) and its visible leaf
  blocks (`data-content-editable-leaf="true"`, `offsetParent !== null`). It walks each leaf's
  text nodes with a `TreeWalker` and runs the global regex `/\$\$(.+?)\$\$|\$(.+?)\$/gs` over
  every node. It returns one record per match: the leaf's XPath (from `getXPath`), the
  text-node index, the offsets and a preview.
- **`JS_SELECT_MATCH`** resolves such a record back to its element and then checks, in this
  order, that the element exists, that the text-node index is in range and that the offsets
  are valid. It replaces the window selection with that one range and focuses the nearest
  `contenteditable="true"` ancestor-or-self.
- **`process_all_matches`** runs at most `max_passes` passes. Each pass expands toggles,
  scans, stops on an empty scan, and selects only the first record. When the selection
  succeeds, it sends the conversion shortcut and counts one conversion.

`notion_eqn_fix.py` holds a second copy of the two scripts (lines 101-176 and 178-230) and
of the loop (lines 400-446). They are identical to `constants.py` and `fix_notion_eqns.py`
apart from indentation. Each piece is modelled once, and the table cites whichever copy holds
the property.

The page is a value tree (`Dom.Node`: text nodes and elements with a name, attributes,
classes, a rendered flag, `innerText` and children). Elements are addressed by child-index
paths, so the object identity `sib === el` becomes path equality. The modules:

- **`Strings`:** the string helpers the scripts use, namely `toLowerCase`, number to text,
  `indexOf`, `slice` and `join`.
- **`Regex`:** a small backtracking engine for literals, the lazy group `(.+?)` and
  alternation. It covers both the Python and the JavaScript meaning of `.`, with and without
  the dot-all flag, and parses the `DOLLAR_RE` source text.
- **`Delimiters`:** a direct matcher for the dollar pattern (`MatchAt`, `Exec`, `Matches`),
  proved equal to the regex engine.
- **`Dom`:** the tree, `querySelectorAll` document order (`ElementOrder`) and the
  `TreeWalker(SHOW_TEXT)` order (`TextNodes`).
- **`XPath`:** `getXPath` as a method and as a structured value with its text. It also holds
  the resolution of the two shapes it produces.
- **`Scanner`:** `JS_FIND_MATCHES`, as the methods `FindMatches`, `ScanLeaf` and `ExecAll`,
  specified by the function `Scan`.
- **`MatchRefs`:** the `MatchRef` record handed to the selector.
- **`Selector`:** `JS_SELECT_MATCH`, as the class `Page`, whose `Select` method updates the
  selection and focus fields, specified by `SelectOn`.
- **`Controller`:** the pass loop, as a method over any page type and the four browser steps.
  `PageSteps` plugs in the modelled scan and selector.

## Model

| member | source | states |
|---|---|---|
| Strings.Lower | constants.py:45 | `toLowerCase` keeps the length and maps each character through ASCII lower-casing |
| Strings.NatToString | constants.py:46 | the decimal text of `idx` is non-empty and all digits |
| Strings.DigitsValueOfNatToString | constants.py:46 | reading the decimal text of `n` back gives `n` |
| Strings.Join | constants.py:50 | `parts.join(sep)`; no contract of its own: `ParseJoinedSteps` states that the joined step texts read back |
| Strings.IndexOf | constants.py:68 | the first index of `c`, or the length exactly when `c` does not occur (`indexOf(...) === -1`) |
| Strings.Slice | constants.py:88 | `slice(a, b)` with `a <= b <= length` is the subsequence `s[a..b]` |
| Regex.DollarSourceIsTwoAlternatives | constants.py:63 | the pattern text parses into exactly two alternatives: `$ $ .+? $ $` and `$ .+? $` |
| Regex.DotAccepts | constants.py:3 | what `.` accepts: every character with `re.DOTALL` or the `s` flag; without it Python refuses `\n`, JavaScript also `\r`, U+2028 and U+2029; no contract of its own: `FlavorsAgreeAlternatives` and `FlagMattersForCarriageReturn` state its consequences |
| Regex.MatchSeq | constants.py:63 | a match of a sequence of items ends inside the string, at or after its start |
| Regex.LazyFrom | constants.py:63 | the lazy group's match (shortest first) ends inside the string |
| Regex.MatchAlternatives | constants.py:63 | there is no match exactly when no alternative matches at that position |
| Regex.Search | constants.py:80 | `exec` returns the leftmost position where the pattern matches; nothing matches before it, and with no result nothing matches anywhere |
| Regex.PythonDollar | notion_eqn_fix.py:48 | `DOLLAR_RE` is the Python flavour with `re.DOTALL` and the two alternatives |
| Regex.JsDollar | notion_eqn_fix.py:143 | the script's regex is the JavaScript flavour with the `s` flag and the same two alternatives |
| Regex.PythonAndJsDollarAgree | notion_eqn_fix.py:48 | the Python and JavaScript patterns find the same match from every position of every string |
| Regex.FlavorsAgreeAlternatives | notion_eqn_fix.py:143 | with dot-all, both flavours match any alternatives identically at a position |
| Regex.FlagMattersForCarriageReturn | constants.py:3 | an illustration only, about a pattern the source does not use: without the dot-all flag the flavours differ, since Python's `.` accepts `\r` in `$\r$` and JavaScript's does not (this is why the flag matters for `PythonAndJsDollarAgree`) |
| Delimiters.DoubleClose | constants.py:63 | the first `$$` at or after a position, or none at all after it |
| Delimiters.SingleClose | constants.py:63 | the first `$` at or after a position, or none at all after it |
| Delimiters.MatchAt | constants.py:63 | a match spans at least three characters with `$` at both ends; the `$$…$$` form wins whenever it applies, with the shortest content; otherwise the `$…$` form, shortest; none exactly when neither applies |
| Delimiters.SpansAreTheMatch | constants.py:63 | every shortest `$$…$$` span is the match, and so is every shortest `$…$` span where the double form does not apply |
| Delimiters.MatchAtIsTheRegex | constants.py:63 | the direct matcher equals the regex engine on the JavaScript pattern at every position |
| Delimiters.MatchAtIsBothAlternatives | constants.py:63 | the direct matcher is the two alternatives tried in order |
| Delimiters.DoubleAlternativeIsDoubleClose | constants.py:63 | the first alternative matches exactly up to the first `$$` after one content character |
| Delimiters.SingleAlternativeIsSingleClose | constants.py:63 | the second alternative matches exactly up to the first `$` after one content character |
| Delimiters.LazyDoubleClose | constants.py:63 | `(.+?)` followed by `$$` stops at the first closing `$$` |
| Delimiters.LazySingleClose | constants.py:63 | `(.+?)` followed by `$` stops at the first closing `$` |
| Delimiters.Exec | constants.py:80 | `re.exec` from `lastIndex` returns the leftmost match at or after it; no position before it matches, and none matches when it returns `null` |
| Delimiters.ExecIsTheRegexSearch | constants.py:80 | the direct `exec` equals the regex engine's leftmost search |
| Delimiters.MatchesFrom | constants.py:78-90 | every collected span is a match inside the string of length at least three, and the spans do not overlap and are increasing |
| Delimiters.ExecThenRest | constants.py:78-90 | after a match the scan resumes at its end, which lies strictly after the old `lastIndex` |
| Delimiters.ExecEnds | constants.py:80 | when `exec` returns `null` nothing more is collected |
| Delimiters.MatchesFromCover | constants.py:78-90 | every position where the pattern matches is covered by a collected span |
| Delimiters.Matches | constants.py:78-80 | the spans `exec` yields for one text node from `lastIndex = 0`; no contract of its own: `MatchesFrom` states they are non-overlapping increasing matches and `MatchesFromCover` that they cover every match |
| Delimiters.NoDollarNoMatch | constants.py:76 | a string without `$` has no match |
| Delimiters.DoubleOpenSingleClose | constants.py:63 | an illustration on one string (the general facts are `MatchAt` and `MatchAtIsTheRegex`): `$$x$` is one match, the whole string, through the single form |
| Delimiters.ContentSpansLines | constants.py:63 | an illustration on one string of the `s` flag: the content may contain a newline, so `$a\nb$` matches whole |
| Dom.ElementOrder | constants.py:24-28 | the pre-order list of element paths that `querySelector` and `querySelectorAll` walk; no contract of its own: `ElementOrderIsElements` states what it lists and `ElementOrderOrdered` its order |
| Dom.ElementOrderIsElements | constants.py:28 | document order lists exactly the elements of the tree |
| Dom.ElementOrderOrdered | constants.py:24-28 | the list is in document order (`Precedes`: an ancestor before its descendants, else the smaller child index where paths part), so no element is listed twice |
| Dom.Siblings | constants.py:37 | `el.parentNode.childNodes` for an element; no contract of its own: `SiblingsHold` states that the element is its own `Last(p)`-th sibling |
| Dom.Attribute | constants.py:142 | `getAttribute(key)`: the attribute's value, or `null` when it is absent; no contract of its own |
| Dom.IdOf | constants.py:32 | `el.id`: the `id` attribute, or the empty string without one; no contract of its own: `Encode` states that only a non-empty one selects the id form |
| Dom.TextNodes | constants.py:54-60 | the text nodes `TreeWalker(el, SHOW_TEXT)` yields; no contract of its own: `ForestTextsAreTextNodes`, `ForestTextsComplete`, `ForestTextsOrdered` and `TextNodesComplete` state that they are all of the element's text descendants, each once, in document order |
| Dom.ForestTextsAreTextNodes | constants.py:54-60 | every node the text walker yields is a text node at that path below the element, with that value |
| Dom.ForestTextsComplete | constants.py:54-60 | the walker misses nothing: every text node below the element is yielded, with its path and value |
| Dom.ForestTextsOrdered | constants.py:54-60 | the walker yields text nodes in document order (`PathBefore`), so no text node is yielded twice |
| Dom.TextNodesComplete | constants.py:116-119 | every text node below the element at a document path appears in that element's `TextNodes`, at some walker index |
| XPath.StepFor | constants.py:35-46 | a step's tag is the lower-cased name; the index appears iff `nb > 1`, then `1 <= idx <= nb`, and `idx` is one plus the number of same-name element siblings before the element |
| XPath.Steps | constants.py:34-49 | one step per element on the path, from the top of the document down |
| XPath.StepsAt | constants.py:34-49 | the `k`-th step is the step of the `k`-th ancestor-or-self, counted from the top |
| XPath.Encode | constants.py:31-50 | an element with an id is addressed by that id, any other by one step per ancestor-or-self |
| XPath.Render | constants.py:32-50 | the XPath text of a path: `//*[@id="id"]` or `/` followed by the `/`-joined parts; no contract of its own: `ParseRendered` states that it reads back |
| XPath.XPathOf | constants.py:31-51 | the string `getXPath(el)` returns; no contract of its own: `GetXPath` computes it and `AddressRoundTrip` states that it resolves back to the element |
| XPath.RenderSteps | constants.py:47 | each part is the text of its step (`tag` or `tag[idx]`) |
| XPath.GetXPath | constants.py:31-51 | the method's walk up through `parentNode` with `unshift` builds the text of `Encode` |
| XPath.StepText | constants.py:35-46 | the sibling loop with its mutable `nb` and `idx` builds the text of the element's step |
| XPath.ParseSteps | constants.py:50 | a parsed `/`-joined step list is never empty |
| XPath.ParseXPath | constants.py:105-107 | reads the two shapes `getXPath` writes and nothing else; no contract of its own: `ParseRendered` states that it inverts `Render` on readable paths |
| XPath.ParseRendered | constants.py:31-50 | reading the text of a readable path gives the path back |
| XPath.ParseRenderedId | constants.py:32 | the text `//*[@id="id"]` reads back as the id path when the id has no `"` |
| XPath.ParseRenderedAbsolute | constants.py:50 | the text `/` + joined parts reads back as its steps when the tags are good |
| XPath.ParseRenderedStep | constants.py:46 | a step's text reads back as the step and contains no `/` |
| XPath.ParseJoinedSteps | constants.py:50 | the `/`-joined step texts read back as the steps |
| XPath.Hits | constants.py:105-108 | the child indexes a name test selects are element children |
| XPath.StepFrom | constants.py:105-108 | a child step selects only elements |
| XPath.StepAll | constants.py:105-108 | a step over a context selects only elements |
| XPath.Evaluate | constants.py:105-108 | a non-empty location path selects only elements |
| XPath.FirstWithId | constants.py:105-108 | the id test `@id="id"`: the first element of the order that carries an `id` attribute with that value, none exactly when no listed element does |
| XPath.EmptyIdNotFound | constants.py:105-111 | an illustration of the attribute test: `//*[@id=""]` on a page without `id` attributes resolves to nothing |
| XPath.Resolve | constants.py:105-108 | `document.evaluate` with `FIRST_ORDERED_NODE_TYPE` on a parsed path: the first element in document order the path selects; no contract of its own: `EvaluateFindsElement`, `FirstWithIdFinds` and `ResolveText` state what it yields |
| XPath.ResolveText | constants.py:105-108 | `elementByXPath` yields an element when it yields anything |
| XPath.HitsOfElement | constants.py:38-43 | with consistent names, the name test counts the same siblings as `nb`, and the element is hit number `idx` |
| XPath.StepFindsElement | constants.py:38-46 | the element's own step, taken from its parent, selects exactly the element |
| XPath.EvaluateFindsElement | constants.py:34-50 | the element's steps, evaluated from the document, select exactly the element |
| XPath.FirstWithIdFinds | constants.py:32 | a non-empty `el.id` that no other element has is found by the id test |
| XPath.AddressRoundTrip | notion_eqn_fix.py:185-188 | resolving the text `getXPath` built for an addressable element yields that element |
| Scanner.PageRoot | constants.py:24-25 | the canvas found is an element with the class `notion-page-content`, and there is none exactly when no element of the document has that class |
| Scanner.FirstRoot | constants.py:24-25 | `querySelector('.notion-page-content')`: the first canvas in document order, or none exactly when no element has the class |
| Scanner.Filter | constants.py:28-29 | the candidates are exactly the visible leaf blocks below the canvas |
| Scanner.Candidates | constants.py:28-29 | every candidate is a visible leaf block below the canvas (the converse is `CandidatesAreTheLeaves`) |
| Scanner.CandidatesAreTheLeaves | constants.py:28-29 | an element is a candidate exactly when it is a visible leaf block below the canvas |
| Scanner.FilterOrigin | constants.py:28-29 | every entry the filter keeps is an entry of the list it filters |
| Scanner.FilterKeepsOrder | constants.py:28-29 | the filter keeps the list's order: two kept entries come in the order they had |
| Scanner.CandidatesOrdered | constants.py:28-29 | the candidates come in document order (`Precedes`), each once, as `querySelectorAll` returns them |
| Scanner.PreviewStart | constants.py:88 | `max(0, start-10)` is at most `start` |
| Scanner.PreviewEnd | constants.py:88 | `min(length, end+10)` lies within the string and at or after `end` |
| Scanner.Preview | constants.py:88 | the preview holds the match, at most ten characters on each side, and exactly ten where the string has them |
| Scanner.PreviewShowsMatch | constants.py:88 | the same facts for `s.slice(lo, hi)` itself |
| Scanner.SpanRecords | constants.py:83-89 | one record per span |
| Scanner.SpanRecordsAt | constants.py:83-89 | the `k`-th record is the record of the `k`-th span |
| Scanner.NodeRecords | constants.py:78-90 | the records of one text node: one per match that `exec` yields; no contract of its own: `NodeRecordsAreMatches` and `NodeRecordsNeedDollar` state what they hold |
| Scanner.NodeRecordsNeedDollar | constants.py:76 | a text node without `$` contributes no record |
| Scanner.NodeRecordsAreMatches | constants.py:78-90 | each record of a text node names the leaf's XPath and the node's index, spans a match and carries its preview; records do not overlap and are increasing |
| Scanner.FlattenOrdered | constants.py:65-92 | the nested pushes keep block order and, inside a block, entry order |
| Scanner.FlattenOrigin | constants.py:65-92 | every pushed record comes from one of the blocks |
| Scanner.FlattenIncludes | constants.py:65-92 | every record of every block is pushed |
| Scanner.LeafRecords | constants.py:65-92 | the records of one candidate: none when its `innerText` has no `$`, else those of its text nodes in walker order; no contract of its own: `LeafSound`, `LeafComplete` and `LeafOrdered` state what they hold |
| Scanner.Scan | constants.py:21-95 | what `JS_FIND_MATCHES` returns; no contract of its own: `ScanSound`, `ScanComplete`, `ScanCoversEveryTextNode`, `ScanOrdered` and `EmptyCases` state what it holds |
| Scanner.FindMatches | constants.py:22-95 | the script's loop over the candidates returns `Scan` |
| Scanner.ScanLeaf | constants.py:65-92 | one candidate's quick skip, text-node walk and per-node skip return its records |
| Scanner.ExecAll | constants.py:78-90 | the `exec` loop from `lastIndex = 0` returns one record per match, in order |
| Scanner.EmptyCases | constants.py:24-25 | no canvas gives `[]`, and a leaf whose `innerText` has no `$` gives nothing |
| Scanner.LeafSound | constants.py:65-92 | every record of a leaf describes a match in one of its text nodes |
| Scanner.ScanSound | constants.py:65-92 | every returned record comes from a visible leaf below the canvas; `nodeIndex` is below its text-node count, and the span is a match in that node with its preview |
| Scanner.LeafComplete | constants.py:73-91 | in a leaf whose `innerText` shows `$`, every matching position of a text node is covered by a record for that node |
| Scanner.ScanComplete | constants.py:65-92 | nothing is missed: in a visible leaf whose `innerText` shows `$`, every matching position of its `ti`-th walker text node is covered by a returned record with that `nodeIndex` |
| Scanner.ScanCoversEveryTextNode | constants.py:65-92 | nothing is missed, stated on the tree: for every text node below a visible leaf whose `innerText` shows `$`, every matching position is covered by a returned record whose `nodeIndex` names that very text node |
| Scanner.LeafOrdered | constants.py:73-91 | a leaf's records come by ascending `nodeIndex`, then by position without overlap |
| Scanner.ScanOrdered | constants.py:65-92 | records of a leaf earlier in document order (`Precedes`) come first; within one leaf, by `nodeIndex`, then by `start` without overlap |
| Scanner.QuickSkipLosesNothing | constants.py:66-68 | when `innerText` is the text of the leaf's text nodes, the quick skip drops no record |
| MatchRefs.FromRecord | fix_notion_eqns.py:278-283 | the selector's argument dictionary: the record's `xpath`, `nodeIndex`, `start` and `end`, the preview dropped; no contract of its own: `DescribedRefWellFormed` and `ScanRefsWellFormed` state what it holds for scanned records |
| MatchRefs.RefOfMatch | constants.py:81-82 | a reference to a match is well formed and covers both delimiters |
| MatchRefs.DescribedRefWellFormed | notion_eqn_fix.py:161-162 | a record that describes a match gives a well-formed reference inside its text node |
| MatchRefs.ScanRefsWellFormed | notion_eqn_fix.py:29-45 | every reference built from the scan has `node_index >= 0` and `0 <= start < end`; the span is at least three characters of its text node with `$` first and last |
| Selector.Check | constants.py:110-129 | the checks in order: not found iff no element; index error iff found and index out of range; offset error iff index in range and offsets invalid; accepted iff all pass, with that text node and those offsets |
| Selector.Editable | constants.py:142-143 | `getAttribute('contenteditable') === "true"` on an element; no contract of its own: `FocusTarget` states the walk it stops |
| Selector.ParentElement | constants.py:144 | `parentElement` is the parent of a nested element and `null` for a child of the document |
| Selector.FocusTarget | constants.py:140-146 | the nearest editable ancestor-or-self; none exactly when no ancestor-or-self is editable |
| Selector.FindFocusTarget | constants.py:140-146 | the walk up through `parentElement` stops at the focus target |
| Selector.SelectOn | constants.py:99-149 | the script never changes the document, and a failed check changes nothing |
| Selector.Page.Select | constants.py:110-148 | the method's updates of the selection and focus fields, and its reply, are those of `SelectOn` |
| Selector.SelectOutcome | constants.py:110-146 | the errors in the script's order, each with its exact condition; a failure leaves the page as it was; success selects exactly one range, from `start` to `end` in the `nodeIndex`-th walker text node of the element the XPath resolves to (a real text node long enough for the offsets), and focus moves to that element's nearest editable ancestor-or-self, or stays where it was when there is none |
| Selector.RecordSelects | notion_eqn_fix.py:195-209 | a record that describes a match passes the index and offset checks; for an addressable element, selecting it succeeds and selects exactly its span |
| Selector.ScanThenSelect | notion_eqn_fix.py:134-140 | on an unchanged tree every scanned record passes the selector's checks, and selecting it succeeds when its leaf is addressable |
| Controller.Succeeded | fix_notion_eqns.py:285 | the Python test `sel_res and sel_res.get("ok")`; no contract of its own: `ReplyOf` states which selector replies pass it |
| Controller.SelectFirst | fix_notion_eqns.py:277-283 | the selector run on `matches[0]` of the pass's scan, with the arguments `FromRecord` builds; no contract of its own: `Pass` and `PageConvertsFirstRecord` state its use |
| Controller.Pass | fix_notion_eqns.py:268-293 | a pass stops iff the scan after the expand step is empty; otherwise it selects `matches[0]` and converts iff the reply is ok, then triggers once on the selected page |
| Controller.Run | fix_notion_eqns.py:267-295 | `processed` never exceeds the passes run, and those never exceed the budget |
| Controller.Budget | fix_notion_eqns.py:267 | the number of iterations of `range(max_passes)`, none for a negative bound; no contract of its own: `ProcessAllMatches` runs exactly that many passes at most |
| Controller.ProcessAllMatches | fix_notion_eqns.py:249-295 | the loop with `break`/`continue` returns what `Run` counts and ends on the page `Run` reaches |
| Controller.ReplyOf | fix_notion_eqns.py:285 | the selector's reply passes the Python test exactly when it is `{ok:true}` |
| Controller.SelectPage | fix_notion_eqns.py:278-283 | `execute_script(JS_SELECT_MATCH, …)` on the modelled page: `SelectOn` with its reply as Python sees it; no contract of its own: `ReplyOf` states which replies pass |
| Controller.ScanPage | fix_notion_eqns.py:272 | `execute_script(JS_FIND_MATCHES)` on the modelled page: `Scanner.Scan` of its tree; no contract of its own |
| Controller.PageSteps | fix_notion_eqns.py:269-289 | the loop's four steps on the modelled page: the given expand and trigger, `JS_FIND_MATCHES` as `Scanner.Scan` and `JS_SELECT_MATCH` as `Selector.SelectOn`; no contract of its own: `PageConvertsFirstRecord` states what a pass does with it |
| Controller.PageConvertsFirstRecord | notion_eqn_fix.py:423-441 | on the modelled page, the first record describes a match in a visible leaf of the expanded page, and the pass converts it when that leaf is addressable |
| Controller.EmptyScanStops | fix_notion_eqns.py:272-274 | an empty scan ends the loop after that pass, counting nothing more |
| Controller.EarlyEndMeansEmptyScan | notion_eqn_fix.py:424-425 | the loop ends before the budget only on a page whose scan is empty |
| Controller.RefusedSelectionSkips | fix_notion_eqns.py:285-287 | a refused or absent reply counts nothing and moves on to the next pass |
| Controller.AcceptedSelectionCounts | fix_notion_eqns.py:289-290 | an ok reply triggers once and adds exactly one |
| Controller.RemovingTriggerConvertsAll | fix_notion_eqns.py:265-295 | if every pass converts and removes one match, `N <= max_passes` pending matches give `N` conversions and `N + 1` passes, or `N` when `N` is the budget |
| Controller.StuckTriggerUsesEveryPass | fix_notion_eqns.py:267-290 | if the match is never removed and every selection succeeds, the loop runs all `max_passes` passes and counts every one |

## Left out

- Browser setup, login and argument handling are I/O against Selenium and Chrome. This
  covers `build_driver`, the stealth tweaks, the page and login waits, and `main`. They are
  not part of this model.
- `time.sleep` pacing is left out because it affects timing only.
- `send_shortcut_and_enter` and `is_mac` dispatch keystrokes. The trigger is a given function
  on the page.
- `JS_EXPAND_TOGGLES` dispatches clicks. The expand step is a given function on the page.
- `scrollIntoView` and the side effects of `focus()` cannot be observed. The model records
  only which element is focused.
- Rendering is not modelled. `offsetParent !== null` is the element's `rendered` flag, and
  `innerText` is a given field. `QuickSkipLosesNothing` covers the case where `innerText`
  equals the text of the text nodes.
- The `TreeWalker` drain loops are the function `Dom.TextNodes` (document order of the text
  nodes below the element), not loops.
- `document.evaluate` is modelled only for the two shapes `getXPath` produces. A text of
  those shapes is evaluated as XPath evaluates it on HTML elements; the id test `@id="…"` holds only for an element
  that carries the `id` attribute, so `//*[@id=""]` finds nothing on a page without such an
  attribute. Any other text resolves to nothing, where a browser would evaluate it or throw.
- `document.evaluate` throws on a malformed text, such as the id form for an id containing
  `"`. `execute_script` then raises out of `process_all_matches`, which has no `try`. In the
  model, `ParseXPath` answers not found instead, the selector replies "Element not found for
  XPath", and `ProcessAllMatches` goes on to the next pass.
- `XPath.AddressRoundTrip` holds only for addressable elements. An id containing `"` is not
  escaped, duplicate ids resolve to the first element in document order, and names that
  differ only in case (which XPath and `nodeName` compare differently) are excluded.
- The tree has no namespaces: every element is modelled as an HTML element, and a name test
  such as `svg` matches any element of that name. In a browser, an unprefixed step in an HTML
  document matches only HTML-namespace elements. A path through SVG or MathML, such as
  `…/svg/foreignobject/div`, resolves to `null` there, so the selector replies "Element not
  found for XPath" and every pass skips that match. `XPath.Addressable` admits such an
  element, and `XPath.AddressRoundTrip`, `Selector.RecordSelects`, `Selector.ScanThenSelect`
  and `Controller.PageConvertsFirstRecord` claim its round trip and conversion, which the
  browser would not give. Notion's leaf blocks are HTML elements.
- Strings are sequences of Unicode scalar values (a Dafny `char`), not the UTF-16 code units
  JavaScript counts. The offsets `start`, `end`, the `slice` bounds and `val.length` agree
  with the script only for text whose characters all lie in the Basic Multilingual Plane; for
  text with emoji or mathematical alphanumerics the model's offsets are smaller than the
  browser's. Lower-casing is ASCII only.
- `ProcessAllMatches` takes the four browser calls as given functions on a page value. The
  real calls go through a driver object. On the modelled page, the scan is `Scanner.Scan`
  and the select step is `Selector.SelectOn`.
- `ProcessAllMatches` models the script's reply as `Null` (for `None`) or a dictionary whose
  `ok` entry may be missing. An empty dictionary is one whose entry is missing, so it is not
  ok, as in Python. Truthy `ok` values other than `true` are not modelled, because the script
  only ever returns `true` or `false` there.
- The default `max_passes = 2000` is a caller's choice and is not modelled.
  `ProcessAllMatches` takes any integer bound, which includes the default.
- The `MatchRef` dataclass carries the same four fields as the dictionary the loop passes
  to the selector. The model uses the datatype for both.
