/**
 * The page scan of `JS_FIND_MATCHES`: find the page canvas, list its visible leaf blocks, and
 * collect one record per delimiter match in every text node of every leaf that contains `$`.
 */
module Scanner {
  import opened Options
  import opened Dom
  import XPath
  import Strings
  import Delimiters

  /** One entry of the returned array. */
  datatype MatchRecord = MatchRecord(xpath: string, nodeIndex: nat, start: nat, end: nat, preview: string)

  const PageContentClass: string := "notion-page-content"
  const LeafAttribute: string := "data-content-editable-leaf"

  predicate IsPageRoot(doc: Document, q: Path) {
    IsElement(doc, q) && PageContentClass in ElementAt(doc, q).classes
  }

  /** The first path of `order` that is the page canvas. */
  function FirstRoot(doc: Document, order: seq<Path>): (r: Option<Path>)
    ensures r.Some? ==> IsPageRoot(doc, r.value) && r.value in order
    ensures r.Some? ==>
      exists i :: 0 <= i < |order| && order[i] == r.value && forall j :: 0 <= j < i ==> !IsPageRoot(doc, order[j])
    ensures r.None? <==> forall q :: q in order ==> !IsPageRoot(doc, q)
  {
    if order == [] then None
    else if IsPageRoot(doc, order[0]) then
      assert order[0] == order[0];
      Some(order[0])
    else
      var r := FirstRoot(doc, order[1..]);
      if r.Some? then
        var i :| 0 <= i < |order[1..]| && order[1..][i] == r.value &&
          forall j :: 0 <= j < i ==> !IsPageRoot(doc, order[1..][j]);
        assert order[i + 1] == r.value;
        r
      else
        r
  }

  /** `document.querySelector('.notion-page-content')`: the first canvas in document order. */
  function PageRoot(doc: Document): (r: Option<Path>)
    ensures r.Some? ==> IsPageRoot(doc, r.value)
    ensures r.None? <==> forall q :: !IsPageRoot(doc, q)
  {
    ElementsAreListed(doc);
    FirstRoot(doc, ElementOrder(doc))
  }

  lemma ElementsAreListed(doc: Document)
    ensures forall q :: IsElement(doc, q) ==> q in ElementOrder(doc)
  {
    forall q | IsElement(doc, q) {
      ElementOrderIsElements(doc, q);
    }
  }

  /** A visible leaf block inside the canvas: a proper descendant of `root` carrying
      `data-content-editable-leaf="true"` and rendered (`offsetParent !== null`). */
  predicate IsCandidate(doc: Document, root: Path, q: Path) {
    IsElement(doc, q) && |root| < |q| && q[..|root|] == root &&
    Attribute(ElementAt(doc, q), LeafAttribute) == Some("true") && ElementAt(doc, q).rendered
  }

  function Filter(doc: Document, root: Path, order: seq<Path>): (r: seq<Path>)
    ensures forall i :: 0 <= i < |r| ==> IsCandidate(doc, root, r[i])
    ensures forall q :: q in r <==> q in order && IsCandidate(doc, root, q)
  {
    if order == [] then []
    else
      var k := |order| - 1;
      Filter(doc, root, order[..k]) + (if IsCandidate(doc, root, order[k]) then [order[k]] else [])
  }

  /** `root.querySelectorAll('[data-content-editable-leaf="true"]')` filtered to the visible
      ones, in document order. */
  function Candidates(doc: Document, root: Path): (r: seq<Path>)
    ensures forall i :: 0 <= i < |r| ==> IsCandidate(doc, root, r[i])
  {
    Filter(doc, root, ElementOrder(doc))
  }

  lemma CandidatesAreTheLeaves(doc: Document, root: Path, q: Path)
    ensures q in Candidates(doc, root) <==> IsCandidate(doc, root, q)
  {
    ElementOrderIsElements(doc, q);
  }

  /** Every entry the filter keeps is an entry of `order`. */
  lemma {:induction false} FilterOrigin(doc: Document, root: Path, order: seq<Path>, i: nat) returns (i2: nat)
    requires i < |Filter(doc, root, order)|
    ensures i2 < |order| && Filter(doc, root, order)[i] == order[i2]
  {
    var k := |order| - 1;
    var front := Filter(doc, root, order[..k]);
    if i < |front| {
      i2 := FilterOrigin(doc, root, order[..k], i);
      assert order[..k][i2] == order[i2];
    } else {
      i2 := k;
    }
  }

  /** The filter keeps the order of `order`: of two kept entries, the earlier one comes earlier
      in `order`. */
  lemma {:induction false} FilterKeepsOrder(doc: Document, root: Path, order: seq<Path>, i: nat, j: nat)
    returns (i2: nat, j2: nat)
    requires i < j < |Filter(doc, root, order)|
    ensures i2 < j2 < |order|
    ensures Filter(doc, root, order)[i] == order[i2] && Filter(doc, root, order)[j] == order[j2]
  {
    var k := |order| - 1;
    var front := Filter(doc, root, order[..k]);
    if j < |front| {
      i2, j2 := FilterKeepsOrder(doc, root, order[..k], i, j);
      assert order[..k][i2] == order[i2] && order[..k][j2] == order[j2];
    } else {
      i2 := FilterOrigin(doc, root, order[..k], i);
      assert order[..k][i2] == order[i2];
      j2 := k;
    }
  }

  /** The candidates come in document order, each once. */
  lemma CandidatesOrdered(doc: Document, root: Path, i: nat, j: nat)
    requires i < j < |Candidates(doc, root)|
    ensures Precedes(Candidates(doc, root)[i], Candidates(doc, root)[j])
    ensures Candidates(doc, root)[i] != Candidates(doc, root)[j]
  {
    var i2, j2 := FilterKeepsOrder(doc, root, ElementOrder(doc), i, j);
    ElementOrderOrdered(doc, i2, j2);
  }

  // ----- the records -----

  /** `Math.max(0, start - 10)`. */
  function PreviewStart(start: nat): (r: nat)
    ensures r <= start
  {
    if start >= 10 then start - 10 else 0
  }

  /** `Math.min(s.length, end + 10)`. */
  function PreviewEnd(s: string, end: nat): (r: nat)
    ensures r <= |s| && (end <= |s| ==> end <= r)
  {
    if end + 10 <= |s| then end + 10 else |s|
  }

  /** `s.slice(PreviewStart(start), PreviewEnd(s, end))`: for a match inside `s`, the match with
      up to ten characters of context on each side. */
  function Preview(s: string, start: nat, end: nat): (r: string)
    ensures start <= end <= |s| ==> |r| == PreviewEnd(s, end) - PreviewStart(start) <= end - start + 20
    ensures start <= end <= |s| ==>
      r[start - PreviewStart(start)..end - PreviewStart(start)] == s[start..end]
    ensures start <= end <= |s| && start >= 10 ==> r[..10] == s[start - 10..start]
    ensures start <= end <= |s| && end + 10 <= |s| ==> r[|r| - 10..] == s[end..end + 10]
  {
    var lo, hi := PreviewStart(start), PreviewEnd(s, end);
    var r := Strings.Slice(s, lo, hi);
    PreviewShowsMatch(s, start, end);
    r
  }

  lemma PreviewShowsMatch(s: string, start: nat, end: nat)
    ensures var lo, hi := PreviewStart(start), PreviewEnd(s, end);
      var r := Strings.Slice(s, lo, hi);
      start <= end <= |s| ==>
        |r| == hi - lo &&
        r[start - lo..end - lo] == s[start..end] &&
        (start >= 10 ==> r[..10] == s[start - 10..start]) &&
        (end + 10 <= |s| ==> r[|r| - 10..] == s[end..end + 10])
  {
    var lo, hi := PreviewStart(start), PreviewEnd(s, end);
    if start <= end <= |s| {
      var r := Strings.Slice(s, lo, hi);
      assert r == s[lo..hi];
      SliceOfSlice(s, lo, hi, start - lo, end - lo);
      if start >= 10 {
        SliceOfSlice(s, lo, hi, 0, 10);
      }
      if end + 10 <= |s| {
        SliceOfSlice(s, lo, hi, hi - lo - 10, hi - lo);
      }
    }
  }

  /** A slice of a slice is a slice of the whole. */
  lemma SliceOfSlice(s: string, lo: nat, hi: nat, a: nat, b: nat)
    requires lo <= hi <= |s| && a <= b <= hi - lo
    ensures s[lo..hi][a..b] == s[lo + a..lo + b]
  {
    assert forall i :: 0 <= i < b - a ==> s[lo..hi][a..b][i] == s[lo + a + i];
  }

  function Record(xp: string, ti: nat, s: string, m: Delimiters.Span): MatchRecord {
    MatchRecord(xp, ti, m.start, m.end, Preview(s, m.start, m.end))
  }

  /** One record per span, in order. */
  function SpanRecords(xp: string, ti: nat, s: string, spans: seq<Delimiters.Span>): (r: seq<MatchRecord>)
    ensures |r| == |spans|
  {
    if spans == [] then [] else [Record(xp, ti, s, spans[0])] + SpanRecords(xp, ti, s, spans[1..])
  }

  lemma SpanRecordsCons(xp: string, ti: nat, s: string, m: Delimiters.Span, rest: seq<Delimiters.Span>)
    ensures SpanRecords(xp, ti, s, [m] + rest) == [Record(xp, ti, s, m)] + SpanRecords(xp, ti, s, rest)
  {
    assert ([m] + rest)[1..] == rest;
  }

  lemma {:induction false} SpanRecordsAt(xp: string, ti: nat, s: string, spans: seq<Delimiters.Span>, k: nat)
    requires k < |spans|
    ensures SpanRecords(xp, ti, s, spans)[k] == Record(xp, ti, s, spans[k])
  {
    if k > 0 {
      SpanRecordsAt(xp, ti, s, spans[1..], k - 1);
    }
  }

  /** The records of text node `ti`: one per match. (The script skips a value without `$`
      before running the pattern; `NodeRecordsNeedDollar` shows that skip changes nothing.) */
  function NodeRecords(xp: string, ti: nat, s: string): seq<MatchRecord> {
    SpanRecords(xp, ti, s, Delimiters.Matches(s))
  }

  lemma NodeRecordsNeedDollar(xp: string, ti: nat, s: string)
    requires '$' !in s
    ensures NodeRecords(xp, ti, s) == []
  {
    Delimiters.NoDollarNoMatch(s);
  }

  /** Each record of a text node is a genuine match of the pattern in its value, and they come
      left to right without overlap. */
  lemma NodeRecordsAreMatches(xp: string, ti: nat, s: string)
    ensures var r := NodeRecords(xp, ti, s);
      forall k :: 0 <= k < |r| ==>
        r[k].xpath == xp && r[k].nodeIndex == ti && Delimiters.MatchAt(s, r[k].start) == Some(r[k].end) &&
        r[k].preview == Preview(s, r[k].start, r[k].end)
    ensures var r := NodeRecords(xp, ti, s);
      forall a, b :: 0 <= a < b < |r| ==> r[a].end <= r[b].start
  {
    var spans := Delimiters.Matches(s);
    forall k | 0 <= k < |spans| ensures NodeRecords(xp, ti, s)[k] == Record(xp, ti, s, spans[k]) {
      SpanRecordsAt(xp, ti, s, spans, k);
    }
  }

  // ----- blocks laid end to end -----

  /** The blocks concatenated first to last (`results.push` over nested loops). */
  function Flatten<T>(blocks: seq<seq<T>>): seq<T> {
    if blocks == [] then [] else Flatten(blocks[..|blocks| - 1]) + blocks[|blocks| - 1]
  }

  lemma FlattenSnoc<T>(blocks: seq<seq<T>>, n: nat)
    requires n < |blocks|
    ensures Flatten(blocks[..n + 1]) == Flatten(blocks[..n]) + blocks[n]
  {
    assert blocks[..n + 1][..n] == blocks[..n];
  }

  /** Every entry of a block is in the concatenation. */
  lemma {:induction false} FlattenIncludes<T>(blocks: seq<seq<T>>, j: nat, x: T)
    requires j < |blocks| && x in blocks[j]
    ensures x in Flatten(blocks)
  {
    if j < |blocks| - 1 {
      FlattenIncludes(blocks[..|blocks| - 1], j, x);
    }
  }

  /** Every entry of the concatenation comes from some block. */
  lemma {:induction false} FlattenOrigin<T>(blocks: seq<seq<T>>, k: nat) returns (j: nat, i: nat)
    requires k < |Flatten(blocks)|
    ensures j < |blocks| && i < |blocks[j]| && Flatten(blocks)[k] == blocks[j][i]
  {
    var n := |blocks| - 1;
    var front := Flatten(blocks[..n]);
    if k < |front| {
      j, i := FlattenOrigin(blocks[..n], k);
      assert blocks[..n][j] == blocks[j];
    } else {
      j, i := n, k - |front|;
    }
  }

  /** The concatenation keeps the order of the blocks and, inside a block, the order of its
      entries: of two entries, the earlier one comes from an earlier block or earlier in the
      same block. */
  lemma {:induction false} FlattenOrdered<T>(blocks: seq<seq<T>>, k1: nat, k2: nat) returns (j1: nat, i1: nat, j2: nat, i2: nat)
    requires k1 < k2 < |Flatten(blocks)|
    ensures j1 < |blocks| && i1 < |blocks[j1]| && Flatten(blocks)[k1] == blocks[j1][i1]
    ensures j2 < |blocks| && i2 < |blocks[j2]| && Flatten(blocks)[k2] == blocks[j2][i2]
    ensures j1 < j2 || (j1 == j2 && i1 < i2)
  {
    var n := |blocks| - 1;
    var front := Flatten(blocks[..n]);
    if k2 < |front| {
      j1, i1, j2, i2 := FlattenOrdered(blocks[..n], k1, k2);
      assert blocks[..n][j1] == blocks[j1] && blocks[..n][j2] == blocks[j2];
    } else {
      j2, i2 := n, k2 - |front|;
      if k1 < |front| {
        j1, i1 := FlattenOrigin(blocks[..n], k1);
        assert blocks[..n][j1] == blocks[j1];
      } else {
        j1, i1 := n, k1 - |front|;
      }
    }
  }

  lemma {:induction false} FlattenEmpty<T>(blocks: seq<seq<T>>)
    requires forall i :: 0 <= i < |blocks| ==> blocks[i] == []
    ensures Flatten(blocks) == []
  {
    if blocks != [] {
      FlattenEmpty(blocks[..|blocks| - 1]);
    }
  }

  // ----- the scan -----

  /** The records of each text node, in walker order. */
  function NodeBlocks(xp: string, texts: seq<TextRef>): seq<seq<MatchRecord>> {
    seq(|texts|, i requires 0 <= i < |texts| => NodeRecords(xp, i, texts[i].value))
  }

  /** The records of one leaf block: nothing when its `innerText` has no `$`, else those of its
      text nodes under its XPath. */
  function LeafRecords(doc: Document, el: Path): seq<MatchRecord>
    requires IsElement(doc, el)
  {
    var e := ElementAt(doc, el);
    if '$' !in e.innerText then [] else Flatten(NodeBlocks(XPath.XPathOf(doc, el), TextNodes(e)))
  }

  /** The records of each candidate, in document order. */
  function LeafBlocks(doc: Document, cs: seq<Path>): seq<seq<MatchRecord>>
    requires forall i :: 0 <= i < |cs| ==> IsElement(doc, cs[i])
  {
    seq(|cs|, i requires 0 <= i < |cs| => LeafRecords(doc, cs[i]))
  }

  /** What `JS_FIND_MATCHES` returns: nothing without a canvas, else the records of every
      candidate in document order. */
  function Scan(doc: Document): seq<MatchRecord> {
    match PageRoot(doc)
    case None => []
    case Some(root) => Flatten(LeafBlocks(doc, Candidates(doc, root)))
  }

  // ----- the script -----

  /** The script body: the page canvas, its candidates, and the loop over them. */
  method FindMatches(doc: Document) returns (results: seq<MatchRecord>)
    ensures results == Scan(doc)
  {
    var root := PageRoot(doc);
    if root.None? {
      return [];
    }
    var candidates := Candidates(doc, root.value);
    ghost var blocks := LeafBlocks(doc, candidates);
    results := [];
    for c := 0 to |candidates|
      invariant results == Flatten(blocks[..c])
    {
      var leaf := ScanLeaf(doc, candidates[c]);
      FlattenSnoc(blocks, c);
      results := results + leaf;
    }
    assert blocks[..|candidates|] == blocks;
  }

  /** One candidate: the `innerText` quick skip, the text nodes of `getTextNodes`, and the loop
      over them with its per-node `$` skip. */
  method ScanLeaf(doc: Document, el: Path) returns (leaf: seq<MatchRecord>)
    requires IsElement(doc, el)
    ensures leaf == LeafRecords(doc, el)
  {
    leaf := [];
    var t := ElementAt(doc, el).innerText;
    if Strings.IndexOf(t, '$') == |t| {
      return;
    }
    var textNodes := TextNodes(ElementAt(doc, el));
    ghost var xp := XPath.XPathOf(doc, el);
    ghost var blocks := NodeBlocks(xp, textNodes);
    if |textNodes| == 0 {
      return;
    }
    for ti := 0 to |textNodes|
      invariant leaf == Flatten(blocks[..ti])
    {
      var s := textNodes[ti].value;
      FlattenSnoc(blocks, ti);
      if Strings.IndexOf(s, '$') == |s| {
        NodeRecordsNeedDollar(xp, ti, s);
        continue;
      }
      var found := ExecAll(doc, el, ti, s);
      leaf := leaf + found;
    }
    assert blocks[..|textNodes|] == blocks;
  }

  /** `re.lastIndex = 0; while ((m = re.exec(s)) !== null) results.push({...})` for one node. */
  method ExecAll(doc: Document, el: Path, ti: nat, s: string) returns (recs: seq<MatchRecord>)
    requires IsElement(doc, el)
    ensures recs == NodeRecords(XPath.XPathOf(doc, el), ti, s)
  {
    ghost var xp := XPath.XPathOf(doc, el);
    ghost var all := SpanRecords(xp, ti, s, Delimiters.Matches(s));
    var lastIndex := 0;
    recs := [];
    while true
      invariant lastIndex <= |s|
      invariant recs + SpanRecords(xp, ti, s, Delimiters.MatchesFrom(s, lastIndex)) == all
      decreases |s| - lastIndex
    {
      var m := Delimiters.Exec(s, lastIndex);
      if m.None? {
        Delimiters.ExecEnds(s, lastIndex);
        break;
      }
      var start, end := m.value.start, m.value.end;
      var xpath := XPath.GetXPath(doc, el);
      var preview := Preview(s, start, end);
      Delimiters.ExecThenRest(s, lastIndex);
      SpanRecordsCons(xp, ti, s, m.value, Delimiters.MatchesFrom(s, end));
      recs := recs + [MatchRecord(xpath, ti, start, end, preview)];
      lastIndex := end;
    }
  }

  // ----- what the records say -----

  /** `r` describes a match in a text node of the element at `c`: its XPath is that element's,
      its index names one of the element's text nodes (a real text node below it), and its
      offsets are a match of the pattern in that node's value with the preview around it. */
  ghost predicate Describes(doc: Document, c: Path, r: MatchRecord)
    requires IsElement(doc, c)
  {
    var texts := TextNodes(ElementAt(doc, c));
    r.xpath == XPath.XPathOf(doc, c) && r.nodeIndex < |texts| &&
    var t := texts[r.nodeIndex];
    NodeAt(ElementAt(doc, c).children, t.path) == Some(Text(t.value)) &&
    Delimiters.MatchAt(t.value, r.start) == Some(r.end) && r.preview == Preview(t.value, r.start, r.end)
  }

  /** Every record of one leaf describes a match in one of its text nodes. */
  lemma LeafSound(doc: Document, c: Path, k: nat)
    requires IsElement(doc, c) && k < |LeafRecords(doc, c)|
    ensures Describes(doc, c, LeafRecords(doc, c)[k])
  {
    var e := ElementAt(doc, c);
    var xp, texts := XPath.XPathOf(doc, c), TextNodes(e);
    var ti, i := FlattenOrigin(NodeBlocks(xp, texts), k);
    ForestTextsAreTextNodes(e.children, ti);
    NodeRecordsAreMatches(xp, ti, texts[ti].value);
  }

  /** Every record the scan returns describes a match in a visible leaf block of the canvas. */
  lemma ScanSound(doc: Document, k: nat) returns (c: Path)
    requires k < |Scan(doc)|
    ensures PageRoot(doc).Some? && IsCandidate(doc, PageRoot(doc).value, c) && Describes(doc, c, Scan(doc)[k])
  {
    var root := PageRoot(doc).value;
    var cs := Candidates(doc, root);
    var j, i := FlattenOrigin(LeafBlocks(doc, cs), k);
    LeafSound(doc, cs[j], i);
    c := cs[j];
  }

  /** A leaf's records come in walker order of their text nodes and, within one text node, by
      position: an earlier record has a smaller `nodeIndex`, or the same one and ends before
      the later one starts. */
  lemma LeafOrdered(doc: Document, c: Path, a: nat, b: nat)
    requires IsElement(doc, c) && a < b < |LeafRecords(doc, c)|
    ensures var r := LeafRecords(doc, c);
      r[a].nodeIndex < r[b].nodeIndex || (r[a].nodeIndex == r[b].nodeIndex && r[a].end <= r[b].start)
  {
    var xp, texts := XPath.XPathOf(doc, c), TextNodes(ElementAt(doc, c));
    var blocks := NodeBlocks(xp, texts);
    var t1, i1, t2, i2 := FlattenOrdered(blocks, a, b);
    NodeRecordsAreMatches(xp, t1, texts[t1].value);
    NodeRecordsAreMatches(xp, t2, texts[t2].value);
  }

  /** The scan's order: records of leaf blocks earlier in document order come first; within
      one leaf, the order of `LeafOrdered`. */
  lemma ScanOrdered(doc: Document, a: nat, b: nat) returns (j1: nat, j2: nat)
    requires a < b < |Scan(doc)|
    ensures PageRoot(doc).Some?
    ensures var cs := Candidates(doc, PageRoot(doc).value);
      j1 <= j2 < |cs| && Describes(doc, cs[j1], Scan(doc)[a]) && Describes(doc, cs[j2], Scan(doc)[b])
    ensures j1 < j2 ==>
      var cs := Candidates(doc, PageRoot(doc).value);
      Precedes(cs[j1], cs[j2])
    ensures j1 == j2 ==>
      var r := Scan(doc);
      r[a].nodeIndex < r[b].nodeIndex || (r[a].nodeIndex == r[b].nodeIndex && r[a].end <= r[b].start)
  {
    var root := PageRoot(doc).value;
    var cs := Candidates(doc, root);
    var i1, i2;
    j1, i1, j2, i2 := FlattenOrdered(LeafBlocks(doc, cs), a, b);
    LeafSound(doc, cs[j1], i1);
    LeafSound(doc, cs[j2], i2);
    if j1 == j2 {
      LeafOrdered(doc, cs[j1], i1, i2);
    } else {
      CandidatesOrdered(doc, root, j1, j2);
    }
  }

  /** Within one leaf whose `innerText` shows a `$`, every position of a text node where the
      pattern matches is covered by a record for that node. */
  lemma LeafComplete(doc: Document, c: Path, ti: nat, i: nat) returns (r: MatchRecord)
    requires IsElement(doc, c) && '$' in ElementAt(doc, c).innerText
    requires ti < |TextNodes(ElementAt(doc, c))|
    requires Delimiters.MatchAt(TextNodes(ElementAt(doc, c))[ti].value, i).Some?
    ensures r in LeafRecords(doc, c) && r.xpath == XPath.XPathOf(doc, c) && r.nodeIndex == ti && r.start <= i < r.end
  {
    var xp, texts := XPath.XPathOf(doc, c), TextNodes(ElementAt(doc, c));
    var s := texts[ti].value;
    Delimiters.MatchesFromCover(s, 0, i);
    var spans := Delimiters.Matches(s);
    var k :| 0 <= k < |spans| && spans[k].start <= i < spans[k].end;
    SpanRecordsAt(xp, ti, s, spans, k);
    r := NodeRecords(xp, ti, s)[k];
    FlattenIncludes(NodeBlocks(xp, texts), ti, r);
  }

  /** Nothing is missed: in a visible leaf whose `innerText` shows a `$`, every position of a
      text node where the pattern matches is covered by a record for that node. */
  lemma ScanComplete(doc: Document, c: Path, ti: nat, i: nat) returns (r: MatchRecord)
    requires PageRoot(doc).Some? && IsCandidate(doc, PageRoot(doc).value, c)
    requires '$' in ElementAt(doc, c).innerText
    requires ti < |TextNodes(ElementAt(doc, c))|
    requires Delimiters.MatchAt(TextNodes(ElementAt(doc, c))[ti].value, i).Some?
    ensures r in Scan(doc) && r.xpath == XPath.XPathOf(doc, c) && r.nodeIndex == ti && r.start <= i < r.end
  {
    var root := PageRoot(doc).value;
    var cs := Candidates(doc, root);
    CandidatesAreTheLeaves(doc, root, c);
    var j :| 0 <= j < |cs| && cs[j] == c;
    r := LeafComplete(doc, c, ti, i);
    FlattenIncludes(LeafBlocks(doc, cs), j, r);
  }

  /** Nothing is missed, stated on the page itself: in a visible leaf `c` whose `innerText`
      shows a `$`, for every text node below `c` and every position where the pattern matches
      its value, some record carries `c`'s XPath, names that text node by its walker index and
      covers the position. */
  lemma ScanCoversEveryTextNode(doc: Document, c: Path, q: Path, v: string, i: nat) returns (r: MatchRecord)
    requires PageRoot(doc).Some? && IsCandidate(doc, PageRoot(doc).value, c)
    requires '$' in ElementAt(doc, c).innerText
    requires q != [] && NodeAt(doc, c + q) == Some(Text(v)) && Delimiters.MatchAt(v, i).Some?
    ensures r in Scan(doc) && r.xpath == XPath.XPathOf(doc, c) && r.start <= i < r.end
    ensures r.nodeIndex < |TextNodes(ElementAt(doc, c))| && TextNodes(ElementAt(doc, c))[r.nodeIndex] == TextRef(q, v)
  {
    var ti := TextNodesComplete(doc, c, q, v);
    r := ScanComplete(doc, c, ti, i);
  }

  /** The scan's empty cases: no page canvas gives no record, and neither does a leaf whose
      `innerText` has no `$` (for a text node without `$`, `NodeRecordsNeedDollar`). */
  lemma EmptyCases(doc: Document, el: Path)
    ensures PageRoot(doc).None? ==> Scan(doc) == []
    ensures IsElement(doc, el) && '$' !in ElementAt(doc, el).innerText ==> LeafRecords(doc, el) == []
  {
  }

  /** The `innerText` quick skip drops nothing when `innerText` is the text of the leaf's
      text nodes (no CSS-hidden or generated text). */
  lemma QuickSkipLosesNothing(doc: Document, el: Path)
    requires IsElement(doc, el) && ElementAt(doc, el).innerText == FlatText(ElementAt(doc, el))
    ensures LeafRecords(doc, el) == Flatten(NodeBlocks(XPath.XPathOf(doc, el), TextNodes(ElementAt(doc, el))))
  {
    var texts := TextNodes(ElementAt(doc, el));
    var blocks := NodeBlocks(XPath.XPathOf(doc, el), texts);
    if '$' !in ElementAt(doc, el).innerText {
      forall i | 0 <= i < |texts| ensures blocks[i] == [] {
        if '$' in texts[i].value {
          ConcatContains(texts, i, '$');
        }
        NodeRecordsNeedDollar(XPath.XPathOf(doc, el), i, texts[i].value);
      }
      FlattenEmpty(blocks);
    }
  }
}
