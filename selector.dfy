/**
 * `JS_SELECT_MATCH`: resolve the XPath, collect the element's text nodes in walker order, check
 * the text-node index and then the offsets, replace the window selection with one range on that
 * text node, and focus the nearest editable ancestor-or-self.
 */
module Selector {
  import opened Options
  import opened Dom
  import XPath
  import Scanner
  import MatchRefs

  const NotFound: string := "Element not found for XPath"
  const IndexOutOfRange: string := "Text node index out of range"
  const OffsetsInvalid: string := "Offsets invalid for text node"
  const EditableAttribute: string := "contenteditable"

  /** The script's reply: `{ok:true}` or `{ok:false, error}`. */
  datatype SelectResult = Ok | Failed(error: string)

  /** A DOM range inside one text node: the node's path from the document and two offsets. */
  datatype Range = Range(node: Path, start: nat, end: nat)

  /** What the selector reads and changes: the document, the ranges of the window selection and
      the focused element. */
  datatype PageState = PageState(doc: Document, selection: seq<Range>, focused: Option<Path>)

  /** The outcome of the checks: the first one that fails, or the text node and the offsets. */
  datatype Checked = Rejected(error: string) | Accepted(el: Path, node: TextRef, start: nat, end: nat)

  /** The checks in the script's order: element found, then text-node index in range, then
      `0 <= start < end <= value.length`. */
  function Check(doc: Document, found: Option<Path>, nodeIndex: int, start: int, end: int): (v: Checked)
    requires found.Some? ==> IsElement(doc, found.value)
    ensures v == Rejected(NotFound) <==> found.None?
    ensures v == Rejected(IndexOutOfRange) <==>
      found.Some? && !(0 <= nodeIndex < |TextNodes(ElementAt(doc, found.value))|)
    ensures v == Rejected(OffsetsInvalid) <==>
      found.Some? && 0 <= nodeIndex < |TextNodes(ElementAt(doc, found.value))| &&
      !(0 <= start < end <= |TextNodes(ElementAt(doc, found.value))[nodeIndex].value|)
    ensures v.Accepted? <==>
      found.Some? && 0 <= nodeIndex < |TextNodes(ElementAt(doc, found.value))| &&
      0 <= start < end <= |TextNodes(ElementAt(doc, found.value))[nodeIndex].value|
    ensures v.Accepted? ==>
      found == Some(v.el) && v.node == TextNodes(ElementAt(doc, v.el))[nodeIndex] && v.start == start && v.end == end
  {
    if found.None? then Rejected(NotFound)
    else
      var texts := TextNodes(ElementAt(doc, found.value));
      if nodeIndex < 0 || nodeIndex >= |texts| then Rejected(IndexOutOfRange)
      else
        var val := texts[nodeIndex].value;
        if start < 0 || end > |val| || start >= end then Rejected(OffsetsInvalid)
        else Accepted(found.value, texts[nodeIndex], start, end)
  }

  /** `getAttribute('contenteditable') === "true"` on an element. */
  predicate Editable(doc: Document, q: Path) {
    IsElement(doc, q) && Attribute(ElementAt(doc, q), EditableAttribute) == Some("true")
  }

  /** `parentElement`: the parent of a nested element; `null` for a child of the document. */
  function ParentElement(p: Path): (r: Option<Path>)
    requires |p| > 0
    ensures r.Some? <==> |p| > 1
    ensures r.Some? ==> r.value == p[..|p| - 1]
  {
    if |p| > 1 then Some(Parent(p)) else None
  }

  /** The nearest editable ancestor-or-self of the element at `p`, or none when the walk up
      through `parentElement` reaches `null` first. */
  function FocusTarget(doc: Document, p: Path): (r: Option<Path>)
    requires IsElement(doc, p)
    ensures r.Some? ==> 0 < |r.value| <= |p| && r.value == p[..|r.value|] && Editable(doc, r.value)
    ensures r.Some? ==> forall k :: |r.value| < k <= |p| ==> !Editable(doc, p[..k])
    ensures r.None? ==> forall k :: 0 < k <= |p| ==> !Editable(doc, p[..k])
    decreases |p|
  {
    if Editable(doc, p) then
      assert p[..|p|] == p;
      Some(p)
    else if |p| == 1 then
      assert forall k :: 0 < k <= |p| ==> p[..k] == p;
      None
    else
      ParentIsElement(doc, p);
      var q := Parent(p);
      var r := FocusTarget(doc, q);
      assert forall k :: 0 < k < |p| ==> q[..k] == p[..k];
      assert p[..|p|] == p;
      r
  }

  /** The focus walk: `focusEl` starts at the element and moves to `parentElement` until it is
      editable or `null`. */
  method FindFocusTarget(doc: Document, el: Path) returns (focusEl: Option<Path>)
    requires IsElement(doc, el)
    ensures focusEl == FocusTarget(doc, el)
  {
    focusEl := Some(el);
    while focusEl.Some?
      invariant focusEl.Some? ==> IsElement(doc, focusEl.value) && FocusTarget(doc, focusEl.value) == FocusTarget(doc, el)
      invariant focusEl.None? ==> FocusTarget(doc, el) == None
      decreases if focusEl.Some? then |focusEl.value| else 0
    {
      var cur := focusEl.value;
      var ce := Attribute(ElementAt(doc, cur), EditableAttribute);
      if ce == Some("true") {
        break;
      }
      if |cur| > 1 {
        ParentIsElement(doc, cur);
      }
      focusEl := ParentElement(cur);
    }
  }

  /** The whole script on a page state: `document.evaluate` on the XPath, the checks, then on
      success the selection replaced by one range and focus moved when there is a target. */
  function SelectOn(s: PageState, args: MatchRefs.MatchRef): (r: (SelectResult, PageState))
    ensures r.1.doc == s.doc
    ensures r.0.Failed? ==> r.1 == s
  {
    var found := XPath.ResolveText(s.doc, args.xpath);
    match Check(s.doc, found, args.nodeIndex, args.start, args.end)
    case Rejected(e) => (Failed(e), s)
    case Accepted(el, node, start, end) =>
      var f := FocusTarget(s.doc, el);
      (Ok, PageState(s.doc, [Range(el + node.path, start, end)], if f.Some? then f else s.focused))
  }

  /** The page the selector runs on: the document, the window selection and the focus. */
  class Page {
    var doc: Document
    var selection: seq<Range>
    var focused: Option<Path>

    function State(): PageState
      reads this
    {
      PageState(doc, selection, focused)
    }

    constructor (doc: Document)
      ensures State() == PageState(doc, [], None)
    {
      this.doc := doc;
      selection := [];
      focused := None;
    }

    /** `JS_SELECT_MATCH` with `args` as its argument object. */
    method Select(args: MatchRefs.MatchRef) returns (result: SelectResult)
      modifies this
      ensures (result, State()) == SelectOn(old(State()), args)
    {
      var el := XPath.ResolveText(doc, args.xpath);
      if el.None? {
        return Failed(NotFound);
      }
      var textNodes := TextNodes(ElementAt(doc, el.value));
      if args.nodeIndex < 0 || args.nodeIndex >= |textNodes| {
        return Failed(IndexOutOfRange);
      }
      var tn := textNodes[args.nodeIndex];
      var val := tn.value;
      if args.start < 0 || args.end > |val| || args.start >= args.end {
        return Failed(OffsetsInvalid);
      }
      var range := Range(el.value + tn.path, args.start, args.end);
      selection := [];
      selection := selection + [range];
      var focusEl := FindFocusTarget(doc, el.value);
      if focusEl.Some? {
        focused := focusEl;
      }
      assert Check(doc, el, args.nodeIndex, args.start, args.end) == Accepted(el.value, tn, args.start, args.end);
      assert selection == [range];
      assert focused == if focusEl.Some? then focusEl else old(focused);
      assert SelectOn(old(State()), args) == (Ok, PageState(doc, [range], focused));
      return Ok;
    }
  }

  // ----- what a selection does -----

  /** The replies in the script's order: a failure names the first failing check and changes
      nothing; success leaves the document's text alone, selects exactly one range, the
      `nodeIndex`-th text node of the resolved element from `start` to `end` (a real text node
      of the document, long enough for the offsets), and moves focus to the nearest editable
      ancestor-or-self of that element, keeping the old focus when there is none. */
  lemma SelectOutcome(s: PageState, args: MatchRefs.MatchRef)
    ensures var r := SelectOn(s, args);
      var found := XPath.ResolveText(s.doc, args.xpath);
      r.0 == Failed(NotFound) <==> found.None?
    ensures var r := SelectOn(s, args);
      var found := XPath.ResolveText(s.doc, args.xpath);
      r.0 == Failed(IndexOutOfRange) <==> found.Some? && !(0 <= args.nodeIndex < |TextNodes(ElementAt(s.doc, found.value))|)
    ensures var r := SelectOn(s, args);
      var found := XPath.ResolveText(s.doc, args.xpath);
      r.0 == Failed(OffsetsInvalid) <==>
        (found.Some? && 0 <= args.nodeIndex < |TextNodes(ElementAt(s.doc, found.value))| &&
         !(0 <= args.start < args.end <= |TextNodes(ElementAt(s.doc, found.value))[args.nodeIndex].value|))
    ensures var r := SelectOn(s, args);
      r.0.Failed? ==> r.1 == s && r.0.error in {NotFound, IndexOutOfRange, OffsetsInvalid}
    ensures var r := SelectOn(s, args);
      r.0 == Ok ==>
        (|r.1.selection| == 1 &&
         exists t :: (NodeAt(s.doc, r.1.selection[0].node) == Some(Text(t)) &&
           r.1.selection[0].start == args.start < r.1.selection[0].end == args.end <= |t|))
    ensures var r := SelectOn(s, args);
      var found := XPath.ResolveText(s.doc, args.xpath);
      r.0 == Ok ==>
        found.Some? && 0 <= args.nodeIndex < |TextNodes(ElementAt(s.doc, found.value))| &&
        r.1.selection == [Range(found.value + TextNodes(ElementAt(s.doc, found.value))[args.nodeIndex].path, args.start, args.end)]
    ensures var r := SelectOn(s, args);
      var found := XPath.ResolveText(s.doc, args.xpath);
      r.0 == Ok ==>
        found.Some? &&
        r.1.focused == (if FocusTarget(s.doc, found.value).Some? then FocusTarget(s.doc, found.value) else s.focused)
  {
    var r := SelectOn(s, args);
    var found := XPath.ResolveText(s.doc, args.xpath);
    var v := Check(s.doc, found, args.nodeIndex, args.start, args.end);
    if r.0 == Ok {
      var texts := TextNodes(ElementAt(s.doc, v.el));
      var e := ElementAt(s.doc, v.el);
      ForestTextsAreTextNodes(e.children, args.nodeIndex);
      assert v.node.path != [];
      NodeAtBelow(s.doc, v.el, v.node.path);
      assert NodeAt(s.doc, r.1.selection[0].node) == Some(Text(v.node.value));
    }
  }

  /** A record that describes a match in a text node of `c` passes the index and offset checks
      on `c`; when `c` is addressable its XPath resolves back to `c`, so selecting the record
      succeeds and selects exactly the matched span of that text node. */
  lemma RecordSelects(s: PageState, c: Path, r: Scanner.MatchRecord)
    requires IsElement(s.doc, c) && Scanner.Describes(s.doc, c, r)
    ensures Check(s.doc, Some(c), r.nodeIndex, r.start, r.end).Accepted?
    ensures XPath.Addressable(s.doc, c) ==>
      var texts := TextNodes(ElementAt(s.doc, c));
      SelectOn(s, MatchRefs.FromRecord(r)).0 == Ok &&
      SelectOn(s, MatchRefs.FromRecord(r)).1.selection == [Range(c + texts[r.nodeIndex].path, r.start, r.end)]
  {
    if XPath.Addressable(s.doc, c) {
      XPath.AddressRoundTrip(s.doc, c);
    }
  }

  /** Scan and select agree on an unchanged page: every record the scan returns came from a
      visible leaf `c` and passes the index and offset checks there, and when `c` is
      addressable the selection of that record succeeds on exactly its span. */
  lemma ScanThenSelect(s: PageState, k: nat) returns (c: Path)
    requires k < |Scanner.Scan(s.doc)|
    ensures Scanner.PageRoot(s.doc).Some? && Scanner.IsCandidate(s.doc, Scanner.PageRoot(s.doc).value, c)
    ensures Scanner.Describes(s.doc, c, Scanner.Scan(s.doc)[k])
    ensures var r := Scanner.Scan(s.doc)[k];
      Check(s.doc, Some(c), r.nodeIndex, r.start, r.end).Accepted?
    ensures XPath.Addressable(s.doc, c) ==>
      var r := Scanner.Scan(s.doc)[k];
      var texts := TextNodes(ElementAt(s.doc, c));
      SelectOn(s, MatchRefs.FromRecord(r)).0 == Ok &&
      SelectOn(s, MatchRefs.FromRecord(r)).1.selection == [Range(c + texts[r.nodeIndex].path, r.start, r.end)]
  {
    c := Scanner.ScanSound(s.doc, k);
    RecordSelects(s, c, Scanner.Scan(s.doc)[k]);
  }
}
