/**
 * `getXPath(el)` and its inverse for the shapes it produces. An element with an id is addressed
 * by an id test anywhere in the document (`IdPrefix + ID + IdSuffix`); any other as `/` followed by one `tag` or `tag[idx]` step per element from
 * the top of the document down to it, where `idx` is the 1-based position among element
 * siblings of the same nodeName and is written only when there is more than one of them.
 */
module XPath {
  import opened Options
  import opened Dom
  import Strings

  datatype Step = Step(tag: string, index: Option<nat>)

  datatype XPath = ById(id: string) | Absolute(steps: seq<Step>)

  /** How many of `nodes` are elements named `name` (the `nb++` count of the sibling loop). */
  function SameNameCount(nodes: seq<Node>, name: string): nat {
    if nodes == [] then 0
    else
      var k := |nodes| - 1;
      SameNameCount(nodes[..k], name) + (if nodes[k].Element? && nodes[k].name == name then 1 else 0)
  }

  lemma {:induction false} SameNameCountMonotone(nodes: seq<Node>, name: string, m: nat)
    requires m <= |nodes|
    ensures SameNameCount(nodes[..m], name) <= SameNameCount(nodes, name)
    decreases |nodes|
  {
    if m < |nodes| {
      assert nodes[..m] == nodes[..|nodes| - 1][..m];
      SameNameCountMonotone(nodes[..|nodes| - 1], name, m);
    } else {
      assert nodes[..m] == nodes;
    }
  }

  /** The step `getXPath` writes for the element at `q`. Its index is the element's 1-based
      ordinal among same-name element siblings and is present exactly when there are several. */
  function StepFor(doc: Document, q: Path): (st: Step)
    requires IsElement(doc, q)
    ensures st.tag == Strings.Lower(ElementAt(doc, q).name)
    ensures var nb := SameNameCount(Siblings(doc, q), ElementAt(doc, q).name);
      (st.index.Some? <==> nb > 1) && (st.index.Some? ==> 1 <= st.index.value <= nb)
    ensures st.index.Some? ==> Last(q) <= |Siblings(doc, q)|
    ensures st.index.Some? ==>
      st.index.value == 1 + SameNameCount(Siblings(doc, q)[..Last(q)], ElementAt(doc, q).name)
  {
    SiblingsHold(doc, q);
    var name := ElementAt(doc, q).name;
    var sibs := Siblings(doc, q);
    var nb := SameNameCount(sibs, name);
    var idx := SameNameCount(sibs[..Last(q) + 1], name);
    assert sibs[..Last(q) + 1][..Last(q)] == sibs[..Last(q)];
    SameNameCountMonotone(sibs, name, Last(q) + 1);
    Step(Strings.Lower(name), if nb > 1 then Some(idx) else None)
  }

  /** One step per element on the way from the top of the document down to `p`. */
  function Steps(doc: Document, p: Path): (r: seq<Step>)
    requires IsElement(doc, p)
    ensures |r| == |p|
    decreases |p|
  {
    if |p| == 1 then [StepFor(doc, p)]
    else
      ParentIsElement(doc, p);
      Steps(doc, Parent(p)) + [StepFor(doc, p)]
  }

  /** The `k`th step is the one written for the ancestor at depth `k + 1`. */
  lemma {:induction false} StepsAt(doc: Document, p: Path, k: nat)
    requires IsElement(doc, p) && k < |p|
    ensures IsElement(doc, p[..k + 1]) && Steps(doc, p)[k] == StepFor(doc, p[..k + 1])
    decreases |p|
  {
    if k + 1 == |p| {
      assert p[..k + 1] == p;
    } else {
      AncestorsAreElements(doc, p, k + 1);
      ParentIsElement(doc, p);
      StepsAt(doc, Parent(p), k);
      assert Parent(p)[..k + 1] == p[..k + 1];
    }
  }

  /** `getXPath(el)` as a structured path. */
  function Encode(doc: Document, p: Path): (x: XPath)
    requires IsElement(doc, p)
    ensures x.ById? <==> IdOf(ElementAt(doc, p)) != ""
    ensures x.ById? ==> x.id == IdOf(ElementAt(doc, p))
    ensures x.Absolute? ==> |x.steps| == |p|
  {
    var id := IdOf(ElementAt(doc, p));
    if id != "" then ById(id)
    else
      Absolute(Steps(doc, p))
  }

  function RenderStep(st: Step): string {
    match st.index
    case None => st.tag
    case Some(idx) => st.tag + "[" + Strings.NatToString(idx) + "]"
  }

  function RenderSteps(steps: seq<Step>): (r: seq<string>)
    ensures |r| == |steps| && forall k :: 0 <= k < |steps| ==> r[k] == RenderStep(steps[k])
  {
    seq(|steps|, k requires 0 <= k < |steps| => RenderStep(steps[k]))
  }

  const IdPrefix: string := "//*[@id=\""
  const IdSuffix: string := "\"]"

  /** The XPath text. */
  function Render(x: XPath): string {
    match x
    case ById(id) => IdPrefix + id + IdSuffix
    case Absolute(steps) => "/" + Strings.Join(RenderSteps(steps), "/")
  }

  /** The string `getXPath(el)` returns. */
  function XPathOf(doc: Document, p: Path): string
    requires IsElement(doc, p)
  {
    Render(Encode(doc, p))
  }

  /** The `getXPath` walk: up through `parentNode` while it is an element, putting each level's
      part in front of the ones found so far. */
  method GetXPath(doc: Document, el: Path) returns (xpath: string)
    requires IsElement(doc, el)
    ensures xpath == XPathOf(doc, el)
  {
    var id := IdOf(ElementAt(doc, el));
    if id != "" {
      return IdPrefix + id + IdSuffix;
    }
    ghost var all := RenderSteps(Steps(doc, el));
    var parts: seq<string> := [];
    var cur := el;
    while |cur| > 0
      invariant |cur| <= |el| && cur == el[..|cur|]
      invariant |cur| > 0 ==> IsElement(doc, cur)
      invariant parts == all[|cur|..]
      decreases |cur|
    {
      var part := StepText(doc, cur);
      StepsAt(doc, el, |cur| - 1);
      assert part == all[|cur| - 1];
      assert [part] + all[|cur|..] == all[|cur| - 1..];
      parts := [part] + parts;
      if |cur| > 1 {
        ParentIsElement(doc, cur);
        assert Parent(cur) == el[..|cur| - 1];
      }
      cur := Parent(cur);
    }
    xpath := "/" + Strings.Join(parts, "/");
  }

  /** One level of the walk: count the element siblings with the same nodeName, note the
      element's own position among them, and write the part. */
  method StepText(doc: Document, cur: Path) returns (part: string)
    requires IsElement(doc, cur)
    ensures part == RenderStep(StepFor(doc, cur))
  {
    var name := ElementAt(doc, cur).name;
    var sibs := Siblings(doc, cur);
    SiblingsHold(doc, cur);
    var nb, idx := 0, 0;
    var i := 0;
    while i < |sibs|
      invariant 0 <= i <= |sibs|
      invariant nb == SameNameCount(sibs[..i], name)
      invariant idx == if Last(cur) < i then SameNameCount(sibs[..Last(cur) + 1], name) else 0
    {
      assert sibs[..i + 1][..i] == sibs[..i];
      var sib := sibs[i];
      if sib.Element? && sib.name == name {
        nb := nb + 1;
        if i == Last(cur) {
          idx := nb;
        }
      }
      i := i + 1;
    }
    assert sibs[..i] == sibs;
    var tagName := Strings.Lower(name);
    part := if nb > 1 then tagName + "[" + Strings.NatToString(idx) + "]" else tagName;
  }

  // ----- reading the text back -----

  /** One `tag` or `tag[digits]` step. */
  function ParseStep(tok: string): Option<Step> {
    var k := Strings.IndexOf(tok, '[');
    if k == |tok| then
      if tok != "" then Some(Step(tok, None)) else None
    else if 0 < k && k + 3 <= |tok| && tok[|tok| - 1] == ']' && Strings.AllDigits(tok[k + 1..|tok| - 1]) then
      Some(Step(tok[..k], Some(Strings.DigitsValue(tok[k + 1..|tok| - 1]))))
    else None
  }

  /** Steps separated by `/`. */
  function ParseSteps(u: string): (r: Option<seq<Step>>)
    ensures r.Some? ==> r.value != []
    decreases |u|
  {
    var k := Strings.IndexOf(u, '/');
    match ParseStep(u[..k])
    case None => None
    case Some(st) =>
      if k == |u| then Some([st])
      else match ParseSteps(u[k + 1..])
        case None => None
        case Some(rest) => Some([st] + rest)
  }

  /** Reads the two shapes `getXPath` writes; any other text is not read. */
  function ParseXPath(t: string): Option<XPath> {
    if |t| >= |IdPrefix| + |IdSuffix| && t[..|IdPrefix|] == IdPrefix && t[|t| - |IdSuffix|..] == IdSuffix
       && '"' !in t[|IdPrefix|..|t| - |IdSuffix|] then
      Some(ById(t[|IdPrefix|..|t| - |IdSuffix|]))
    else if |t| >= 1 && t[0] == '/' then
      match ParseSteps(t[1..])
      case None => None
      case Some(steps) => Some(Absolute(steps))
    else None
  }

  /** A tag the step syntax can carry: non-empty, without `/` or `[`. */
  predicate GoodTag(tag: string) {
    tag != "" && '/' !in tag && '[' !in tag
  }

  /** The paths whose text reads back: ids without `"`, and non-empty steps with good tags. */
  predicate Readable(x: XPath) {
    match x
    case ById(id) => '"' !in id
    case Absolute(steps) => steps != [] && forall k :: 0 <= k < |steps| ==> GoodTag(steps[k].tag)
  }

  lemma ParseRenderedStep(st: Step)
    requires GoodTag(st.tag)
    ensures ParseStep(RenderStep(st)) == Some(st)
    ensures '/' !in RenderStep(st)
  {
    var tok := RenderStep(st);
    if st.index.Some? {
      var digits := Strings.NatToString(st.index.value);
      assert tok == st.tag + "[" + digits + "]";
      var k := |st.tag|;
      assert tok[k] == '[';
      assert forall j :: 0 <= j < k ==> tok[j] == st.tag[j];
      assert Strings.IndexOf(tok, '[') == k;
      assert tok[..k] == st.tag;
      assert tok[k + 1..|tok| - 1] == digits;
      Strings.DigitsValueOfNatToString(st.index.value);
      assert forall j :: 0 <= j < |digits| ==> digits[j] != '/';
    }
  }

  lemma {:induction false} ParseJoinedSteps(steps: seq<Step>)
    requires steps != [] && forall k :: 0 <= k < |steps| ==> GoodTag(steps[k].tag)
    ensures ParseSteps(Strings.Join(RenderSteps(steps), "/")) == Some(steps)
    decreases |steps|
  {
    var parts := RenderSteps(steps);
    var u := Strings.Join(parts, "/");
    ParseRenderedStep(steps[0]);
    if |steps| == 1 {
      assert u == parts[0];
      assert u[..|u|] == u;
      assert steps == [steps[0]];
    } else {
      var rest := Strings.Join(parts[1..], "/");
      assert parts[1..] == RenderSteps(steps[1..]);
      assert u == parts[0] + ['/'] + rest;
      Strings.IndexOfSplits(parts[0], '/', rest);
      ParseJoinedSteps(steps[1..]);
      assert [steps[0]] + steps[1..] == steps;
    }
  }

  /** Reading the text of a readable path gives the path back. */
  lemma ParseRendered(x: XPath)
    requires Readable(x)
    ensures ParseXPath(Render(x)) == Some(x)
  {
    match x
    case ById(id) => ParseRenderedId(id);
    case Absolute(steps) => ParseRenderedAbsolute(steps);
  }

  lemma ParseRenderedId(id: string)
    requires '"' !in id
    ensures ParseXPath(IdPrefix + id + IdSuffix) == Some(ById(id))
  {
    var t := IdPrefix + id + IdSuffix;
    assert t[..|IdPrefix|] == IdPrefix;
    assert t[|t| - |IdSuffix|..] == IdSuffix;
    assert t[|IdPrefix|..|t| - |IdSuffix|] == id;
  }

  lemma ParseRenderedAbsolute(steps: seq<Step>)
    requires steps != [] && forall k :: 0 <= k < |steps| ==> GoodTag(steps[k].tag)
    ensures ParseXPath("/" + Strings.Join(RenderSteps(steps), "/")) == Some(Absolute(steps))
  {
    var parts := RenderSteps(steps);
    var u := Strings.Join(parts, "/");
    var t := "/" + u;
    ParseJoinedSteps(steps);
    assert parts[0][0] == steps[0].tag[0];
    Strings.JoinStartsWithFirst(parts, "/");
    assert t[1] != '/';
    if |t| >= |IdPrefix| {
      assert t[..|IdPrefix|][1] != IdPrefix[1];
    }
    assert t[1..] == u;
  }

  // ----- evaluating the expression against the current tree -----

  /** Indexes of the children that are elements whose lower-cased name is `tag`. */
  function Hits(kids: seq<Node>, tag: string): (r: seq<nat>)
    ensures forall i :: 0 <= i < |r| ==> r[i] < |kids| && kids[r[i]].Element?
  {
    if kids == [] then []
    else
      var k := |kids| - 1;
      Hits(kids[..k], tag) + (if kids[k].Element? && Strings.Lower(kids[k].name) == tag then [k] else [])
  }

  function Extend(c: Path, js: seq<nat>): (r: seq<Path>)
    ensures |r| == |js| && forall i :: 0 <= i < |js| ==> r[i] == c + [js[i]]
  {
    seq(|js|, i requires 0 <= i < |js| => c + [js[i]])
  }

  /** The child step `tag` or `tag[n]` from the context node `c`. */
  function StepFrom(doc: Document, c: Path, st: Step): (r: seq<Path>)
    ensures forall i :: 0 <= i < |r| ==> IsElement(doc, r[i])
  {
    var hits := Hits(ChildrenOf(doc, c), st.tag);
    var r := match st.index
      case None => Extend(c, hits)
      case Some(n) => if 1 <= n <= |hits| then [c + [hits[n - 1]]] else [];
    assert forall i :: 0 <= i < |r| ==> IsElement(doc, r[i]) by {
      forall i | 0 <= i < |r| ensures IsElement(doc, r[i]) {
        var j :| 0 <= j < |hits| && r[i] == c + [hits[j]];
        NodeAtChild(doc, c, hits[j]);
      }
    }
    r
  }

  /** A step applied to every node of the context, in order. */
  function StepAll(doc: Document, ctx: seq<Path>, st: Step): (r: seq<Path>)
    ensures forall i :: 0 <= i < |r| ==> IsElement(doc, r[i])
  {
    if ctx == [] then []
    else StepAll(doc, ctx[..|ctx| - 1], st) + StepFrom(doc, ctx[|ctx| - 1], st)
  }

  function Evaluate(doc: Document, ctx: seq<Path>, steps: seq<Step>): (r: seq<Path>)
    ensures steps != [] ==> forall i :: 0 <= i < |r| ==> IsElement(doc, r[i])
    decreases steps
  {
    if steps == [] then ctx else Evaluate(doc, StepAll(doc, ctx, steps[0]), steps[1..])
  }

  /** The predicate `@id="id"`: the element carries an `id` attribute with exactly that value
      (an element without the attribute never satisfies it, whatever the value). */
  predicate CarriesId(doc: Document, q: Path, id: string) {
    IsElement(doc, q) && Attribute(ElementAt(doc, q), "id") == Some(id)
  }

  /** The first element, in document order, of those `order` lists with this id. */
  function FirstWithId(doc: Document, order: seq<Path>, id: string): (r: Option<Path>)
    ensures r.Some? ==> CarriesId(doc, r.value, id) && r.value in order
    ensures r.Some? ==> exists i :: 0 <= i < |order| && order[i] == r.value && forall j :: 0 <= j < i ==> !CarriesId(doc, order[j], id)
    ensures r.None? <==> forall q :: q in order ==> !CarriesId(doc, q, id)
  {
    if order == [] then None
    else if CarriesId(doc, order[0], id) then
      assert order[0] == order[0];
      Some(order[0])
    else
      var r := FirstWithId(doc, order[1..], id);
      if r.Some? then
        var i :| 0 <= i < |order[1..]| && order[1..][i] == r.value &&
          forall j :: 0 <= j < i ==> !CarriesId(doc, order[1..][j], id);
        assert order[i + 1] == r.value;
        r
      else
        r
  }

  /** `document.evaluate(path, document, ..., FIRST_ORDERED_NODE_TYPE)` for the two shapes. */
  function Resolve(doc: Document, x: XPath): Option<Path> {
    match x
    case ById(id) => FirstWithId(doc, ElementOrder(doc), id)
    case Absolute(steps) =>
      var found := Evaluate(doc, [[]], steps);
      if found == [] then None else Some(found[0])
  }

  /** `elementByXPath(text)`: what the text resolves to, never anything but an element. */
  function ResolveText(doc: Document, t: string): (r: Option<Path>)
    ensures r.Some? ==> IsElement(doc, r.value)
  {
    match ParseXPath(t)
    case None => None
    case Some(x) => Resolve(doc, x)
  }

  // ----- the round trip -----

  /** The siblings of the element at `q` that match its lower-cased name all have its exact name
      (so XPath's name test and the nodeName comparison of the sibling loop agree). */
  predicate NamesConsistent(doc: Document, q: Path)
    requires IsElement(doc, q)
  {
    var sibs := Siblings(doc, q);
    var name := ElementAt(doc, q).name;
    forall j :: 0 <= j < |sibs| && sibs[j].Element? && Strings.Lower(sibs[j].name) == Strings.Lower(name) ==>
      sibs[j].name == name
  }

  /** What makes the path of the element at `p` resolve back to it: a unique id without `"`, or,
      without an id, good tags and consistent names at every level. */
  ghost predicate Addressable(doc: Document, p: Path)
    requires IsElement(doc, p)
  {
    var id := IdOf(ElementAt(doc, p));
    if id != "" then
      '"' !in id && forall q :: IsElement(doc, q) && IdOf(ElementAt(doc, q)) == id ==> q == p
    else
      forall k :: 0 < k <= |p| ==>
        IsElement(doc, p[..k]) && NamesConsistent(doc, p[..k]) && GoodTag(Strings.Lower(ElementAt(doc, p[..k]).name))
  }

  lemma {:induction false} HitsPrefix(kids: seq<Node>, tag: string, m: nat)
    requires m <= |kids|
    ensures |Hits(kids[..m], tag)| <= |Hits(kids, tag)|
    ensures Hits(kids, tag)[..|Hits(kids[..m], tag)|] == Hits(kids[..m], tag)
    decreases |kids|
  {
    if m < |kids| {
      assert kids[..m] == kids[..|kids| - 1][..m];
      HitsPrefix(kids[..|kids| - 1], tag, m);
    } else {
      assert kids[..m] == kids;
    }
  }

  lemma {:induction false} HitsCount(kids: seq<Node>, name: string, m: nat)
    requires m <= |kids|
    requires forall j :: 0 <= j < |kids| && kids[j].Element? && Strings.Lower(kids[j].name) == Strings.Lower(name) ==>
      kids[j].name == name
    ensures |Hits(kids[..m], Strings.Lower(name))| == SameNameCount(kids[..m], name)
    decreases m
  {
    if m > 0 {
      assert kids[..m][..m - 1] == kids[..m - 1];
      HitsCount(kids, name, m - 1);
    }
  }

  /** A matching child at `j` sits in the hit list right after the hits before it. */
  lemma HitAt(kids: seq<Node>, tag: string, j: nat)
    requires j < |kids| && kids[j].Element? && Strings.Lower(kids[j].name) == tag
    ensures |Hits(kids[..j], tag)| < |Hits(kids, tag)|
    ensures Hits(kids, tag)[|Hits(kids[..j], tag)|] == j
  {
    assert kids[..j + 1][..j] == kids[..j];
    assert Hits(kids[..j + 1], tag) == Hits(kids[..j], tag) + [j];
    HitsPrefix(kids, tag, j + 1);
  }

  /** Where the element at `q` sits among the children its step's name test selects. */
  lemma HitsOfElement(doc: Document, q: Path)
    requires IsElement(doc, q) && NamesConsistent(doc, q)
    ensures var kids := Siblings(doc, q); var name := ElementAt(doc, q).name;
      var hits := Hits(kids, Strings.Lower(name));
      Last(q) <= |kids| &&
      |hits| == SameNameCount(kids, name) &&
      SameNameCount(kids[..Last(q)], name) < |hits| &&
      hits[SameNameCount(kids[..Last(q)], name)] == Last(q)
  {
    SiblingsHold(doc, q);
    var kids := Siblings(doc, q);
    var name := ElementAt(doc, q).name;
    HitAt(kids, Strings.Lower(name), Last(q));
    HitsCount(kids, name, |kids|);
    HitsCount(kids, name, Last(q));
    assert kids[..|kids|] == kids;
  }

  lemma StepFromSelects(doc: Document, c: Path, st: Step, j: nat)
    requires var hits := Hits(ChildrenOf(doc, c), st.tag);
      match st.index
      case None => hits == [j]
      case Some(n) => 1 <= n <= |hits| && hits[n - 1] == j
    ensures StepFrom(doc, c, st) == [c + [j]]
  {
  }

  /** The step written for the element at `q` picks out its position in the hit list. */
  lemma StepLocates(doc: Document, q: Path)
    requires IsElement(doc, q) && NamesConsistent(doc, q)
    ensures var st := StepFor(doc, q);
      var hits := Hits(ChildrenOf(doc, Parent(q)), st.tag);
      match st.index
      case None => hits == [Last(q)]
      case Some(n) => 1 <= n <= |hits| && hits[n - 1] == Last(q)
  {
    HitsOfElement(doc, q);
    var st := StepFor(doc, q);
    var hits := Hits(ChildrenOf(doc, Parent(q)), st.tag);
    if st.index.None? {
      assert |hits| == 1 && hits[0] == Last(q);
    }
  }

  /** From its parent, the step of the element at `q` selects exactly that element. */
  lemma StepFindsElement(doc: Document, q: Path)
    requires IsElement(doc, q) && NamesConsistent(doc, q)
    ensures StepFrom(doc, Parent(q), StepFor(doc, q)) == [q]
  {
    StepSelectsLast(doc, q);
    assert q == Parent(q) + [Last(q)];
  }

  lemma StepSelectsLast(doc: Document, q: Path)
    requires IsElement(doc, q) && NamesConsistent(doc, q)
    ensures StepFrom(doc, Parent(q), StepFor(doc, q)) == [Parent(q) + [Last(q)]]
  {
    StepLocates(doc, q);
    StepFromSelects(doc, Parent(q), StepFor(doc, q), Last(q));
  }

  lemma {:induction false} EvaluateFindsElement(doc: Document, p: Path, k: nat)
    requires IsElement(doc, p) && k <= |p|
    requires forall i :: 0 < i <= |p| ==> IsElement(doc, p[..i]) && NamesConsistent(doc, p[..i])
    ensures Evaluate(doc, [p[..k]], Steps(doc, p)[k..]) == [p]
    decreases |p| - k
  {
    var steps := Steps(doc, p);
    if k == |p| {
      assert p[..k] == p;
    } else {
      var q := p[..k + 1];
      StepsAt(doc, p, k);
      StepFindsElement(doc, q);
      assert Parent(q) == p[..k];
      assert StepAll(doc, [p[..k]], steps[k]) == [q] by {
        assert [p[..k]][..0] == [];
      }
      assert steps[k..][1..] == steps[k + 1..];
      EvaluateFindsElement(doc, p, k + 1);
    }
  }

  lemma {:induction false} FirstWithIdFinds(doc: Document, order: seq<Path>, p: Path)
    requires IsElement(doc, p) && p in order && IdOf(ElementAt(doc, p)) != ""
    requires forall q :: IsElement(doc, q) && IdOf(ElementAt(doc, q)) == IdOf(ElementAt(doc, p)) ==> q == p
    ensures FirstWithId(doc, order, IdOf(ElementAt(doc, p))) == Some(p)
  {
    var id := IdOf(ElementAt(doc, p));
    assert CarriesId(doc, p, id);
    if order[0] != p {
      FirstWithIdFinds(doc, order[1..], p);
    }
  }

  // The id path with an empty id finds nothing on a page where no element carries an `id`
  // attribute, such as a lone `<html>` holding one text node.
  lemma EmptyIdNotFound()
    ensures var doc := [Element("HTML", map[], {}, true, "$a$", [Text("$a$")])];
      ResolveText(doc, IdPrefix + IdSuffix) == None
  {
    var doc := [Element("HTML", map[], {}, true, "$a$", [Text("$a$")])];
    var t := IdPrefix + IdSuffix;
    assert t[..|IdPrefix|] == IdPrefix && t[|t| - |IdSuffix|..] == IdSuffix;
    assert t[|IdPrefix|..|t| - |IdSuffix|] == "";
    assert ParseXPath(t) == Some(ById(""));
    forall q | q in ElementOrder(doc) ensures !CarriesId(doc, q, "") {
      ElementOrderIsElements(doc, q);
    }
  }

  /** On an unchanged tree, the path `getXPath` built for an element resolves to that element. */
  lemma AddressRoundTrip(doc: Document, p: Path)
    requires IsElement(doc, p) && Addressable(doc, p)
    ensures ResolveText(doc, XPathOf(doc, p)) == Some(p)
  {
    var x := Encode(doc, p);
    match x
    case ById(id) =>
      ParseRendered(x);
      ElementOrderIsElements(doc, p);
      FirstWithIdFinds(doc, ElementOrder(doc), p);
    case Absolute(steps) =>
      assert forall k :: 0 <= k < |steps| ==> GoodTag(steps[k].tag) by {
        forall k | 0 <= k < |steps| ensures GoodTag(steps[k].tag) {
          StepsAt(doc, p, k);
          assert IsElement(doc, p[..k + 1]);
        }
      }
      ParseRendered(x);
      EvaluateFindsElement(doc, p, 0);
      assert p[..0] == [];
  }
}
