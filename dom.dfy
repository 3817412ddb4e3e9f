/**
 * The document tree as a value: text nodes and elements, addressed by child-index paths from
 * `document.childNodes`. A path stands for object identity (`sib === el` compares paths).
 * Layout facts the browser computes (`offsetParent !== null`, `innerText`) are given per element.
 */
module Dom {
  import opened Options

  /** Child indexes from the document down to a node; `[]` is the document itself. */
  type Path = seq<nat>

  datatype Node =
    | Text(value: string)
    | Element(
        name: string,                      // nodeName
        attributes: map<string, string>,   // getAttribute
        classes: set<string>,              // classList
        rendered: bool,                    // offsetParent !== null
        innerText: string,                 // innerText, as the browser renders it
        children: seq<Node>)               // childNodes

  /** `document.childNodes`. */
  type Document = seq<Node>

  /** One text node found by a TreeWalker: its path below the walk's root, and its nodeValue. */
  datatype TextRef = TextRef(path: Path, value: string)

  function NodeAt(nodes: seq<Node>, p: Path): Option<Node>
    decreases |p|
  {
    if p == [] || p[0] >= |nodes| then None
    else if |p| == 1 then Some(nodes[p[0]])
    else if nodes[p[0]].Element? then NodeAt(nodes[p[0]].children, p[1..])
    else None
  }

  predicate IsElement(nodes: seq<Node>, p: Path) {
    NodeAt(nodes, p).Some? && NodeAt(nodes, p).value.Element?
  }

  function ElementAt(nodes: seq<Node>, p: Path): (e: Node)
    requires IsElement(nodes, p)
    ensures e.Element?
  {
    NodeAt(nodes, p).value
  }

  function Parent(p: Path): Path
    requires |p| > 0
  {
    p[..|p| - 1]
  }

  function Last(p: Path): nat
    requires |p| > 0
  {
    p[|p| - 1]
  }

  /** `childNodes` of the document (`[]`) or of the element at `c`; nothing for anything else. */
  function ChildrenOf(nodes: seq<Node>, c: Path): seq<Node> {
    if c == [] then nodes
    else match NodeAt(nodes, c)
      case Some(Element(_, _, _, _, _, children)) => children
      case _ => []
  }

  /** `el.parentNode.childNodes`, for an element at `p`. */
  function Siblings(nodes: seq<Node>, p: Path): seq<Node>
    requires |p| > 0
  {
    ChildrenOf(nodes, Parent(p))
  }

  function Attribute(n: Node, key: string): Option<string>
    requires n.Element?
  {
    if key in n.attributes then Some(n.attributes[key]) else None
  }

  /** `el.id`: the id attribute, or the empty string. */
  function IdOf(n: Node): string
    requires n.Element?
  {
    if "id" in n.attributes then n.attributes["id"] else ""
  }

  /** The child at index `j` of the node at `c` is the `j`th of its `childNodes`. */
  lemma {:induction false} NodeAtChild(nodes: seq<Node>, c: Path, j: nat)
    ensures NodeAt(nodes, c + [j]) == if j < |ChildrenOf(nodes, c)| then Some(ChildrenOf(nodes, c)[j]) else None
    decreases |c|
  {
    if c != [] {
      assert (c + [j])[0] == c[0] && (c + [j])[1..] == c[1..] + [j];
      if c[0] < |nodes| && nodes[c[0]].Element? {
        NodeAtChild(nodes[c[0]].children, c[1..], j);
        if c[1..] != [] {
          assert ChildrenOf(nodes, c) == ChildrenOf(nodes[c[0]].children, c[1..]);
        }
      }
    }
  }

  /** A path below an element is a path into that element's `childNodes`. */
  lemma {:induction false} NodeAtBelow(nodes: seq<Node>, p: Path, q: Path)
    requires IsElement(nodes, p) && q != []
    ensures NodeAt(nodes, p + q) == NodeAt(ElementAt(nodes, p).children, q)
    decreases |p|
  {
    assert (p + q)[0] == p[0] && (p + q)[1..] == p[1..] + q;
    if |p| > 1 {
      NodeAtBelow(nodes[p[0]].children, p[1..], q);
    }
  }

  /** An element's ancestors are elements. */
  lemma {:induction false} AncestorsAreElements(nodes: seq<Node>, p: Path, k: nat)
    requires NodeAt(nodes, p).Some? && 0 < k < |p|
    ensures IsElement(nodes, p[..k])
    decreases |p|
  {
    if k > 1 {
      AncestorsAreElements(nodes[p[0]].children, p[1..], k - 1);
      assert p[..k][1..] == p[1..][..k - 1];
    }
  }

  lemma ParentIsElement(nodes: seq<Node>, p: Path)
    requires NodeAt(nodes, p).Some? && |p| > 1
    ensures IsElement(nodes, Parent(p))
  {
    AncestorsAreElements(nodes, p, |p| - 1);
  }

  /** The node at `p` is the `Last(p)`th of its parent's children. */
  lemma SiblingsHold(nodes: seq<Node>, p: Path)
    requires NodeAt(nodes, p).Some?
    ensures Last(p) < |Siblings(nodes, p)| && Siblings(nodes, p)[Last(p)] == NodeAt(nodes, p).value
  {
    assert p == Parent(p) + [Last(p)];
    NodeAtChild(nodes, Parent(p), Last(p));
  }

  function Prefixed(k: nat, ps: seq<Path>): (r: seq<Path>)
    ensures |r| == |ps| && forall i :: 0 <= i < |ps| ==> r[i] == [k] + ps[i]
  {
    seq(|ps|, i requires 0 <= i < |ps| => [k] + ps[i])
  }

  /** Every element path of a forest, in document (pre-)order. */
  function ElementOrder(nodes: seq<Node>): seq<Path>
    decreases nodes
  {
    if nodes == [] then []
    else
      var k := |nodes| - 1;
      ElementOrder(nodes[..k]) +
      (if nodes[k].Element? then [[k]] + Prefixed(k, ElementOrder(nodes[k].children)) else [])
  }

  lemma NodeAtInPrefixForest(nodes: seq<Node>, k: nat, p: Path)
    requires k <= |nodes| && p != [] && p[0] < k
    ensures NodeAt(nodes[..k], p) == NodeAt(nodes, p)
  {
  }

  /** The document order lists exactly the elements. */
  lemma {:induction false} ElementOrderIsElements(nodes: seq<Node>, p: Path)
    ensures p in ElementOrder(nodes) <==> IsElement(nodes, p)
    decreases nodes
  {
    if nodes != [] {
      var k := |nodes| - 1;
      var tail := if nodes[k].Element? then [[k]] + Prefixed(k, ElementOrder(nodes[k].children)) else [];
      assert ElementOrder(nodes) == ElementOrder(nodes[..k]) + tail;
      ElementOrderIsElements(nodes[..k], p);
      if p != [] && p[0] < k {
        NodeAtInPrefixForest(nodes, k, p);
      } else if p != [] && p[0] == k {
        assert p !in ElementOrder(nodes[..k]);
        if nodes[k].Element? && |p| > 1 {
          ElementOrderIsElements(nodes[k].children, p[1..]);
          assert p == [k] + p[1..];
          if IsElement(nodes, p) {
            var i :| 0 <= i < |ElementOrder(nodes[k].children)| && ElementOrder(nodes[k].children)[i] == p[1..];
            assert Prefixed(k, ElementOrder(nodes[k].children))[i] == p;
          }
          if p in tail {
            var i :| 0 <= i < |ElementOrder(nodes[k].children)| && p == [k] + ElementOrder(nodes[k].children)[i];
            assert p[1..] == ElementOrder(nodes[k].children)[i];
          }
        } else if nodes[k].Element? {
          assert p == [k];
        } else if p in tail {
          assert false;
        }
      } else {
        assert p !in tail;
      }
    }
  }

  /** Document (pre-)order between two nodes: an ancestor comes before its descendants, and
      otherwise, where the paths part, the smaller child index comes first. */
  predicate Precedes(p: Path, q: Path)
    decreases |p|
  {
    q != [] && (p == [] || p[0] < q[0] || (p[0] == q[0] && Precedes(p[1..], q[1..])))
  }

  lemma {:induction false} PrecedesIrreflexive(p: Path)
    ensures !Precedes(p, p)
    decreases |p|
  {
    if p != [] {
      PrecedesIrreflexive(p[1..]);
    }
  }

  lemma PrecedesCons(k: nat, a: Path, b: Path)
    requires Precedes(a, b)
    ensures Precedes([k] + a, [k] + b)
  {
    assert ([k] + a)[1..] == a && ([k] + b)[1..] == b;
  }

  /** An entry of the document order is a path into the forest. */
  lemma ElementOrderEntry(nodes: seq<Node>, i: nat)
    requires i < |ElementOrder(nodes)|
    ensures ElementOrder(nodes)[i] != [] && ElementOrder(nodes)[i][0] < |nodes|
  {
    ElementOrderIsElements(nodes, ElementOrder(nodes)[i]);
  }

  /** `ElementOrder` is document order, so it lists no element twice. */
  lemma {:induction false} ElementOrderOrdered(nodes: seq<Node>, i: nat, j: nat)
    requires i < j < |ElementOrder(nodes)|
    ensures Precedes(ElementOrder(nodes)[i], ElementOrder(nodes)[j])
    ensures ElementOrder(nodes)[i] != ElementOrder(nodes)[j]
    decreases nodes
  {
    var k := |nodes| - 1;
    var front := ElementOrder(nodes[..k]);
    var tail := if nodes[k].Element? then [[k]] + Prefixed(k, ElementOrder(nodes[k].children)) else [];
    assert ElementOrder(nodes) == front + tail;
    var a, b := ElementOrder(nodes)[i], ElementOrder(nodes)[j];
    if j < |front| {
      ElementOrderOrdered(nodes[..k], i, j);
      assert a == front[i] && b == front[j];
    } else if i < |front| {
      ElementOrderEntry(nodes[..k], i);
      assert a == front[i];
      assert b == tail[j - |front|] && b[0] == k;
    } else {
      var inner := ElementOrder(nodes[k].children);
      if i == |front| {
        ElementOrderEntry(nodes[k].children, j - |front| - 1);
        assert a == [k] && b == [k] + inner[j - |front| - 1];
        assert b[1..] == inner[j - |front| - 1];
      } else {
        ElementOrderOrdered(nodes[k].children, i - |front| - 1, j - |front| - 1);
        assert a == [k] + inner[i - |front| - 1] && b == [k] + inner[j - |front| - 1];
        PrecedesCons(k, inner[i - |front| - 1], inner[j - |front| - 1]);
      }
    }
    PrecedesIrreflexive(a);
  }

  /** The text nodes a `TreeWalker(el, SHOW_TEXT)` visits, in document order. */
  function TextNodes(n: Node): seq<TextRef> {
    match n
    case Text(_) => []
    case Element(_, _, _, _, _, children) => ForestTexts(children)
  }

  function ForestTexts(ns: seq<Node>): seq<TextRef>
    decreases ns
  {
    if ns == [] then []
    else
      var k := |ns| - 1;
      ForestTexts(ns[..k]) + LastTexts(ns[k], k)
  }

  /** The text nodes the walk yields for child `k` of a forest, under paths starting at `k`. */
  function LastTexts(n: Node, k: nat): seq<TextRef>
    decreases n
  {
    match n
    case Text(v) => [TextRef([k], v)]
    case Element(_, _, _, _, _, children) => PrefixedTexts(k, ForestTexts(children))
  }

  function PrefixedTexts(k: nat, ts: seq<TextRef>): (r: seq<TextRef>)
    ensures |r| == |ts|
    ensures forall i :: 0 <= i < |ts| ==> r[i] == TextRef([k] + ts[i].path, ts[i].value)
  {
    seq(|ts|, i requires 0 <= i < |ts| => TextRef([k] + ts[i].path, ts[i].value))
  }

  /** The concatenated values of those text nodes: `innerText` when no CSS hides or adds text. */
  function FlatText(n: Node): string {
    Concat(TextNodes(n))
  }

  function Concat(ts: seq<TextRef>): string {
    if ts == [] then "" else Concat(ts[..|ts| - 1]) + ts[|ts| - 1].value
  }

  /** A character of any text node appears in the concatenation. */
  lemma {:induction false} ConcatContains(ts: seq<TextRef>, i: nat, c: char)
    requires i < |ts| && c in ts[i].value
    ensures c in Concat(ts)
  {
    if i < |ts| - 1 {
      ConcatContains(ts[..|ts| - 1], i, c);
    }
  }

  /** Every text node the walk yields is a text node at that path below the root's children. */
  lemma {:induction false} ForestTextsAreTextNodes(ns: seq<Node>, i: nat)
    requires i < |ForestTexts(ns)|
    ensures NodeAt(ns, ForestTexts(ns)[i].path) == Some(Text(ForestTexts(ns)[i].value))
    decreases ns
  {
    var k := |ns| - 1;
    var front := ForestTexts(ns[..k]);
    if i < |front| {
      ForestTextsAreTextNodes(ns[..k], i);
      assert ForestTexts(ns)[i] == front[i];
      NodeAtInPrefixForest(ns, k, front[i].path);
    } else if ns[k].Element? {
      var inner := ForestTexts(ns[k].children);
      ForestTextsAreTextNodes(ns[k].children, i - |front|);
      var t := ForestTexts(ns)[i];
      assert t == TextRef([k] + inner[i - |front|].path, inner[i - |front|].value);
      assert t.path[1..] == inner[i - |front|].path;
    }
  }

  /** Document order between two nodes neither of which contains the other: where their paths
      part, the first one's child index is the smaller. */
  predicate PathBefore(p: Path, q: Path)
    decreases |p|
  {
    p != [] && q != [] && (p[0] < q[0] || (p[0] == q[0] && PathBefore(p[1..], q[1..])))
  }

  lemma {:induction false} PathBeforeIrreflexive(p: Path)
    ensures !PathBefore(p, p)
    decreases |p|
  {
    if p != [] {
      PathBeforeIrreflexive(p[1..]);
    }
  }

  lemma PathBeforeCons(k: nat, a: Path, b: Path)
    requires PathBefore(a, b)
    ensures PathBefore([k] + a, [k] + b)
  {
    assert ([k] + a)[1..] == a && ([k] + b)[1..] == b;
  }

  /** The walk visits the text nodes in document order, so it visits none twice. */
  lemma {:induction false} ForestTextsOrdered(ns: seq<Node>, i: nat, j: nat)
    requires i < j < |ForestTexts(ns)|
    ensures PathBefore(ForestTexts(ns)[i].path, ForestTexts(ns)[j].path)
    ensures ForestTexts(ns)[i].path != ForestTexts(ns)[j].path
    decreases ns
  {
    var k := |ns| - 1;
    var front := ForestTexts(ns[..k]);
    var tail := LastTexts(ns[k], k);
    var a, b := ForestTexts(ns)[i].path, ForestTexts(ns)[j].path;
    if j < |front| {
      ForestTextsOrdered(ns[..k], i, j);
      assert a == front[i].path && b == front[j].path;
    } else if i < |front| {
      ForestTextsAreTextNodes(ns[..k], i);
      assert a == front[i].path;
      assert b == tail[j - |front|].path;
      assert b[0] == k;
    } else {
      var inner := ForestTexts(ns[k].children);
      ForestTextsOrdered(ns[k].children, i - |front|, j - |front|);
      assert a == [k] + inner[i - |front|].path && b == [k] + inner[j - |front|].path;
      PathBeforeCons(k, inner[i - |front|].path, inner[j - |front|].path);
    }
    PathBeforeIrreflexive(a);
  }

  /** The walk misses no text node: every text node below the root's children is visited,
      with its path and value. */
  lemma {:induction false} ForestTextsComplete(ns: seq<Node>, q: Path, v: string) returns (i: nat)
    requires NodeAt(ns, q) == Some(Text(v))
    ensures i < |ForestTexts(ns)| && ForestTexts(ns)[i] == TextRef(q, v)
    decreases ns
  {
    var k := |ns| - 1;
    var front := ForestTexts(ns[..k]);
    if q[0] < k {
      NodeAtInPrefixForest(ns, k, q);
      i := ForestTextsComplete(ns[..k], q, v);
      assert ForestTexts(ns)[i] == front[i];
    } else if |q| == 1 {
      i := |front|;
    } else {
      var j := ForestTextsComplete(ns[k].children, q[1..], v);
      i := |front| + j;
      assert q == [k] + q[1..];
    }
  }

  /** `TreeWalker(el, SHOW_TEXT)` reaches every text node below the element at `el`. */
  lemma TextNodesComplete(doc: Document, el: Path, q: Path, v: string) returns (i: nat)
    requires IsElement(doc, el) && q != [] && NodeAt(doc, el + q) == Some(Text(v))
    ensures i < |TextNodes(ElementAt(doc, el))| && TextNodes(ElementAt(doc, el))[i] == TextRef(q, v)
  {
    NodeAtBelow(doc, el, q);
    i := ForestTextsComplete(ElementAt(doc, el).children, q, v);
  }
}
