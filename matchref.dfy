/**
 * `MatchRef`: the four fields of a scanner record that the pass loop hands to the selector
 * (`xpath`, `nodeIndex`, `start`, `end`), with the integer types of the Python record.
 */
module MatchRefs {
  import opened Options
  import Scanner
  import Delimiters
  import Dom

  /** A reference to one match: the element's XPath, the text node's index in walker order,
      and the offsets of the match in that text node. */
  datatype MatchRef = MatchRef(xpath: string, nodeIndex: int, start: int, end: int)

  /** The selector arguments built from one scanner record (the preview is dropped). */
  function FromRecord(r: Scanner.MatchRecord): MatchRef
  {
    MatchRef(r.xpath, r.nodeIndex, r.start, r.end)
  }

  /** A reference with a non-negative index and a non-empty, non-negative span. */
  predicate WellFormed(m: MatchRef) {
    m.nodeIndex >= 0 && 0 <= m.start < m.end
  }

  /** A reference to a match of the pattern in `s` is well formed, and its span covers at
      least three characters with `$` at both ends. */
  lemma RefOfMatch(r: Scanner.MatchRecord, s: string)
    requires Delimiters.MatchAt(s, r.start) == Some(r.end)
    ensures var m := FromRecord(r);
      WellFormed(m) && m.start + 3 <= m.end <= |s| && s[m.start] == '$' && s[m.end - 1] == '$'
  {
  }

  /** A record that describes a match in a text node of `c` gives a well-formed reference whose
      span lies in that text node and covers both delimiters. */
  lemma DescribedRefWellFormed(doc: Dom.Document, c: Dom.Path, r: Scanner.MatchRecord)
    requires Dom.IsElement(doc, c) && Scanner.Describes(doc, c, r)
    ensures var texts := Dom.TextNodes(Dom.ElementAt(doc, c));
      r.nodeIndex < |texts| &&
      var t := texts[r.nodeIndex].value;
      WellFormed(FromRecord(r)) && r.start + 3 <= r.end <= |t| && t[r.start] == '$' && t[r.end - 1] == '$'
  {
    var texts := Dom.TextNodes(Dom.ElementAt(doc, c));
    RefOfMatch(r, texts[r.nodeIndex].value);
  }

  /** Every reference built from the scan's output is well formed, and its span covers both
      delimiters: at least three characters, `$` first and last, inside the text node it names
      of the leaf it was found in. */
  lemma ScanRefsWellFormed(doc: Dom.Document, k: nat) returns (c: Dom.Path)
    requires k < |Scanner.Scan(doc)|
    ensures Dom.IsElement(doc, c)
    ensures var r := Scanner.Scan(doc)[k];
      var texts := Dom.TextNodes(Dom.ElementAt(doc, c));
      r.nodeIndex < |texts| &&
      var t := texts[r.nodeIndex].value;
      WellFormed(FromRecord(r)) && r.start + 3 <= r.end <= |t| && t[r.start] == '$' && t[r.end - 1] == '$'
  {
    c := Scanner.ScanSound(doc, k);
    DescribedRefWellFormed(doc, c, Scanner.Scan(doc)[k]);
  }
}
