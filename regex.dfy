/**
 * The fragment of regular expressions the delimiter pattern uses: literal characters,
 * the lazy group `(.+?)` and top-level alternation, with the backtracking semantics that
 * Python's `re` and JavaScript's `RegExp` share for it. The two engines differ only in
 * which characters `.` refuses when the dot-matches-newline flag is off.
 */
module Regex {
  import opened Options

  datatype Flavor = Python | JavaScript

  datatype Item = Lit(c: char) | LazyAnyPlus

  /** A compiled pattern: its alternatives, tried left to right, and its flags. */
  datatype Pattern = Pattern(flavor: Flavor, alternatives: seq<seq<Item>>, dotAll: bool)

  /** The pattern text shared by `DOLLAR_RE` in Python and the `re` literal in JavaScript. */
  const DollarSource: string := "\\$\\$(.+?)\\$\\$|\\$(.+?)\\$"

  const DoubleItems: seq<Item> := [Lit('$'), Lit('$'), LazyAnyPlus, Lit('$'), Lit('$')]
  const SingleItems: seq<Item> := [Lit('$'), LazyAnyPlus, Lit('$')]

  predicate Special(c: char) {
    c in "()[]{}.*+?^$\\|"
  }

  /** Reads pattern text: `\x` for a special `x`, the group `(.+?)`, `|`, and plain characters. */
  function ParseFrom(src: string, cur: seq<Item>, done: seq<seq<Item>>): Option<seq<seq<Item>>>
    decreases |src|
  {
    if src == [] then Some(done + [cur])
    else if src[0] == '|' then ParseFrom(src[1..], [], done + [cur])
    else if src[0] == '\\' then
      if |src| >= 2 && Special(src[1]) then ParseFrom(src[2..], cur + [Lit(src[1])], done) else None
    else if |src| >= 5 && src[..5] == "(.+?)" then ParseFrom(src[5..], cur + [LazyAnyPlus], done)
    else if Special(src[0]) then None
    else ParseFrom(src[1..], cur + [Lit(src[0])], done)
  }

  function Compile(flavor: Flavor, src: string, dotAll: bool): Option<Pattern> {
    match ParseFrom(src, [], [])
    case None => None
    case Some(alts) => Some(Pattern(flavor, alts, dotAll))
  }

  lemma EscapeStep(src: string, cur: seq<Item>, done: seq<seq<Item>>)
    requires |src| >= 2 && src[0] == '\\' && Special(src[1])
    ensures ParseFrom(src, cur, done) == ParseFrom(src[2..], cur + [Lit(src[1])], done)
  {
  }

  lemma GroupStep(src: string, cur: seq<Item>, done: seq<seq<Item>>)
    requires |src| >= 5 && src[..5] == "(.+?)"
    ensures ParseFrom(src, cur, done) == ParseFrom(src[5..], cur + [LazyAnyPlus], done)
  {
    assert src[0] == "(.+?)"[0];
  }

  lemma BarStep(src: string, cur: seq<Item>, done: seq<seq<Item>>)
    requires |src| >= 1 && src[0] == '|'
    ensures ParseFrom(src, cur, done) == ParseFrom(src[1..], [], done + [cur])
  {
  }

  lemma DoubleOpenParses()
    ensures ParseFrom(DollarSource, [], []) == ParseFrom("(.+?)\\$\\$|\\$(.+?)\\$", [Lit('$'), Lit('$')], [])
  {
    var L := Lit('$');
    var s0 := DollarSource;
    var s1 := "\\$(.+?)\\$\\$|\\$(.+?)\\$";
    var s2 := "(.+?)\\$\\$|\\$(.+?)\\$";
    assert s0[1] == '$' && s0[2..] == s1;
    EscapeStep(s0, [], []);
    assert [] + [L] == [L];
    assert s1[1] == '$' && s1[2..] == s2;
    EscapeStep(s1, [L], []);
    assert [L] + [L] == [L, L];
  }

  lemma DoubleContentParses()
    ensures ParseFrom("(.+?)\\$\\$|\\$(.+?)\\$", [Lit('$'), Lit('$')], []) ==
            ParseFrom("\\$\\$|\\$(.+?)\\$", [Lit('$'), Lit('$'), LazyAnyPlus], [])
  {
    var L, A := Lit('$'), LazyAnyPlus;
    var s2 := "(.+?)\\$\\$|\\$(.+?)\\$";
    assert s2[..5] == "(.+?)" && s2[5..] == "\\$\\$|\\$(.+?)\\$";
    GroupStep(s2, [L, L], []);
    assert [L, L] + [A] == [L, L, A];
  }

  lemma DoubleFirstCloseParses()
    ensures ParseFrom("\\$\\$|\\$(.+?)\\$", [Lit('$'), Lit('$'), LazyAnyPlus], []) ==
            ParseFrom("\\$|\\$(.+?)\\$", [Lit('$'), Lit('$'), LazyAnyPlus, Lit('$')], [])
  {
    var L, A := Lit('$'), LazyAnyPlus;
    var s3 := "\\$\\$|\\$(.+?)\\$";
    assert s3[1] == '$' && s3[2..] == "\\$|\\$(.+?)\\$";
    EscapeStep(s3, [L, L, A], []);
    assert [L, L, A] + [L] == [L, L, A, L];
  }

  lemma DoubleSecondCloseParses()
    ensures ParseFrom("\\$|\\$(.+?)\\$", [Lit('$'), Lit('$'), LazyAnyPlus, Lit('$')], []) ==
            ParseFrom("|\\$(.+?)\\$", DoubleItems, [])
  {
    var L, A := Lit('$'), LazyAnyPlus;
    var s4 := "\\$|\\$(.+?)\\$";
    assert s4[1] == '$' && s4[2..] == "|\\$(.+?)\\$";
    EscapeStep(s4, [L, L, A, L], []);
    assert [L, L, A, L] + [L] == DoubleItems;
  }

  lemma SingleAlternativeParses()
    ensures ParseFrom("|\\$(.+?)\\$", DoubleItems, []) == Some([DoubleItems, SingleItems])
  {
    var L, A := Lit('$'), LazyAnyPlus;
    var s5 := "|\\$(.+?)\\$";
    var s6 := "\\$(.+?)\\$";
    var s7 := "(.+?)\\$";
    var s8 := "\\$";
    assert s5[1..] == s6;
    BarStep(s5, DoubleItems, []);
    assert [] + [DoubleItems] == [DoubleItems];
    assert s6[1] == '$' && s6[2..] == s7;
    EscapeStep(s6, [], [DoubleItems]);
    assert [] + [L] == [L];
    assert s7[..5] == "(.+?)" && s7[5..] == s8;
    GroupStep(s7, [L], [DoubleItems]);
    assert [L] + [A] == [L, A];
    assert s8[1] == '$' && s8[2..] == "";
    EscapeStep(s8, [L, A], [DoubleItems]);
    assert [L, A] + [L] == SingleItems;
    assert [DoubleItems] + [SingleItems] == [DoubleItems, SingleItems];
  }

  /** The shared pattern text reads as the double alternative followed by the single one. */
  lemma DollarSourceIsTwoAlternatives()
    ensures ParseFrom(DollarSource, [], []) == Some([DoubleItems, SingleItems])
  {
    DoubleOpenParses();
    DoubleContentParses();
    DoubleFirstCloseParses();
    DoubleSecondCloseParses();
    SingleAlternativeParses();
  }

  /** Whether `.` accepts `c`: with the flag every character; without it Python refuses
      only `\n`, JavaScript also `\r`, U+2028 and U+2029. */
  predicate DotAccepts(flavor: Flavor, dotAll: bool, c: char) {
    dotAll ||
    match flavor
    case Python => c != '\n'
    case JavaScript => c != '\n' && c != '\r' && c != '\U{2028}' && c != '\U{2029}'
  }

  /** The end of the first match of `items` at `i` that backtracking finds, if any. */
  function MatchSeq(flavor: Flavor, dotAll: bool, items: seq<Item>, s: string, i: nat): (r: Option<nat>)
    requires i <= |s|
    ensures r.Some? ==> i <= r.value <= |s|
    decreases |items|, 0, 0
  {
    if items == [] then Some(i)
    else match items[0]
      case Lit(c) =>
        if i < |s| && s[i] == c then MatchSeq(flavor, dotAll, items[1..], s, i + 1) else None
      case LazyAnyPlus =>
        if i < |s| && DotAccepts(flavor, dotAll, s[i]) then LazyFrom(flavor, dotAll, items[1..], s, i + 1)
        else None
  }

  /** `.+?` has consumed up to `j`: try the rest first, and only then take one more character. */
  function LazyFrom(flavor: Flavor, dotAll: bool, rest: seq<Item>, s: string, j: nat): (r: Option<nat>)
    requires j <= |s|
    ensures r.Some? ==> j <= r.value <= |s|
    decreases |rest|, 1, |s| - j
  {
    match MatchSeq(flavor, dotAll, rest, s, j)
    case Some(e) => Some(e)
    case None =>
      if j < |s| && DotAccepts(flavor, dotAll, s[j]) then LazyFrom(flavor, dotAll, rest, s, j + 1) else None
  }

  /** The alternatives are tried in order; the first one that matches at `i` wins. */
  function MatchAlternatives(flavor: Flavor, dotAll: bool, alts: seq<seq<Item>>, s: string, i: nat): (r: Option<nat>)
    requires i <= |s|
    ensures r.Some? ==> i <= r.value <= |s|
    ensures r.None? <==> forall k :: 0 <= k < |alts| ==> MatchSeq(flavor, dotAll, alts[k], s, i).None?
  {
    if alts == [] then None
    else match MatchSeq(flavor, dotAll, alts[0], s, i)
      case Some(e) => Some(e)
      case None =>
        var r := MatchAlternatives(flavor, dotAll, alts[1..], s, i);
        assert forall k :: 1 <= k < |alts| ==> alts[k] == alts[1..][k - 1];
        r
  }

  function MatchAt(p: Pattern, s: string, i: nat): Option<nat>
    requires i <= |s|
  {
    MatchAlternatives(p.flavor, p.dotAll, p.alternatives, s, i)
  }

  /** `re.search(s, from)` / `exec` with `lastIndex == from`: the leftmost start at or after `from`. */
  function Search(p: Pattern, s: string, from: nat): (r: Option<(nat, nat)>)
    ensures r.Some? ==> from <= r.value.0 <= r.value.1 <= |s| && MatchAt(p, s, r.value.0) == Some(r.value.1)
    ensures r.Some? ==> forall i :: from <= i < r.value.0 ==> MatchAt(p, s, i).None?
    ensures r.None? ==> forall i :: from <= i <= |s| ==> MatchAt(p, s, i).None?
    decreases |s| + 1 - from
  {
    if from > |s| then None
    else match MatchAt(p, s, from)
      case Some(e) => Some((from, e))
      case None => Search(p, s, from + 1)
  }

  lemma {:induction false} FlavorsAgreeSeq(items: seq<Item>, s: string, i: nat)
    requires i <= |s|
    ensures MatchSeq(Python, true, items, s, i) == MatchSeq(JavaScript, true, items, s, i)
    decreases |items|, 0, 0
  {
    if items != [] {
      match items[0]
      case Lit(c) =>
        if i < |s| && s[i] == c { FlavorsAgreeSeq(items[1..], s, i + 1); }
      case LazyAnyPlus =>
        if i < |s| { FlavorsAgreeLazy(items[1..], s, i + 1); }
    }
  }

  lemma {:induction false} FlavorsAgreeLazy(rest: seq<Item>, s: string, j: nat)
    requires j <= |s|
    ensures LazyFrom(Python, true, rest, s, j) == LazyFrom(JavaScript, true, rest, s, j)
    decreases |rest|, 1, |s| - j
  {
    FlavorsAgreeSeq(rest, s, j);
    if j < |s| { FlavorsAgreeLazy(rest, s, j + 1); }
  }

  lemma {:induction false} FlavorsAgreeAlternatives(alts: seq<seq<Item>>, s: string, i: nat)
    requires i <= |s|
    ensures MatchAlternatives(Python, true, alts, s, i) == MatchAlternatives(JavaScript, true, alts, s, i)
  {
    if alts != [] {
      FlavorsAgreeSeq(alts[0], s, i);
      FlavorsAgreeAlternatives(alts[1..], s, i);
    }
  }

  /** `DOLLAR_RE = re.compile(..., re.DOTALL)`. */
  function PythonDollar(): (p: Pattern)
    ensures p.flavor == Python && p.dotAll && p.alternatives == [DoubleItems, SingleItems]
  {
    DollarSourceIsTwoAlternatives();
    Compile(Python, DollarSource, true).value
  }

  /** `/\$\$(.+?)\$\$|\$(.+?)\$/gs`; the `g` flag only makes `exec` start at `lastIndex`. */
  function JsDollar(): (p: Pattern)
    ensures p.flavor == JavaScript && p.dotAll && p.alternatives == [DoubleItems, SingleItems]
  {
    DollarSourceIsTwoAlternatives();
    Compile(JavaScript, DollarSource, true).value
  }

  /** With dot-matches-newline on, the Python and the JavaScript dollar patterns find the same
      match from every position, so a scan written against either gives the same spans. */
  lemma {:induction false} PythonAndJsDollarAgree(s: string, from: nat)
    ensures Search(PythonDollar(), s, from) == Search(JsDollar(), s, from)
    decreases |s| + 1 - from
  {
    if from <= |s| {
      FlavorsAgreeAlternatives([DoubleItems, SingleItems], s, from);
      PythonAndJsDollarAgree(s, from + 1);
    }
  }

  /** Without the flag the engines differ: JavaScript's `.` refuses a carriage return. */
  lemma FlagMattersForCarriageReturn()
    ensures MatchAlternatives(Python, false, [SingleItems], "$\r$", 0) == Some(3)
    ensures MatchAlternatives(JavaScript, false, [SingleItems], "$\r$", 0) == None
  {
  }
}
