/**
 * The delimiter matcher written out by hand: what `/\$\$(.+?)\$\$|\$(.+?)\$/gs` finds at one
 * position, what `exec` finds from `lastIndex`, and the spans the repeated `exec` loop yields.
 * Each is proved equal to the backtracking engine of module Regex on the dollar pattern.
 */
module Delimiters {
  import opened Options
  import Regex

  /** A match `[start, end)` inside one text node's value. */
  datatype Span = Span(start: nat, end: nat)

  /** `$$` starts at `j`. */
  predicate DoubleAt(s: string, j: nat) {
    j + 1 < |s| && s[j] == '$' && s[j + 1] == '$'
  }

  predicate DollarAt(s: string, j: nat) {
    j < |s| && s[j] == '$'
  }

  /** The first `$$` at or after `from`. */
  function DoubleClose(s: string, from: nat): (r: Option<nat>)
    ensures r.Some? ==> from <= r.value && DoubleAt(s, r.value)
    ensures r.Some? ==> forall j :: from <= j < r.value ==> !DoubleAt(s, j)
    ensures r.None? ==> forall j :: from <= j ==> !DoubleAt(s, j)
    decreases |s| - from
  {
    if from + 1 >= |s| then None
    else if DoubleAt(s, from) then Some(from)
    else DoubleClose(s, from + 1)
  }

  /** The first `$` at or after `from`. */
  function SingleClose(s: string, from: nat): (r: Option<nat>)
    ensures r.Some? ==> from <= r.value && DollarAt(s, r.value)
    ensures r.Some? ==> forall j :: from <= j < r.value ==> !DollarAt(s, j)
    ensures r.None? ==> forall j :: from <= j ==> !DollarAt(s, j)
    decreases |s| - from
  {
    if from >= |s| then None
    else if DollarAt(s, from) then Some(from)
    else SingleClose(s, from + 1)
  }

  /** `$$c$$` at `i` ending at `e`, with content `c` of at least one character and the
      shortest such content (the lazy `.+?`). */
  ghost predicate IsDoubleSpan(s: string, i: nat, e: nat) {
    DoubleAt(s, i) && i + 5 <= e && DoubleAt(s, e - 2) &&
    forall j :: i + 3 <= j < e - 2 ==> !DoubleAt(s, j)
  }

  /** `$c$` at `i` ending at `e`, with the shortest non-empty content. */
  ghost predicate IsSingleSpan(s: string, i: nat, e: nat) {
    DollarAt(s, i) && i + 3 <= e && DollarAt(s, e - 1) &&
    forall j :: i + 2 <= j < e - 1 ==> !DollarAt(s, j)
  }

  /** The double form can match at `i`: `$$` there and a later `$$` after at least one character. */
  ghost predicate DoubleApplies(s: string, i: nat) {
    DoubleAt(s, i) && exists j :: i + 3 <= j && DoubleAt(s, j)
  }

  ghost predicate SingleApplies(s: string, i: nat) {
    DollarAt(s, i) && exists j :: i + 2 <= j && DollarAt(s, j)
  }

  /**
   * The end of the match at `i`. The double form is tried first; only when it cannot match is
   * the single form tried. So `$$x$` matches whole through the single form, and `$$a$$` is
   * never split into two single matches.
   */
  function MatchAt(s: string, i: nat): (r: Option<nat>)
    ensures r.Some? ==> i + 3 <= r.value <= |s| && s[i] == '$' && s[r.value - 1] == '$'
    ensures DoubleApplies(s, i) ==> r.Some? && IsDoubleSpan(s, i, r.value)
    ensures !DoubleApplies(s, i) && SingleApplies(s, i) ==> r.Some? && IsSingleSpan(s, i, r.value)
    ensures r.None? <==> !DoubleApplies(s, i) && !SingleApplies(s, i)
  {
    if DoubleAt(s, i) && DoubleClose(s, i + 3).Some? then
      Some(DoubleClose(s, i + 3).value + 2)
    else
      assert !DoubleApplies(s, i);
      if DollarAt(s, i) && SingleClose(s, i + 2).Some? then
        Some(SingleClose(s, i + 2).value + 1)
      else
        assert !SingleApplies(s, i);
        None
  }

  /** A double or single span is only ever the match it describes. */
  lemma {:induction false} SpansAreTheMatch(s: string, i: nat, e: nat)
    ensures IsDoubleSpan(s, i, e) ==> MatchAt(s, i) == Some(e)
    ensures IsSingleSpan(s, i, e) && !DoubleApplies(s, i) ==> MatchAt(s, i) == Some(e)
  {
    if IsDoubleSpan(s, i, e) {
      assert DoubleApplies(s, i) by { assert DoubleAt(s, e - 2); }
    }
    if IsSingleSpan(s, i, e) && !DoubleApplies(s, i) {
      assert SingleApplies(s, i) by { assert DollarAt(s, e - 1); }
    }
  }

  /** `re.exec(s)` with `lastIndex == from`: the leftmost match starting at or after `from`. */
  function Exec(s: string, from: nat): (r: Option<Span>)
    ensures r.Some? ==> from <= r.value.start && MatchAt(s, r.value.start) == Some(r.value.end)
    ensures r.Some? ==> forall i :: from <= i < r.value.start ==> MatchAt(s, i).None?
    ensures r.None? ==> forall i :: from <= i ==> MatchAt(s, i).None?
    decreases |s| + 1 - from
  {
    if from >= |s| then
      assert forall i :: from <= i ==> !DollarAt(s, i);
      None
    else match MatchAt(s, from)
      case Some(e) => Some(Span(from, e))
      case None => Exec(s, from + 1)
  }

  /** What the `while ((m = re.exec(s)) !== null)` loop collects once `lastIndex` is `from`:
      each match, then again from its end. */
  function MatchesFrom(s: string, from: nat): (r: seq<Span>)
    ensures forall k :: 0 <= k < |r| ==>
      from <= r[k].start && r[k].start + 3 <= r[k].end <= |s| && MatchAt(s, r[k].start) == Some(r[k].end)
    ensures forall a, b :: 0 <= a < b < |r| ==> r[a].end <= r[b].start
    decreases |s| + 1 - from
  {
    match Exec(s, from)
    case None => []
    case Some(m) =>
      var rest := MatchesFrom(s, m.end);
      assert forall k :: 1 <= k < |[m] + rest| ==> ([m] + rest)[k] == rest[k - 1];
      [m] + rest
  }

  /** One turn of the `exec` loop: a found match, then the rest from its end. */
  lemma ExecThenRest(s: string, from: nat)
    requires Exec(s, from).Some?
    ensures from < Exec(s, from).value.end <= |s|
    ensures MatchesFrom(s, from) == [Exec(s, from).value] + MatchesFrom(s, Exec(s, from).value.end)
  {
  }

  lemma ExecEnds(s: string, from: nat)
    requires Exec(s, from).None?
    ensures MatchesFrom(s, from) == []
  {
  }

  /** Leftmost-first and non-overlapping: every position at or after `from` where the pattern
      matches lies inside one of the collected spans. */
  lemma {:induction false} MatchesFromCover(s: string, from: nat, i: nat)
    requires from <= i && MatchAt(s, i).Some?
    ensures exists k :: 0 <= k < |MatchesFrom(s, from)| && MatchesFrom(s, from)[k].start <= i < MatchesFrom(s, from)[k].end
    decreases |s| + 1 - from
  {
    var r := MatchesFrom(s, from);
    var m := Exec(s, from).value;
    assert r == [m] + MatchesFrom(s, m.end);
    if i < m.end {
      assert r[0].start <= i < r[0].end;
    } else {
      MatchesFromCover(s, m.end, i);
      var rest := MatchesFrom(s, m.end);
      var k :| 0 <= k < |rest| && rest[k].start <= i < rest[k].end;
      assert r[k + 1] == rest[k];
    }
  }

  /** All matches of one text node, in the order `exec` returns them. */
  function Matches(s: string): seq<Span> {
    MatchesFrom(s, 0)
  }

  /** A text node without `$` yields no match. */
  lemma NoDollarNoMatch(s: string)
    requires '$' !in s
    ensures Matches(s) == []
  {
  }

  // ----- agreement with the backtracking engine -----

  lemma {:induction false} LazyDoubleClose(s: string, j: nat)
    requires j <= |s|
    ensures Regex.LazyFrom(Regex.JavaScript, true, [Regex.Lit('$'), Regex.Lit('$')], s, j)
      == if DoubleClose(s, j).Some? then Some(DoubleClose(s, j).value + 2) else None
    decreases |s| - j
  {
    var rest := [Regex.Lit('$'), Regex.Lit('$')];
    assert rest[1..] == [Regex.Lit('$')] && rest[1..][1..] == [];
    if j < |s| { LazyDoubleClose(s, j + 1); }
  }

  lemma {:induction false} LazySingleClose(s: string, j: nat)
    requires j <= |s|
    ensures Regex.LazyFrom(Regex.JavaScript, true, [Regex.Lit('$')], s, j)
      == if SingleClose(s, j).Some? then Some(SingleClose(s, j).value + 1) else None
    decreases |s| - j
  {
    var rest := [Regex.Lit('$')];
    assert rest[1..] == [];
    if j < |s| { LazySingleClose(s, j + 1); }
  }

  lemma DoubleAlternativeIsDoubleClose(s: string, i: nat)
    requires i <= |s|
    ensures Regex.MatchSeq(Regex.JavaScript, true, Regex.DoubleItems, s, i)
      == if DoubleAt(s, i) && DoubleClose(s, i + 3).Some? then Some(DoubleClose(s, i + 3).value + 2) else None
  {
    var d := Regex.DoubleItems;
    assert d[1..] == [Regex.Lit('$'), Regex.LazyAnyPlus, Regex.Lit('$'), Regex.Lit('$')];
    assert d[1..][1..] == [Regex.LazyAnyPlus, Regex.Lit('$'), Regex.Lit('$')];
    assert d[1..][1..][1..] == [Regex.Lit('$'), Regex.Lit('$')];
    if i + 2 < |s| { LazyDoubleClose(s, i + 3); }
  }

  lemma SingleAlternativeIsSingleClose(s: string, i: nat)
    requires i <= |s|
    ensures Regex.MatchSeq(Regex.JavaScript, true, Regex.SingleItems, s, i)
      == if DollarAt(s, i) && SingleClose(s, i + 2).Some? then Some(SingleClose(s, i + 2).value + 1) else None
  {
    var g := Regex.SingleItems;
    assert g[1..] == [Regex.LazyAnyPlus, Regex.Lit('$')];
    assert g[1..][1..] == [Regex.Lit('$')];
    if i + 1 < |s| { LazySingleClose(s, i + 2); }
  }

  lemma MatchAtIsBothAlternatives(s: string, i: nat)
    requires i <= |s|
    ensures MatchAt(s, i) == Regex.MatchAlternatives(Regex.JavaScript, true, [Regex.DoubleItems, Regex.SingleItems], s, i)
  {
    var alts := [Regex.DoubleItems, Regex.SingleItems];
    DoubleAlternativeIsDoubleClose(s, i);
    SingleAlternativeIsSingleClose(s, i);
    assert alts[1..] == [Regex.SingleItems] && alts[1..][1..] == [];
  }

  /** The hand-written matcher is exactly the JavaScript regex at every position. */
  lemma MatchAtIsTheRegex(s: string, i: nat)
    requires i <= |s|
    ensures MatchAt(s, i) == Regex.MatchAt(Regex.JsDollar(), s, i)
  {
    var p := Regex.JsDollar();
    MatchAtIsBothAlternatives(s, i);
  }

  /** `exec` from `from` is the JavaScript regex search from `from`. */
  lemma {:induction false} ExecIsTheRegexSearch(s: string, from: nat)
    requires from <= |s|
    ensures Exec(s, from) == match Regex.Search(Regex.JsDollar(), s, from)
      case None => None
      case Some(m) => Some(Span(m.0, m.1))
    decreases |s| - from
  {
    MatchAtIsTheRegex(s, from);
    if from < |s| && MatchAt(s, from).None? { ExecIsTheRegexSearch(s, from + 1); }
    if from == |s| { assert Regex.Search(Regex.JsDollar(), s, from + 1).None?; }
  }

  // ----- concrete cases -----

  /** `$$x$` is one match, through the single form. */
  lemma DoubleOpenSingleClose()
    ensures Matches("$$x$") == [Span(0, 4)]
  {
    var s := "$$x$";
    assert !DoubleApplies(s, 0);
    assert MatchAt(s, 0) == Some(4);
    assert Exec(s, 4) == None;
  }

  /** The content may span lines. */
  lemma ContentSpansLines()
    ensures MatchAt("$a\nb$", 0) == Some(5)
  {
    var s := "$a\nb$";
    assert !DoubleApplies(s, 0);
    assert IsSingleSpan(s, 0, 5);
    SpansAreTheMatch(s, 0, 5);
  }
}
