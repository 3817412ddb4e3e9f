/**
 * `process_all_matches`: at most `max_passes` passes; each one expands the toggles, scans the
 * page, stops at an empty scan, hands only the first record to the selector, and on a
 * successful selection triggers the conversion and counts it.
 *
 * The loop is stated over any page type `S` and the four browser steps it drives (expand,
 * scan, select, trigger) as given functions; `PageSteps` instantiates the scan and the select
 * step with the modelled `JS_FIND_MATCHES` and `JS_SELECT_MATCH`.
 */
module Controller {
  import opened Options
  import opened Dom
  import XPath
  import Scanner
  import MatchRefs
  import Selector

  /** The value `execute_script(JS_SELECT_MATCH, ...)` hands back to Python: `None`, or a
      dictionary whose `"ok"` entry may be missing. */
  datatype Reply = Null | Reply(ok: Option<bool>)

  /** The test that lets a pass go on to the trigger: `sel_res` is truthy and `sel_res.get("ok")`
      is true. */
  predicate Succeeded(r: Reply) {
    r.Reply? && r.ok == Some(true)
  }

  /** How one pass ends: `break` on an empty scan, `continue` after a refused selection, or a
      triggered conversion. */
  datatype Verdict = Stopped | Skipped | Converted

  /** The four steps a pass drives. */
  datatype Steps<!S> = Steps(
    expand: S -> S,
    scan: S -> seq<Scanner.MatchRecord>,
    select: (S, MatchRefs.MatchRef) -> (Reply, S),
    trigger: S -> S)

  /** The records the scan of the next pass returns, after its expand step. */
  function Pending<S>(s: S, steps: Steps<S>): seq<Scanner.MatchRecord> {
    steps.scan(steps.expand(s))
  }

  /** The selector's reply and page for the first pending record. */
  function SelectFirst<S>(s: S, steps: Steps<S>): (Reply, S)
    requires Pending(s, steps) != []
  {
    steps.select(steps.expand(s), MatchRefs.FromRecord(Pending(s, steps)[0]))
  }

  /** One pass of the loop body: expand, scan, select `matches[0]`, trigger. */
  function Pass<S>(s: S, steps: Steps<S>): (r: (Verdict, S))
    ensures r.0 == Stopped <==> Pending(s, steps) == []
    ensures r.0 == Stopped ==> r.1 == steps.expand(s)
    ensures r.0 != Stopped ==>
      (r.0 == Converted <==> Succeeded(SelectFirst(s, steps).0)) &&
      (r.0 == Skipped ==> r.1 == SelectFirst(s, steps).1) &&
      (r.0 == Converted ==> r.1 == steps.trigger(SelectFirst(s, steps).1))
  {
    var e := steps.expand(s);
    var matches := steps.scan(e);
    if matches == [] then (Stopped, e)
    else
      var sel := steps.select(e, MatchRefs.FromRecord(matches[0]));
      if !Succeeded(sel.0) then (Skipped, sel.1) else (Converted, steps.trigger(sel.1))
  }

  /** The loop's effect: the final page, what `processed` ends at, and how many passes ran. */
  datatype Outcome<S> = Outcome(state: S, processed: nat, passes: nat)

  /** `budget` more passes from `s`: `processed` never exceeds the passes run, which never
      exceed the budget. */
  function Run<S>(s: S, budget: nat, steps: Steps<S>): (o: Outcome<S>)
    ensures o.processed <= o.passes <= budget
    decreases budget
  {
    if budget == 0 then Outcome(s, 0, 0)
    else
      var (v, t) := Pass(s, steps);
      if v == Stopped then Outcome(t, 0, 1)
      else
        var rest := Run(t, budget - 1, steps);
        Outcome(rest.state, rest.processed + (if v == Converted then 1 else 0), rest.passes + 1)
  }

  /** `range(max_passes)` runs no pass for a negative bound. */
  function Budget(maxPasses: int): nat {
    if maxPasses < 0 then 0 else maxPasses
  }

  /** The pass loop: `page` is what the browser shows before the first pass, `final` what it
      shows when the loop returns. */
  method ProcessAllMatches<S>(page: S, maxPasses: int, steps: Steps<S>) returns (processed: int, final: S)
    ensures var o := Run(page, Budget(maxPasses), steps);
      processed == o.processed && final == o.state
  {
    ghost var total := Run(page, Budget(maxPasses), steps);
    ghost var left := Budget(maxPasses);
    var s := page;
    processed := 0;
    var pass := 0;
    while pass < maxPasses
      invariant 0 <= pass && left == Budget(maxPasses) - pass
      invariant var rest := Run(s, left, steps);
        total == Outcome(rest.state, processed + rest.processed, pass + rest.passes)
      decreases maxPasses - pass
    {
      pass := pass + 1;
      var e := steps.expand(s);
      var matches := steps.scan(e);
      if |matches| == 0 {
        EmptyScanStops(s, left, steps);
        s := e;
        break;
      }
      var m := matches[0];
      var sel := steps.select(e, MatchRefs.FromRecord(m));
      assert sel == SelectFirst(s, steps);
      var selRes := sel.0;
      if !Succeeded(selRes) {
        RefusedSelectionSkips(s, left, steps);
        s := sel.1;
        left := left - 1;
        continue;
      }
      AcceptedSelectionCounts(s, left, steps);
      s := steps.trigger(sel.1);
      processed := processed + 1;
      left := left - 1;
    }
    final := s;
  }

  /** The selector's reply as Python sees it: `{ok: true}` or `{ok: false, error}`. */
  function ReplyOf(r: Selector.SelectResult): (reply: Reply)
    ensures Succeeded(reply) <==> r == Selector.Ok
  {
    Reply(Some(r.Ok?))
  }

  /** `execute_script(JS_SELECT_MATCH, ...)` on the modelled page. */
  function SelectPage(s: Selector.PageState, args: MatchRefs.MatchRef): (Reply, Selector.PageState) {
    var r := Selector.SelectOn(s, args);
    (ReplyOf(r.0), r.1)
  }

  /** `execute_script(JS_FIND_MATCHES)` on the modelled page. */
  function ScanPage(s: Selector.PageState): seq<Scanner.MatchRecord> {
    Scanner.Scan(s.doc)
  }

  /** The steps on the modelled page: the given expand and trigger, the modelled scan and
      selector. */
  function PageSteps(expand: Selector.PageState -> Selector.PageState, trigger: Selector.PageState -> Selector.PageState):
    Steps<Selector.PageState>
  {
    Steps(expand, ScanPage, SelectPage, trigger)
  }

  /** On the modelled page, the first record a pass finds came from a visible leaf `c` of the
      expanded page; when `c` is addressable the pass selects that record and converts it. */
  lemma PageConvertsFirstRecord(s: Selector.PageState, expand: Selector.PageState -> Selector.PageState,
                                trigger: Selector.PageState -> Selector.PageState) returns (c: Path)
    requires Pending(s, PageSteps(expand, trigger)) != []
    ensures Scanner.PageRoot(expand(s).doc).Some?
    ensures Scanner.IsCandidate(expand(s).doc, Scanner.PageRoot(expand(s).doc).value, c)
    ensures Scanner.Describes(expand(s).doc, c, Pending(s, PageSteps(expand, trigger))[0])
    ensures XPath.Addressable(expand(s).doc, c) ==> Pass(s, PageSteps(expand, trigger)).0 == Converted
  {
    c := Selector.ScanThenSelect(expand(s), 0);
  }

  // ----- what the loop promises -----

  /** The loop ends at the first pass whose scan is empty, with nothing more counted. */
  lemma EmptyScanStops<S>(s: S, budget: nat, steps: Steps<S>)
    requires budget > 0 && Pending(s, steps) == []
    ensures Run(s, budget, steps) == Outcome(steps.expand(s), 0, 1)
  {
  }

  /** The loop ends early only at a pass whose scan found nothing: that pass's expanded page is
      the final page and its scan is empty. */
  lemma {:induction false} EarlyEndMeansEmptyScan<S>(s: S, budget: nat, steps: Steps<S>)
    requires Run(s, budget, steps).passes < budget
    ensures steps.scan(Run(s, budget, steps).state) == []
    decreases budget
  {
    var (v, t) := Pass(s, steps);
    if v != Stopped {
      EarlyEndMeansEmptyScan(t, budget - 1, steps);
    }
  }

  /** A refused selection counts nothing and moves on to the next pass. */
  lemma RefusedSelectionSkips<S>(s: S, budget: nat, steps: Steps<S>)
    requires budget > 0 && Pending(s, steps) != []
    requires !Succeeded(SelectFirst(s, steps).0)
    ensures var rest := Run(SelectFirst(s, steps).1, budget - 1, steps);
      Run(s, budget, steps) == Outcome(rest.state, rest.processed, rest.passes + 1)
  {
  }

  /** A successful selection of the first record triggers once and counts exactly one. */
  lemma AcceptedSelectionCounts<S>(s: S, budget: nat, steps: Steps<S>)
    requires budget > 0 && Pending(s, steps) != []
    requires Succeeded(SelectFirst(s, steps).0)
    ensures var rest := Run(steps.trigger(SelectFirst(s, steps).1), budget - 1, steps);
      Run(s, budget, steps) == Outcome(rest.state, rest.processed + 1, rest.passes + 1)
  {
  }

  /** Every pass with something to do converts its first record, and that removes exactly one
      record from the next scan. */
  ghost predicate RemovesOneEachPass<S(!new)>(steps: Steps<S>) {
    forall s {:trigger Pass(s, steps)} :: |Pending(s, steps)| > 0 ==>
      Pass(s, steps).0 == Converted && |Pending(Pass(s, steps).1, steps)| == |Pending(s, steps)| - 1
  }

  /** With a trigger that removes the selected match and a selection that always succeeds, `N`
      pending matches and at least `N` passes convert all `N`; the pass after the last one finds
      nothing and stops the loop. */
  lemma {:induction false} RemovingTriggerConvertsAll<S(!new)>(s: S, budget: nat, steps: Steps<S>)
    requires RemovesOneEachPass(steps) && |Pending(s, steps)| <= budget
    ensures Run(s, budget, steps).processed == |Pending(s, steps)|
    ensures Run(s, budget, steps).passes == if |Pending(s, steps)| < budget then |Pending(s, steps)| + 1 else budget
    decreases budget
  {
    if |Pending(s, steps)| > 0 {
      var t := Pass(s, steps).1;
      assert Pass(s, steps).0 == Converted && |Pending(t, steps)| == |Pending(s, steps)| - 1;
      RemovingTriggerConvertsAll(t, budget - 1, steps);
      assert Run(s, budget, steps) == Outcome(Run(t, budget - 1, steps).state, Run(t, budget - 1, steps).processed + 1,
                                              Run(t, budget - 1, steps).passes + 1);
    }
  }

  /** Every pass with something to do converts its first record, and something is still left
      for the next pass. */
  ghost predicate KeepsMatchEachPass<S(!new)>(steps: Steps<S>) {
    forall s {:trigger Pass(s, steps)} :: |Pending(s, steps)| > 0 ==>
      Pass(s, steps).0 == Converted && |Pending(Pass(s, steps).1, steps)| > 0
  }

  /** With a trigger that never removes the match and a selection that always succeeds, the
      loop still ends after `max_passes` passes, having counted every one of them. */
  lemma {:induction false} StuckTriggerUsesEveryPass<S(!new)>(s: S, budget: nat, steps: Steps<S>)
    requires KeepsMatchEachPass(steps) && |Pending(s, steps)| > 0
    ensures Run(s, budget, steps).processed == budget
    ensures Run(s, budget, steps).passes == budget
    decreases budget
  {
    if budget > 0 {
      StuckTriggerUsesEveryPass(Pass(s, steps).1, budget - 1, steps);
    }
  }
}
