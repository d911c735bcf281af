/** The time-based conditions of the two evaluators (heart/uncertainty/ALSVEvaluator.java
    and heart/uncertainty/CertaintyFactorsEvaluator.java, evaluateTimeRange): the
    window a condition reads, the certainty at each of its points, and the way a
    quantifier turns those certainties into one answer. */
module TimeRanges {
  import opened Errors
  import opened Values
  import opened Numeric
  import opened CfAlgebra
  import opened Operators
  import opened RelativeTime
  import opened Memory
  import opened Sorting
  import opened Evaluators
  import opened CfEvaluator

  /** findHistoricalValues over the history followed by the current state: the
      state-count window of the working memory, or the millisecond window. The log
      is never empty, so the state-count window fails only where it refuses a
      period whose loops would never end. */
  function HistoricalValues(m: Memory, now: int, p: Period, name: string, overTime: OverTime): (r: Result<seq<Value>>)
    ensures p.from.unit.StateCount? ==> r == WindowOverStateCount(m.history + [CurrentState(m, now)], p, name)
    ensures p.from.unit.StateCount? && r.Fail? ==> r.error == IllegalArgument
    ensures p.from.unit.MilisCount? ==> r == Ok(overTime(m.history + [CurrentState(m, now)], p, name))
  {
    var states := m.history + [CurrentState(m, now)];
    if p.from.unit.MilisCount? then Ok(overTime(states, p, name))
    else WindowOverStateCount(states, p, name)
  }

  /** The memory each window value is evaluated in: a new working memory in which
      only the condition's attribute is registered, holding that value. */
  function PointMemory(alg: Algebra, attr: Attribute, v: Value): Result<Memory> {
    var w := WriteAttribute(Fresh, alg.domains, attr, v, true);
    if w.escaped.Some? then Fail(w.escaped.value) else Ok(w.m)
  }

  /** A point memory holds exactly the condition's attribute, and reads it as the
      value the write accepted. */
  lemma PointMemoryHoldsOnlyThePoint(alg: Algebra, attr: Attribute, v: Value)
    ensures PointMemory(alg, attr, v).Ok? <==> Coerce(alg.domains, attr, v).Ok?
    ensures PointMemory(alg, attr, v).Ok? ==>
              PointMemory(alg, attr, v).value.entries.Keys == {attr.name} &&
              GetValue(PointMemory(alg, attr, v).value, attr.name) == Coerce(alg.domains, attr, v).value
  {
  }

  /** The scalar evaluator of an operator, by evaluator. */
  function Scalar(ev: Evaluator, alg: Algebra, ops: Operands, op: Op, m: Memory): Result<real> {
    match ev
    case Crisp01 => AlsvScalar(alg, ops, op, m)
    case CertaintyFactors => CfScalar(alg, ops, op, m)
  }

  /** The loop over the window: each value is written into its point memory and the
      scalar evaluator of the operator is applied there. A failed write propagates,
      except AttributeNotRegistered; a failed evaluation is caught (None), and so is
      an AttributeNotRegistered write. */
  function PointCertainties(ev: Evaluator, alg: Algebra, ops: Operands, op: Op, window: seq<Value>): (r: Result<Option<seq<real>>>)
    ensures r.Ok? && r.value.Some? ==> |r.value.value| == |window|
    ensures r.Ok? && r.value.Some? ==> forall i :: 0 <= i < |window| ==>
              PointMemory(alg, ops.attr, window[i]).Ok? &&
              Scalar(ev, alg, ops, op, PointMemory(alg, ops.attr, window[i]).value) == Ok(r.value.value[i])
    ensures r.Fail? ==> r.error != AttributeNotRegistered &&
                        exists i :: 0 <= i < |window| && PointMemory(alg, ops.attr, window[i]) == Fail(r.error)
    decreases |window|
  {
    if |window| == 0 then Ok(Some([]))
    else
      match PointMemory(alg, ops.attr, window[0])
      case Fail(e) => if e == AttributeNotRegistered then Ok(None) else Fail(e)
      case Ok(point) =>
        match Scalar(ev, alg, ops, op, point)
        case Fail(_) => Ok(None)
        case Ok(c) =>
          var rest := PointCertainties(ev, alg, ops, op, window[1..]);
          assert forall i :: 1 <= i < |window| ==> window[i] == window[1..][i - 1];
          match rest
          case Fail(e) => Fail(e)
          case Ok(None) => Ok(None)
          case Ok(Some(cs)) => Ok(Some([c] + cs))
  }

  /** The number of evaluations above the satisfiability threshold. */
  function Positives(cs: seq<real>): (n: nat)
    ensures n <= |cs|
    ensures n == 0 <==> forall i :: 0 <= i < |cs| ==> cs[i] <= Threshold
    ensures n == |cs| <==> forall i :: 0 <= i < |cs| ==> cs[i] > Threshold
    decreases |cs|
  {
    if |cs| == 0 then 0
    else
      assert forall i :: 1 <= i < |cs| ==> cs[i] == cs[1..][i - 1];
      (if cs[0] > Threshold then 1 else 0) + Positives(cs[1..])
  }

  /** The share of satisfied points; 0 for an empty window. */
  function Percentage(cs: seq<real>): (pct: real) {
    if |cs| == 0 then 0.0 else Positives(cs) as real / |cs| as real
  }

  lemma RatioBounds(p: nat, n: nat)
    requires 0 < n && p <= n
    ensures 0.0 <= p as real / n as real <= 1.0
    ensures p == n ==> p as real / n as real == 1.0
  {
    DivWithin(p as real, n as real);
    if p == n {
      var x := n as real;
      assert x / x == 1.0;
    }
  }

  lemma PercentageBounds(cs: seq<real>)
    ensures 0.0 <= Percentage(cs) <= 1.0
    ensures |cs| > 0 && Positives(cs) == |cs| ==> Percentage(cs) == 1.0
  {
    if |cs| > 0 {
      RatioBounds(Positives(cs), |cs|);
    }
  }

  predicate QuantifierHolds(q: Quantifier, pct: real, p: real) {
    match q
    case MIN => pct >= p
    case MAX => pct <= p
    case EXACTLY => pct == p
  }

  /** ALSVEvaluator.evaluateTimeRange: 1 when the share of satisfied points meets
      the quantifier, -1 (below the crisp minimum of 0) otherwise and whenever an
      evaluation fails. */
  function AlsvTimeRange(alg: Algebra, ops: Operands, op: Op, tp: TimeParam, m: Memory, now: int, overTime: OverTime): (r: Result<real>)
    ensures r.Ok? ==> r.value == 1.0 || r.value == -1.0
    ensures r.Fail? ==> r.error != AttributeNotRegistered
    ensures HistoricalValues(m, now, tp.period, ops.attr.name, overTime).Fail? ==>
              r == Fail(HistoricalValues(m, now, tp.period, ops.attr.name, overTime).error)
  {
    var window :- HistoricalValues(m, now, tp.period, ops.attr.name, overTime);
    var points :- PointCertainties(Crisp01, alg, ops, op, window);
    match points
    case None => Ok(-1.0)
    case Some(cs) => Ok(if QuantifierHolds(tp.quantifier, Percentage(cs), tp.percentage) then 1.0 else -1.0)
  }

  /** When every point evaluates, the crisp time range is 1 exactly when the share
      of points where the condition holds meets the quantifier. A `min 0%` is met by
      every window and a `max 100%` too. */
  lemma AlsvTimeRangeCounts(alg: Algebra, ops: Operands, op: Op, tp: TimeParam, m: Memory, now: int, overTime: OverTime)
    requires HistoricalValues(m, now, tp.period, ops.attr.name, overTime).Ok?
    requires PointCertainties(Crisp01, alg, ops, op, HistoricalValues(m, now, tp.period, ops.attr.name, overTime).value).Ok?
    requires PointCertainties(Crisp01, alg, ops, op, HistoricalValues(m, now, tp.period, ops.attr.name, overTime).value).value.Some?
    ensures var cs := PointCertainties(Crisp01, alg, ops, op, HistoricalValues(m, now, tp.period, ops.attr.name, overTime).value).value.value;
      AlsvTimeRange(alg, ops, op, tp, m, now, overTime) == Ok(1.0) <==> QuantifierHolds(tp.quantifier, Percentage(cs), tp.percentage)
    ensures tp.quantifier == MIN && tp.percentage <= 0.0 ==> AlsvTimeRange(alg, ops, op, tp, m, now, overTime) == Ok(1.0)
    ensures tp.quantifier == MAX && tp.percentage >= 1.0 ==> AlsvTimeRange(alg, ops, op, tp, m, now, overTime) == Ok(1.0)
  {
    var cs := PointCertainties(Crisp01, alg, ops, op, HistoricalValues(m, now, tp.period, ops.attr.name, overTime).value).value.value;
    PercentageBounds(cs);
  }

  /** Java's Math.round: the nearest integer, halves rounded up. */
  function Round(x: real): int {
    (x + 0.5).Floor
  }

  /** The pivot index of the certainty-factor time range, as written:
      round(n * p + 0.5) - 1. */
  function Pivot(n: nat, p: real): (k: int) {
    Round(n as real * p + 0.5) - 1
  }

  /** The pivot is floor(n * p): inside the list for 0 <= p < 1 and a non-empty
      list, and one past its end for p = 1 and for the empty list. */
  lemma PivotIsFloor(n: nat, p: real)
    ensures Pivot(n, p) == (n as real * p).Floor
    ensures n > 0 && 0.0 <= p < 1.0 ==> 0 <= Pivot(n, p) < n
    ensures p == 1.0 ==> Pivot(n, p) == n
    ensures n == 0 ==> Pivot(n, p) == 0
  {
    var x := n as real * p;
    assert x + 0.5 + 0.5 == x + 1.0;
    assert (x + 1.0).Floor == x.Floor + 1;
    if n > 0 && 0.0 <= p < 1.0 {
      assert x < n as real;
    }
  }

  /** How the folds of the time-range quantifiers accumulate: plainly, or, in two
      branches of EXACTLY, by adding the combination to the running result. */
  datatype Accumulation = Plain | Added

  function Combined(c: Accumulation, acc: real, x: real): real {
    match c
    case Plain => Cumulative(acc, x)
    case Added => acc + Cumulative(acc, x)
  }

  /** The upward loops: from index i on, while the entries are not negative, each
      entry (negated when `neg`) is combined into the result. */
  function FoldUp(e: seq<real>, i: nat, acc: real, neg: bool, c: Accumulation): real
    decreases |e| - i
  {
    if i < |e| && e[i] >= 0.0 then FoldUp(e, i + 1, Combined(c, acc, if neg then -e[i] else e[i]), neg, c)
    else acc
  }

  /** The downward loops: from index i back, while the entries are not positive. */
  function FoldDown(e: seq<real>, i: int, acc: real, neg: bool, c: Accumulation): real
    requires i < |e|
    decreases i + 1
  {
    if i >= 0 && e[i] <= 0.0 then FoldDown(e, i - 1, Combined(c, acc, if neg then -e[i] else e[i]), neg, c)
    else acc
  }

  /** The quantifier branches of CertaintyFactorsEvaluator.evaluateTimeRange on the
      descending certainties `e` and the pivot `k`. Reading outside the list fails
      with IndexOutOfBounds; a branch that matches nothing gives -1. */
  function Quantified(q: Quantifier, e: seq<real>, k: int): (r: Result<real>)
    ensures r.Fail? ==> r.error == IndexOutOfBounds
  {
    match q
    case MIN =>
      if !(0 <= k < |e|) then Fail(IndexOutOfBounds)
      else if e[k] > 0.0 then Ok(FoldUp(e, k + 1, e[k], false, Plain))
      else if e[k] == 0.0 then Ok(0.0)
      else Ok(FoldDown(e, k - 1, e[k], false, Plain))
    case MAX =>
      if k + 1 < |e| then
        if k + 1 < 0 then Fail(IndexOutOfBounds)
        else if e[k + 1] < 0.0 then
          if k - 1 < 0 then Fail(IndexOutOfBounds)
          else Ok(FoldDown(e, k, -e[k - 1], true, Plain))
        else if e[k + 1] == 0.0 then Ok(0.0)
        else Ok(FoldUp(e, k + 2, -e[k + 1], true, Plain))
      else Ok(-1.0)
    case EXACTLY =>
      if !(0 <= k < |e|) then Fail(IndexOutOfBounds)
      else if e[k] > 0.0 && k + 1 < |e| && e[k + 1] < 0.0 then Ok(e[k])
      else if e[k] == 0.0 || (k + 1 < |e| && e[k + 1] == 0.0) then Ok(0.0)
      else if k + 1 < |e| && e[k + 1] > 0.0 then Ok(FoldUp(e, k + 2, e[k + 1], true, Added))
      else if e[k] < 0.0 then Ok(FoldDown(e, k - 1, e[k], false, Added))
      else Ok(-1.0)
  }

  /** CertaintyFactorsEvaluator.evaluateTimeRange: the certainties of the window's
      points, sorted largest first, read around the pivot by the quantifier. A
      failed evaluation gives -1. */
  function CfTimeRange(alg: Algebra, ops: Operands, op: Op, tp: TimeParam, m: Memory, now: int, overTime: OverTime): (r: Result<real>)
    ensures r.Fail? ==> r.error != AttributeNotRegistered
    ensures HistoricalValues(m, now, tp.period, ops.attr.name, overTime).Fail? ==>
              r == Fail(HistoricalValues(m, now, tp.period, ops.attr.name, overTime).error)
  {
    var window :- HistoricalValues(m, now, tp.period, ops.attr.name, overTime);
    var points :- PointCertainties(CertaintyFactors, alg, ops, op, window);
    match points
    case None => Ok(-1.0)
    case Some(cs) =>
      var e := SortDesc(cs);
      Quantified(tp.quantifier, e, Pivot(|e|, tp.percentage))
  }

  /** The first index from i on holding a negative entry, or the length. */
  function RunEnd(e: seq<real>, i: nat): (j: nat)
    requires i <= |e|
    ensures i <= j <= |e|
    ensures forall t :: i <= t < j ==> e[t] >= 0.0
    ensures j < |e| ==> e[j] < 0.0
    decreases |e| - i
  {
    if i < |e| && e[i] >= 0.0 then RunEnd(e, i + 1) else i
  }

  /** The plain upward loop is the cumulative fold of the run of non-negative
      entries that follows. */
  lemma {:induction false} FoldUpIsFold(e: seq<real>, i: nat, acc: real)
    requires i <= |e|
    ensures FoldUp(e, i, acc, false, Plain) == FoldFrom(acc, e[i..RunEnd(e, i)])
    decreases |e| - i
  {
    if i < |e| && e[i] >= 0.0 {
      FoldUpIsFold(e, i + 1, Cumulative(acc, e[i]));
      assert e[i..RunEnd(e, i)][1..] == e[i + 1..RunEnd(e, i + 1)];
    }
  }

  /** MIN with a confirming pivot folds the run of confirmations after it. */
  lemma MinIsRunFold(e: seq<real>, k: nat)
    requires k < |e| && e[k] > 0.0
    ensures Quantified(MIN, e, k) == Ok(FoldFrom(e[k], e[k + 1..RunEnd(e, k + 1)]))
  {
    FoldUpIsFold(e, k + 1, e[k]);
  }

  /** MIN with a confirming pivot: the answer is a confirmation at least as strong
      as the pivot entry and as every confirmation after it, and still a
      certainty. */
  lemma MinConfirmed(e: seq<real>, k: nat)
    requires k < |e| && e[k] > 0.0 && AllInUnit(e)
    ensures Quantified(MIN, e, k).Ok?
    ensures var r := Quantified(MIN, e, k).value;
      InUnit(r) && r >= e[k] && forall t :: k < t < RunEnd(e, k + 1) ==> r >= e[t]
  {
    MinIsRunFold(e, k);
    FoldDominatesRun(e, k);
  }

  /** Folding the confirmations after a confirming entry into it gives a
      certainty at least as strong as each of them. */
  lemma FoldDominatesRun(e: seq<real>, k: nat)
    requires k < |e| && e[k] > 0.0 && AllInUnit(e)
    ensures var r := FoldFrom(e[k], e[k + 1..RunEnd(e, k + 1)]);
      InUnit(r) && r >= e[k] && forall t :: k < t < RunEnd(e, k + 1) ==> r >= e[t]
  {
    var j := RunEnd(e, k + 1);
    assert InUnit(e[k]);
    RunFacts(e, k + 1);
    FoldDominates(e[k], e[k + 1..j]);
    SliceBound(e, k + 1, j, FoldFrom(e[k], e[k + 1..j]));
  }

  /** A fold of non-negative certainties into a non-negative one is a certainty
      at least as strong as each of them. */
  lemma FoldDominates(acc: real, cs: seq<real>)
    requires InUnit(acc) && acc >= 0.0 && AllInUnit(cs) && forall i :: 0 <= i < |cs| ==> cs[i] >= 0.0
    ensures InUnit(FoldFrom(acc, cs)) && FoldFrom(acc, cs) >= acc
    ensures forall i :: 0 <= i < |cs| ==> FoldFrom(acc, cs) >= cs[i]
  {
    FoldFromBounded(acc, cs);
    FoldFromConfirms(acc, cs);
  }

  /** A bound on every entry of a slice bounds the entries it was cut from. */
  lemma SliceBound(e: seq<real>, lo: nat, hi: nat, r: real)
    requires lo <= hi <= |e| && forall i :: 0 <= i < hi - lo ==> r >= e[lo..hi][i]
    ensures forall t :: lo <= t < hi ==> r >= e[t]
  {
    forall t | lo <= t < hi ensures r >= e[t] {
      assert e[t] == e[lo..hi][t - lo];
    }
  }

  /** The run of non-negative entries from index i on: certainties when the
      whole list is, and each of them not negative. */
  lemma RunFacts(e: seq<real>, i: nat)
    requires i <= |e| && AllInUnit(e)
    ensures var run := e[i..RunEnd(e, i)];
      AllInUnit(run) && forall t :: 0 <= t < |run| ==> run[t] >= 0.0
  {
    var run := e[i..RunEnd(e, i)];
    forall t | 0 <= t < |run| ensures InUnit(run[t]) && run[t] >= 0.0 {
      assert run[t] == e[i + t];
    }
  }

  /** An empty window: MIN and EXACTLY read outside the list, MAX answers -1. With
      p = 1 MIN and EXACTLY read one past the end of any list. */
  lemma CfTimeRangeEdges(e: seq<real>, p: real)
    ensures |e| == 0 ==> Quantified(MIN, e, Pivot(0, p)) == Fail(IndexOutOfBounds)
    ensures |e| == 0 ==> Quantified(EXACTLY, e, Pivot(0, p)) == Fail(IndexOutOfBounds)
    ensures |e| == 0 ==> Quantified(MAX, e, Pivot(0, p)) == Ok(-1.0)
    ensures Quantified(MIN, e, Pivot(|e|, 1.0)) == Fail(IndexOutOfBounds)
    ensures Quantified(EXACTLY, e, Pivot(|e|, 1.0)) == Fail(IndexOutOfBounds)
  {
    PivotIsFloor(0, p);
    PivotIsFloor(|e|, 1.0);
  }

  /** A zero pivot entry makes MIN answer 0; a positive pivot entry that is the last
      entry makes EXACTLY answer -1, whatever the other entries. */
  lemma CfQuantifierZeroAndLast(e: seq<real>, k: nat)
    requires k < |e|
    ensures e[k] == 0.0 ==> Quantified(MIN, e, k) == Ok(0.0)
    ensures e[k] > 0.0 && k + 1 == |e| ==> Quantified(EXACTLY, e, k) == Ok(-1.0)
  {
  }

  /** Every certainty-factor time range runs over the sorted certainties: the list
      the quantifiers read is descending and holds exactly the points' certainties. */
  lemma CfTimeRangeSorts(cs: seq<real>)
    ensures Descending(SortDesc(cs)) && multiset(SortDesc(cs)) == multiset(cs)
    ensures Descending(cs) ==> SortDesc(cs) == cs
  {
    if Descending(cs) {
      SortDescSorted(cs);
    }
  }
}
