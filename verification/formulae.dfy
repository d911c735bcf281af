/** ALSV(FD) formulae (heart/alsvfd/Formulae.java): a condition `attr op rhs`,
    optionally quantified over a period of time, its evaluation by an evaluator,
    and its builder. */
module Formulae {
  import opened Errors
  import opened Values
  import opened Operators
  import opened Memory
  import opened Evaluators
  import opened TimeRanges

  /** A condition: the operands, the operator, and the time-based parameter that
      turns it into a condition over the attribute's history. */
  datatype Formula = Formula(ops: Operands, op: Op, tbp: Option<TimeParam>)

  /** Formulae.evaluate: without a time parameter the scalar evaluator of the
      operator, with one the evaluator's time-range evaluation, which applies that
      same scalar evaluator at every point of the window. */
  function Evaluate(f: Formula, ev: Evaluator, alg: Algebra, m: Memory, now: int, overTime: OverTime): (r: Result<real>)
    ensures f.tbp.None? ==> r == Scalar(ev, alg, f.ops, f.op, m)
    ensures ev.Crisp01? && f.tbp.None? && r.Ok? ==> r.value == AlsvMin || r.value == AlsvMax
    ensures ev.Crisp01? && f.tbp.Some? && r.Ok? ==> r.value == AlsvMax || r.value == -AlsvMax
    ensures f.tbp.Some? && r.Fail? ==> r.error != AttributeNotRegistered
  {
    match f.tbp
    case None => Scalar(ev, alg, f.ops, f.op, m)
    case Some(tp) =>
      match ev
      case Crisp01 => AlsvTimeRange(alg, f.ops, f.op, tp, m, now, overTime)
      case CertaintyFactors => CfTimeRange(alg, f.ops, f.op, tp, m, now, overTime)
  }

  /** A time-based crisp condition holds (evaluates to 1) exactly when the share
      of the window's points at which the same operator holds, each point
      evaluated alone in a fresh memory, meets the quantifier. */
  lemma TimeRangeAppliesTheOperator(f: Formula, alg: Algebra, m: Memory, now: int, overTime: OverTime)
    requires f.tbp.Some? && HistoricalValues(m, now, f.tbp.value.period, f.ops.attr.name, overTime).Ok?
    requires var window := HistoricalValues(m, now, f.tbp.value.period, f.ops.attr.name, overTime).value;
      PointCertainties(Crisp01, alg, f.ops, f.op, window).Ok? &&
      PointCertainties(Crisp01, alg, f.ops, f.op, window).value.Some?
    ensures var window := HistoricalValues(m, now, f.tbp.value.period, f.ops.attr.name, overTime).value;
      var cs := PointCertainties(Crisp01, alg, f.ops, f.op, window).value.value;
      && |cs| == |window|
      && (forall i :: 0 <= i < |window| ==>
            Scalar(Crisp01, alg, f.ops, f.op, PointMemory(alg, f.ops.attr, window[i]).value) == Ok(cs[i]))
      && (Evaluate(f, Crisp01, alg, m, now, overTime) == Ok(AlsvMax) <==>
            QuantifierHolds(f.tbp.value.quantifier, Percentage(cs), f.tbp.value.percentage))
  {
    AlsvTimeRangeCounts(alg, f.ops, f.op, f.tbp.value, m, now, overTime);
  }

  /** What building the left side yields: the attribute and its value and type in
      a memory. */
  datatype LeftSide = LeftSide(attr: Attribute, value: Memory -> Result<Value>, ty: Memory -> Type)

  /** What statically evaluating the right side yields: its value in a memory,
      and whether it is the Null literal. */
  datatype RightSide = RightSide(value: Memory -> Result<Value>, isNull: bool)

  /** Formulae.Builder: the parts collected so far. Building the sides is the
      business of the expression builders, which are not part of this model; they
      come in as `buildLhs` and `evalRhs`. */
  datatype FormulaBuilder<L, R> = FormulaBuilder(lhs: Option<L>, op: Option<Op>, rhs: Option<R>, tbp: Option<TimeParam>)

  /** Formulae.Builder.build: a missing attribute, operator or value fails with a
      builder error before anything is built; then the left side is built, then
      the right side evaluated, and the first failure is the result. */
  function Build<L, R>(b: FormulaBuilder<L, R>, attrs: map<string, Attribute>,
                       buildLhs: (L, map<string, Attribute>) -> Result<LeftSide>,
                       evalRhs: (R, map<string, Attribute>) -> Result<RightSide>): (r: Result<Formula>)
    ensures b.lhs.None? || b.op.None? || b.rhs.None? ==> r == Fail(ModelBuilding)
    ensures r.Ok? <==> b.lhs.Some? && b.op.Some? && b.rhs.Some? &&
                       buildLhs(b.lhs.value, attrs).Ok? && evalRhs(b.rhs.value, attrs).Ok?
    ensures b.lhs.Some? && b.op.Some? && b.rhs.Some? && buildLhs(b.lhs.value, attrs).Fail? ==>
              r == Fail(buildLhs(b.lhs.value, attrs).error)
    ensures r.Ok? ==>
              var left, right := buildLhs(b.lhs.value, attrs).value, evalRhs(b.rhs.value, attrs).value;
              && r.value.op == b.op.value
              && r.value.tbp == b.tbp
              && r.value.ops == Operands(left.attr, left.value, left.ty, right.value, right.isNull)
  {
    if b.lhs.None? || b.op.None? || b.rhs.None? then Fail(ModelBuilding)
    else
      var left :- buildLhs(b.lhs.value, attrs);
      var right :- evalRhs(b.rhs.value, attrs);
      Ok(Formula(Operands(left.attr, left.value, left.ty, right.value, right.isNull), b.op.value, b.tbp))
  }
}
