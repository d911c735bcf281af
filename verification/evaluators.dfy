/** The crisp evaluator (heart/uncertainty/ALSVEvaluator.java) and what the
    uncertain-truth evaluators share: the two sides of a condition `lhs op rhs`
    and the value operators behind them. The crisp evaluator answers 0 or 1; the
    certainty-factor evaluator is in CfEvaluator, and conditions over a window of
    the history are in TimeRanges. */
module Evaluators {
  import opened Errors
  import opened Values
  import opened Numeric
  import opened CfAlgebra
  import opened Operators
  import opened RelativeTime
  import opened Memory
  import opened Sorting

  /** The value operators whose code is not part of this model: the crisp operators
      of every receiver but a number (and the set operators of numbers), and the
      set operations intersect and except. `domains` is what a write needs. */
  datatype Algebra = Algebra(
    domains: Domains,
    other: (Op, Value, Value, Type) -> Result<bool>,
    intersect: (Value, Value, Type) -> Result<Value>,
    except: (Value, Value, Type) -> Result<Value>)

  /** The two sides of a condition. The left side is an attribute expression: its
      attribute, and its value and type in a given memory; the right side is an
      expression evaluated in the same memory. `rhsIsNull` says whether the right
      side is the Null literal itself rather than an expression. */
  datatype Operands = Operands(
    attr: Attribute,
    lhs: Memory -> Result<Value>,
    lhsType: Memory -> Type,
    rhs: Memory -> Result<Value>,
    rhsIsNull: bool)

  /** The two evaluators. */
  datatype Evaluator = Crisp01 | CertaintyFactors

  /** A time-based parameter of a condition: `{min 50% in -10 to 0}`. */
  datatype TimeParam = TimeParam(period: Period, percentage: real, quantifier: Quantifier)

  /** The window a time-based condition reads: the samples of the attribute over a
      period given in milliseconds, which is not part of this model. */
  type OverTime = (seq<State>, Period, string) -> seq<Value>

  /** The crisp operator `l op r`: the numeric operators for a number, the
      collaborator for everything else. */
  function Crisp(alg: Algebra, op: Op, l: Value, r: Value, ty: Type): Result<bool> {
    if l.datum.Num? then
      var a, t, check := l.datum.x, Some(ty), alg.domains.check;
      match op
      case EQ => Eq(a, r, t, check)
      case NEQ => Neq(a, r, t, check)
      case LT => Lt(a, r, t, check)
      case LTE => Lte(a, r, t, check)
      case GT => Gt(a, r, t, check)
      case GTE => Gte(a, r, t, check)
      case IN => In(a, r, t, check)
      case NOTIN => NotIn(a, r, t, check)
      case _ => alg.other(op, l, r, ty)
    else alg.other(op, l, r, ty)
  }

  /** A number against Null: eq is false and neq true, while ordering and membership
      cannot be decided. */
  lemma NumberAgainstNull(alg: Algebra, l: Value, r: Value, ty: Type)
    requires l.datum.Num? && IsNull(r)
    ensures Crisp(alg, EQ, l, r, ty) == Ok(false)
    ensures Crisp(alg, NEQ, l, r, ty) == Ok(true)
    ensures forall op :: op in {LT, LTE, GT, GTE, IN, NOTIN} ==> Crisp(alg, op, l, r, ty) == Fail(UnknownValue)
  {
    assert Precheck(r, Some(ty), alg.domains.check) == Some(UnknownValue);
  }

  // ---------------------------------------------------------------- crisp evaluator

  const AlsvMin: real := 0.0
  const AlsvMax: real := 1.0

  /** ALSVEvaluator.evaluateUncertain<op>: 1 when the crisp operator holds, 0 when it
      does not; a failure of either side or of the operator propagates. */
  function AlsvScalar(alg: Algebra, ops: Operands, op: Op, m: Memory): (r: Result<real>)
    ensures r.Ok? ==> r.value == AlsvMax || r.value == AlsvMin
    ensures r.Ok? <==> ops.lhs(m).Ok? && ops.rhs(m).Ok? &&
                       Crisp(alg, op, ops.lhs(m).value, ops.rhs(m).value, ops.lhsType(m)).Ok?
    ensures r.Ok? ==> (r.value == AlsvMax <==> Crisp(alg, op, ops.lhs(m).value, ops.rhs(m).value, ops.lhsType(m)).value)
    ensures ops.lhs(m).Ok? && ops.rhs(m).Ok? && r.Fail? ==>
              Crisp(alg, op, ops.lhs(m).value, ops.rhs(m).value, ops.lhsType(m)) == Fail(r.error)
  {
    var l :- ops.lhs(m);
    var rv :- ops.rhs(m);
    var holds :- Crisp(alg, op, l, rv, ops.lhsType(m));
    Ok(if holds then AlsvMax else AlsvMin)
  }
}
