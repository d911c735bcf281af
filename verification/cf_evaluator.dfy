/** The certainty-factor evaluator (heart/uncertainty/CertaintyFactorsEvaluator.java):
    the certainty in [-1, 1] with which a condition `lhs op rhs` holds, whose
    sign is the crisp answer of Evaluators.Crisp. */
module CfEvaluator {
  import opened Errors
  import opened Values
  import opened CfAlgebra
  import opened Operators
  import opened Memory
  import opened Evaluators

  /** The Null test in front of the certainty-factor operators: NEQ tests whether the
      right-hand expression is the Null literal, every other operator whether its
      value is Null. */
  predicate RhsNull(ops: Operands, op: Op, rv: Value) {
    if op == NEQ then ops.rhsIsNull else IsNull(rv)
  }

  /** CertaintyFactorsEvaluator.evaluateUncertain<op>: a Null left side against a
      non-Null right side is completely unknown (certainty 0); an undecidable
      operator also gives 0; otherwise the crisp answer is weighed by
      evaluateUncertainTrueValue. */
  function CfScalar(alg: Algebra, ops: Operands, op: Op, m: Memory): (r: Result<real>)
    ensures ops.lhs(m).Ok? && ops.rhs(m).Ok? && IsNull(ops.lhs(m).value) && !RhsNull(ops, op, ops.rhs(m).value) ==>
              r == Ok(0.0)
    ensures ops.lhs(m).Ok? && ops.rhs(m).Ok? && Crisp(alg, op, ops.lhs(m).value, ops.rhs(m).value, ops.lhsType(m)) == Fail(UnknownValue) ==>
              r == Ok(0.0)
    ensures r.Fail? ==> r.error != UnknownValue || ops.lhs(m).Fail? || ops.rhs(m).Fail?
  {
    var l :- ops.lhs(m);
    var rv :- ops.rhs(m);
    var ty := ops.lhsType(m);
    if IsNull(l) && !RhsNull(ops, op, rv) then Ok(0.0)
    else
      match Crisp(alg, op, l, rv, ty)
      case Fail(e) => if e == UnknownValue then Ok(0.0) else Fail(e)
      case Ok(holds) => UncertainTrueValue(alg, op, l, rv, ty, holds)
  }

  /** evaluateUncertainTrueValue: against Null or Any the answer is certain (±1);
      a single value weighs the crisp answer by its own certainty; a set is
      measured against the other side with the set certainties below. An
      undecidable set operation gives 0. */
  function UncertainTrueValue(alg: Algebra, op: Op, l: Value, rv: Value, ty: Type, holds: bool): (r: Result<real>)
    ensures IsNull(rv) || rv.datum.Any? ==> r == Ok(if holds then MaxCertainty else MinCertainty)
    ensures !IsNull(rv) && !rv.datum.Any? && (l.datum.Num? || l.datum.Sym?) ==>
              r == Ok(if holds then l.cf else -l.cf)
    ensures r.Fail? ==> r.error != UnknownValue
  {
    if IsNull(rv) || rv.datum.Any? then Ok(if holds then MaxCertainty else MinCertainty)
    else if l.datum.Num? || l.datum.Sym? then Ok(if holds then l.cf else -l.cf)
    else
      match SetCertainty(alg, op, l, rv, ty, holds)
      case Fail(e) => if e == UnknownValue then Ok(0.0) else Fail(e)
      case Ok(c) => Ok(c)
  }

  /** The elements of a set value; casting anything else to a set fails. */
  function Items(v: Value): (r: Result<seq<Value>>)
    ensures r.Ok? <==> v.datum.SetOf?
    ensures r.Ok? ==> r.value == v.datum.items
    ensures r.Fail? ==> r.error == ClassCast
  {
    if v.datum.SetOf? then Ok(v.datum.items) else Fail(ClassCast)
  }

  /** The certainty factors of a list of values. */
  function Cfs(vs: seq<Value>): (r: seq<real>)
    ensures |r| == |vs| && forall i :: 0 <= i < |vs| ==> r[i] == vs[i].cf
    decreases |vs|
  {
    if |vs| == 0 then [] else [vs[0].cf] + Cfs(vs[1..])
  }

  /** sim: the cumulative certainty of the elements the two have in common, 0 when
      they have none or when the intersection cannot be decided. */
  function Sim(alg: Algebra, l: Value, x: Value, ty: Type): (r: Result<real>)
    ensures alg.intersect(l, x, ty) == Fail(UnknownValue) ==> r == Ok(0.0)
    ensures alg.intersect(l, x, ty).Ok? && alg.intersect(l, x, ty).value.datum.SetOf? ==>
              r == Ok(CumulativeFold(Cfs(alg.intersect(l, x, ty).value.datum.items)))
    ensures r.Fail? ==> r.error != UnknownValue
  {
    match alg.intersect(l, x, ty)
    case Fail(e) => if e == UnknownValue then Ok(0.0) else Fail(e)
    case Ok(i) =>
      var items :- Items(i);
      Ok(CumulativeFold(Cfs(items)))
  }

  /** The inner loop of getComplement and getDifference for one element `a` of the
      left set: every element equal to `a` takes the certainty factor of `a`. */
  function CopyCf(alg: Algebra, a: Value, xs: seq<Value>, ty: Type): (r: Result<seq<Value>>)
    ensures r.Ok? ==> |r.value| == |xs|
    ensures r.Ok? ==> forall i :: 0 <= i < |xs| ==>
              Crisp(alg, EQ, a, xs[i], ty).Ok? &&
              r.value[i] == (if Crisp(alg, EQ, a, xs[i], ty).value then WithCf(xs[i], a.cf) else xs[i])
    ensures (forall i :: 0 <= i < |xs| ==> Crisp(alg, EQ, a, xs[i], ty).Ok?) ==> r.Ok?
    decreases |xs|
  {
    if |xs| == 0 then Ok([])
    else
      var same :- Crisp(alg, EQ, a, xs[0], ty);
      var rest :- CopyCf(alg, a, xs[1..], ty);
      assert forall i :: 1 <= i < |xs| ==> xs[i] == xs[1..][i - 1];
      Ok([if same then WithCf(xs[0], a.cf) else xs[0]] + rest)
  }

  /** The whole loop: each element of the left set in turn copies its certainty
      onto the elements it equals, so the last equal element wins. */
  function CopyCfs(alg: Algebra, own: seq<Value>, xs: seq<Value>, ty: Type): (r: Result<seq<Value>>)
    decreases |own|
  {
    if |own| == 0 then Ok(xs)
    else
      var ys :- CopyCf(alg, own[0], xs, ty);
      CopyCfs(alg, own[1..], ys, ty)
  }

  /** Copying certainties changes nothing but certainties: every element keeps its
      payload and timestamp, and carries either its own certainty or that of an
      element of the left set. */
  lemma {:induction false} CopyCfsKeepsElements(alg: Algebra, own: seq<Value>, xs: seq<Value>, ty: Type)
    requires CopyCfs(alg, own, xs, ty).Ok?
    ensures var r := CopyCfs(alg, own, xs, ty).value;
      |r| == |xs| &&
      forall i :: 0 <= i < |xs| ==>
        r[i].datum == xs[i].datum && r[i].ts == xs[i].ts &&
        (r[i].cf == xs[i].cf || exists j :: 0 <= j < |own| && r[i].cf == own[j].cf)
    decreases |own|
  {
    if |own| > 0 {
      var ys := CopyCf(alg, own[0], xs, ty).value;
      CopyCfsKeepsElements(alg, own[1..], ys, ty);
      var r := CopyCfs(alg, own, xs, ty).value;
      forall i | 0 <= i < |xs|
        ensures r[i].datum == xs[i].datum && r[i].ts == xs[i].ts
        ensures r[i].cf == xs[i].cf || exists j :: 0 <= j < |own| && r[i].cf == own[j].cf
      {
        if r[i].cf != xs[i].cf {
          if r[i].cf == ys[i].cf {
            assert ys[i].cf == own[0].cf;
          } else {
            var j :| 0 <= j < |own[1..]| && r[i].cf == own[1..][j].cf;
            assert own[1..][j] == own[j + 1];
          }
        }
      }
    }
  }

  /** getComplement: the domain without the right side, its elements carrying the
      certainty of the equal elements of the left set. */
  function Complement(alg: Algebra, l: Value, rv: Value, ty: Type): (r: Result<Value>)
    ensures r.Ok? ==> r.value.datum.SetOf?
  {
    var c :- alg.except(ty.domain, rv, ty);
    var comp :- Items(c);
    var own :- Items(l);
    var items :- CopyCfs(alg, own, comp, ty);
    Ok(c.(datum := SetOf(items)))
  }

  /** getDifference: the left set without the right side, with the same copying. */
  function Difference(alg: Algebra, l: Value, rv: Value, ty: Type): (r: Result<Value>)
    ensures r.Ok? ==> r.value.datum.SetOf?
  {
    var d :- alg.except(l, rv, ty);
    var diff :- Items(d);
    var own :- Items(l);
    var items :- CopyCfs(alg, own, diff, ty);
    Ok(d.(datum := SetOf(items)))
  }

  /** The certainty of a condition whose left side is a set: how
      similar the left set is to the part of the domain that makes the condition
      true, or, negated, to the part that makes it false. */
  function SetCertainty(alg: Algebra, op: Op, l: Value, rv: Value, ty: Type, holds: bool): Result<real> {
    match op
    case SIM =>
      if holds then Sim(alg, l, rv, ty)
      else
        var c :- Complement(alg, l, rv, ty);
        var s :- Sim(alg, l, c, ty);
        Ok(-s)
    case NOTSIM =>
      if holds then
        var c :- Complement(alg, l, rv, ty);
        var discarded :- Sim(alg, l, c, ty);
        Ok(0.0)
      else
        var s :- Sim(alg, l, rv, ty);
        Ok(-s)
    case EQ =>
      if holds then
        var own :- Items(l);
        Ok(MinCf(Cfs(own)))
      else
        var d :- Difference(alg, l, rv, ty);
        var s :- Sim(alg, l, d, ty);
        Ok(-s)
    case NEQ =>
      if holds then
        var d :- Difference(alg, l, rv, ty);
        Sim(alg, l, d, ty)
      else
        var own :- Items(l);
        Ok(-MinCf(Cfs(own)))
    case SUPSET =>
      if holds then
        var i :- alg.intersect(l, rv, ty);
        var items :- Items(i);
        Ok(MinCf(Cfs(items)))
      else OutsideCertainty(alg, l, rv, ty)
    case SUBSET =>
      if holds then
        var own :- Items(l);
        Ok(MinCf(Cfs(own)))
      else OutsideCertainty(alg, l, rv, ty)
    case _ => Ok(0.0)
  }

  /** The negated similarity of the left set to its part outside the right side,
      shared by SUPSET and SUBSET when they do not hold. */
  function OutsideCertainty(alg: Algebra, l: Value, rv: Value, ty: Type): Result<real> {
    var c :- Complement(alg, l, rv, ty);
    var i :- alg.intersect(l, c, ty);
    var checked :- Items(i);
    var s :- Sim(alg, l, i, ty);
    Ok(-s)
  }

  /** A set NOTSIM that holds is worth nothing: the similarity it computes is
      discarded, so the answer is 0 whenever there is one. */
  lemma NotSimHoldsIsZero(alg: Algebra, l: Value, rv: Value, ty: Type)
    requires !IsNull(rv) && !rv.datum.Any? && !l.datum.Num? && !l.datum.Sym?
    ensures UncertainTrueValue(alg, NOTSIM, l, rv, ty, true).Ok? ==> UncertainTrueValue(alg, NOTSIM, l, rv, ty, true) == Ok(0.0)
    ensures Complement(alg, l, rv, ty) == Fail(UnknownValue) ==> UncertainTrueValue(alg, NOTSIM, l, rv, ty, true) == Ok(0.0)
  {
  }

  /** A set SIM that holds is as certain as the cumulative certainty of the common
      elements; a set EQ or SUBSET that holds, or a NEQ that fails, is as certain as
      the least certain element of the left set, negated for NEQ. */
  lemma SetCertainties(alg: Algebra, l: Value, rv: Value, ty: Type)
    requires !IsNull(rv) && !rv.datum.Any? && l.datum.SetOf?
    ensures alg.intersect(l, rv, ty).Ok? && alg.intersect(l, rv, ty).value.datum.SetOf? ==>
              UncertainTrueValue(alg, SIM, l, rv, ty, true) == Ok(CumulativeFold(Cfs(alg.intersect(l, rv, ty).value.datum.items)))
    ensures UncertainTrueValue(alg, EQ, l, rv, ty, true) == Ok(MinCf(Cfs(l.datum.items)))
    ensures UncertainTrueValue(alg, SUBSET, l, rv, ty, true) == Ok(MinCf(Cfs(l.datum.items)))
    ensures UncertainTrueValue(alg, NEQ, l, rv, ty, false) == Ok(-MinCf(Cfs(l.datum.items)))
  {
  }

  /** A range or Any on the left of a set EQ that holds cannot be cast to a set. */
  lemma NonSetLeftSideFails(alg: Algebra, l: Value, rv: Value, ty: Type)
    requires !IsNull(rv) && !rv.datum.Any? && (l.datum.Range? || l.datum.Any?)
    ensures UncertainTrueValue(alg, EQ, l, rv, ty, true) == Fail(ClassCast)
  {
  }

  /** The certainty of a condition on a single value has the sign of its crisp
      answer: a holding condition on a confirmed value is confirmed, a failing one
      disconfirmed, and its size is the value's own certainty. */
  lemma ScalarCertaintySign(alg: Algebra, op: Op, l: Value, rv: Value, ty: Type, holds: bool)
    requires (l.datum.Num? || l.datum.Sym?) && !IsNull(rv) && !rv.datum.Any? && l.cf > 0.0
    ensures holds <==> UncertainTrueValue(alg, op, l, rv, ty, holds).value > 0.0
    ensures holds <==> UncertainTrueValue(alg, op, l, rv, ty, holds).value > Threshold
  {
  }
}
