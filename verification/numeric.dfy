/** The operators of a numeric value (heart/alsvfd/SimpleNumeric.java): comparison,
    set and range membership, domain membership and factorial. The receiver is the
    number `a`; `t` is the attribute type passed along, `None` standing for Java's
    null, for which no domain check is made. */
module Numeric {
  import opened Errors
  import opened Values

  /** The comparisons of LogicOperations. */
  datatype Cmp = CmpEq | CmpNeq | CmpLt | CmpLte | CmpGt | CmpGte

  function Holds(op: Cmp, a: real, b: real): bool {
    match op
    case CmpEq => a == b
    case CmpNeq => a != b
    case CmpLt => a < b
    case CmpLte => a <= b
    case CmpGt => a > b
    case CmpGte => a >= b
  }

  predicate Admitted(v: Value, t: Option<Type>, check: DomainCheck) {
    t.None? || check(v, t.value)
  }

  /** checkForExceptions: Null is unknown, a value the domain check rejects is out
      of the domain, and Any cannot take part in a crisp operation. */
  function Precheck(v: Value, t: Option<Type>, check: DomainCheck): (r: Option<Error>)
    ensures r.None? <==> !IsNull(v) && Admitted(v, t, check) && !v.datum.Any?
    ensures IsNull(v) ==> r == Some(UnknownValue)
    ensures !IsNull(v) && !Admitted(v, t, check) ==> r == Some(NotInTheDomain)
    ensures !IsNull(v) && Admitted(v, t, check) && v.datum.Any? ==> r == Some(UnsupportedOperation)
  {
    if IsNull(v) then Some(UnknownValue)
    else if !Admitted(v, t, check) then Some(NotInTheDomain)
    else if v.datum.Any? then Some(UnsupportedOperation)
    else None
  }

  /** computeLogicalExpression: numbers compare by value, ordered symbols by their
      order number, anything else is unsupported. */
  function Compare(op: Cmp, a: real, v: Value, t: Option<Type>, check: DomainCheck): (r: Result<bool>)
    ensures Precheck(v, t, check).Some? ==> r == Fail(Precheck(v, t, check).value)
    ensures r.Ok? <==> Admitted(v, t, check) && Comparable(v)
    ensures r.Ok? ==> r.value == Holds(op, a, Key(v))
    ensures Precheck(v, t, check).None? && !Comparable(v) ==> r == Fail(UnsupportedOperation)
  {
    match Precheck(v, t, check)
    case Some(e) => Fail(e)
    case None =>
      match v.datum
      case Num(b) => Ok(Holds(op, a, b))
      case Sym(_, Some(k)) => Ok(Holds(op, a, k as real))
      case _ => Fail(UnsupportedOperation)
  }

  /** eq: Null is simply unequal and Any equal to everything; neither throws. */
  function Eq(a: real, v: Value, t: Option<Type>, check: DomainCheck): (r: Result<bool>)
    ensures IsNull(v) ==> r == Ok(false)
    ensures v.datum.Any? ==> r == (if Admitted(v, t, check) then Ok(true) else Fail(NotInTheDomain))
    ensures !IsNull(v) && !v.datum.Any? ==> r == Compare(CmpEq, a, v, t, check)
  {
    if IsNull(v) then Ok(false)
    else if !Admitted(v, t, check) then Fail(NotInTheDomain)
    else if v.datum.Any? then Ok(true)
    else Compare(CmpEq, a, v, t, check)
  }

  /** neq: Null is always different and Any never. */
  function Neq(a: real, v: Value, t: Option<Type>, check: DomainCheck): (r: Result<bool>)
    ensures IsNull(v) ==> r == Ok(true)
    ensures v.datum.Any? ==> r == (if Admitted(v, t, check) then Ok(false) else Fail(NotInTheDomain))
    ensures !IsNull(v) && !v.datum.Any? ==> r == Compare(CmpNeq, a, v, t, check)
  {
    if IsNull(v) then Ok(true)
    else if !Admitted(v, t, check) then Fail(NotInTheDomain)
    else if v.datum.Any? then Ok(false)
    else Compare(CmpNeq, a, v, t, check)
  }

  function Lt(a: real, v: Value, t: Option<Type>, check: DomainCheck): Result<bool> {
    Compare(CmpLt, a, v, t, check)
  }

  function Lte(a: real, v: Value, t: Option<Type>, check: DomainCheck): Result<bool> {
    Compare(CmpLte, a, v, t, check)
  }

  function Gt(a: real, v: Value, t: Option<Type>, check: DomainCheck): Result<bool> {
    Compare(CmpGt, a, v, t, check)
  }

  function Gte(a: real, v: Value, t: Option<Type>, check: DomainCheck): Result<bool> {
    Compare(CmpGte, a, v, t, check)
  }

  /** neq answers exactly the negation of eq, failing exactly when eq fails. */
  lemma EqNeqDual(a: real, v: Value, t: Option<Type>, check: DomainCheck)
    ensures Eq(a, v, t, check).Ok? <==> Neq(a, v, t, check).Ok?
    ensures Eq(a, v, t, check).Ok? ==> Neq(a, v, t, check).value == !Eq(a, v, t, check).value
    ensures Eq(a, v, t, check).Fail? ==> Neq(a, v, t, check) == Eq(a, v, t, check)
  {
  }

  /** Every ordering operator fails on Null with UnknownValue and on an admitted Any
      with UnsupportedOperation, and on a comparable value exactly one of lt, eq, gt
      holds, lte being lt or eq and gte being gt or eq. */
  lemma OrderingConsistent(a: real, v: Value, t: Option<Type>, check: DomainCheck)
    ensures IsNull(v) ==> Lt(a, v, t, check) == Lte(a, v, t, check) == Gt(a, v, t, check)
                          == Gte(a, v, t, check) == Fail(UnknownValue)
    ensures v.datum.Any? && Admitted(v, t, check) ==>
              Lt(a, v, t, check) == Gt(a, v, t, check) == Fail(UnsupportedOperation)
    ensures Lt(a, v, t, check).Ok? ==>
              && Eq(a, v, t, check).Ok? && Gt(a, v, t, check).Ok?
              && Lte(a, v, t, check).Ok? && Gte(a, v, t, check).Ok?
              && (if Lt(a, v, t, check).value then 1 else 0) + (if Eq(a, v, t, check).value then 1 else 0)
                   + (if Gt(a, v, t, check).value then 1 else 0) == 1
              && Lte(a, v, t, check).value == (Lt(a, v, t, check).value || Eq(a, v, t, check).value)
              && Gte(a, v, t, check).value == (Gt(a, v, t, check).value || Eq(a, v, t, check).value)
  {
  }

  /** A value `in` accepts without failing: every leaf of a set is a number, an
      ordered symbol or a nested well-formed set or range, and range bounds are
      comparable. */
  predicate WellFormed(v: Value)
    decreases v, 1
  {
    match v.datum
    case SetOf(items) => WellFormedItems(items)
    case Range(from, to, _, _) => Comparable(from) && Comparable(to)
    case _ => false
  }

  predicate WellFormedItems(items: seq<Value>)
    decreases items, 0
  {
    forall i :: 0 <= i < |items| ==> Comparable(items[i]) || WellFormed(items[i])
  }

  /** Reference membership: some scalar element equals `a`, some nested set or range
      contains it, or `a` lies in the range, at a bound only when that bound is inclusive. */
  predicate Member(a: real, v: Value)
    requires WellFormed(v)
    decreases v, 1
  {
    match v.datum
    case SetOf(items) => MemberOfItems(a, items)
    case Range(from, to, li, ri) =>
      (Key(from) < a < Key(to)) || (li && a == Key(from)) || (ri && a == Key(to))
  }

  predicate MemberOfItems(a: real, items: seq<Value>)
    requires WellFormedItems(items)
    decreases items, 0
  {
    exists i :: 0 <= i < |items| && MemberOfItem(a, items[i])
  }

  predicate MemberOfItem(a: real, w: Value)
    requires Comparable(w) || WellFormed(w)
    decreases w, 2
  {
    if Comparable(w) then a == Key(w) else Member(a, w)
  }

  /** computeSetExpresion: membership in a set or a range. */
  function In(a: real, v: Value, t: Option<Type>, check: DomainCheck): (r: Result<bool>)
    ensures Precheck(v, t, check).Some? ==> r == Fail(Precheck(v, t, check).value)
    ensures Precheck(v, t, check).None? && !v.datum.SetOf? && !v.datum.Range? ==>
              r == Fail(UnsupportedOperation)
    decreases v, 1
  {
    match Precheck(v, t, check)
    case Some(e) => Fail(e)
    case None =>
      match v.datum
      case SetOf(items) => InItems(a, items, t, check)
      case Range(from, to, li, ri) => InRange(a, from, to, li, ri, t, check)
      case _ => Fail(UnsupportedOperation)
  }

  /** The loop over a set's elements: scalars are compared with eq, anything else
      is searched recursively; the first `true` or the first failure ends it. */
  function InItems(a: real, items: seq<Value>, t: Option<Type>, check: DomainCheck): Result<bool>
    decreases items, 0
  {
    if |items| == 0 then Ok(false)
    else
      var head := if items[0].datum.Sym? || items[0].datum.Num? then Eq(a, items[0], t, check)
                  else In(a, items[0], t, check);
      if head.Fail? then head
      else if head.value then Ok(true)
      else InItems(a, items[1..], t, check)
  }

  /** Range membership with Java's short-circuit `&&` and the inclusive bounds. */
  function InRange(a: real, from: Value, to: Value, li: bool, ri: bool,
                   t: Option<Type>, check: DomainCheck): Result<bool>
  {
    var above := Gt(a, from, t, check);
    if above.Fail? then above
    else
      var both :- if above.value then Lt(a, to, t, check) else Ok(false);
      if both then Ok(true)
      else if li then
        var atFrom :- Eq(a, from, t, check);
        if atFrom then Ok(true)
        else if ri then Eq(a, to, t, check)
        else Ok(false)
      else if ri then Eq(a, to, t, check)
      else Ok(false)
  }

  /** notin is the negation of the same membership computation. */
  function NotIn(a: real, v: Value, t: Option<Type>, check: DomainCheck): (r: Result<bool>)
    ensures r.Ok? <==> In(a, v, t, check).Ok?
    ensures r.Ok? ==> r.value == !In(a, v, t, check).value
    ensures r.Fail? ==> r.error == In(a, v, t, check).error
  {
    var m :- In(a, v, t, check);
    Ok(!m)
  }

  /** isInTheDomain: membership in the type's domain, with no type passed down. */
  function InTheDomain(a: real, ty: Type, check: DomainCheck): (r: Result<bool>)
    ensures WellFormed(ty.domain) ==> r == Ok(Member(a, ty.domain))
  {
    if WellFormed(ty.domain) then
      AdmittedWithoutType(ty.domain, check);
      InMatchesMember(a, ty.domain, None, check);
      In(a, ty.domain, None, check)
    else In(a, ty.domain, None, check)
  }

  /** The domain check admits the set or range and every element and bound
      inside it, as `in` checks them on its way down. */
  predicate AdmittedDeep(v: Value, t: Option<Type>, check: DomainCheck)
    decreases v, 1
  {
    && Admitted(v, t, check)
    && match v.datum
       case SetOf(items) => AdmittedItems(items, t, check)
       case Range(from, to, _, _) => Admitted(from, t, check) && Admitted(to, t, check)
       case _ => true
  }

  predicate AdmittedItems(items: seq<Value>, t: Option<Type>, check: DomainCheck)
    decreases items, 0
  {
    forall i :: 0 <= i < |items| ==> AdmittedDeep(items[i], t, check)
  }

  /** Without a type nothing is checked, so everything is admitted. */
  lemma {:induction false} AdmittedWithoutType(v: Value, check: DomainCheck)
    ensures AdmittedDeep(v, None, check)
    decreases v, 1
  {
    match v.datum
    case SetOf(items) =>
      forall i | 0 <= i < |items| ensures AdmittedDeep(items[i], None, check) {
        AdmittedWithoutType(items[i], check);
      }
    case _ =>
  }

  /** On a well-formed set or range whose elements and bounds all pass the domain
      check, `in` never fails and answers exactly the reference membership. */
  lemma {:induction false} InMatchesMember(a: real, v: Value, t: Option<Type>, check: DomainCheck)
    requires WellFormed(v)
    requires AdmittedDeep(v, t, check)
    ensures In(a, v, t, check) == Ok(Member(a, v))
    decreases v, 1
  {
    assert Admitted(v, t, check);
    match v.datum
    case SetOf(items) =>
      InItemsMatchMember(a, items, t, check);
    case Range(from, to, li, ri) =>
      assert Admitted(from, t, check) && Admitted(to, t, check);
  }

  lemma {:induction false} InItemsMatchMember(a: real, items: seq<Value>, t: Option<Type>, check: DomainCheck)
    requires WellFormedItems(items)
    requires AdmittedItems(items, t, check)
    ensures InItems(a, items, t, check) == Ok(MemberOfItems(a, items))
    decreases items, 0
  {
    if |items| > 0 {
      var w := items[0];
      assert Admitted(w, t, check);
      if !Comparable(w) {
        InMatchesMember(a, w, t, check);
      }
      assert WellFormedItems(items[1..]) && AdmittedItems(items[1..], t, check) by {
        forall i | 0 <= i < |items[1..]|
          ensures (Comparable(items[1..][i]) || WellFormed(items[1..][i])) && AdmittedDeep(items[1..][i], t, check)
        {
          assert items[1..][i] == items[i + 1];
        }
      }
      InItemsMatchMember(a, items[1..], t, check);
      if MemberOfItem(a, w) {
        assert MemberOfItems(a, items);
      } else if MemberOfItems(a, items[1..]) {
        var i :| 0 <= i < |items[1..]| && MemberOfItem(a, items[1..][i]);
        assert items[1..][i] == items[i + 1];
        assert MemberOfItems(a, items);
      } else {
        forall i | 0 <= i < |items| ensures !MemberOfItem(a, items[i]) {
          if i > 0 {
            assert items[i] == items[1..][i - 1];
          }
        }
      }
    }
  }

  /** The product 1 * 2 * ... * n. */
  function Fact(n: nat): (r: nat)
    ensures r >= 1
  {
    if n == 0 then 1 else n * Fact(n - 1)
  }

  predicate IsWhole(x: real) {
    x.Floor as real == x
  }

  /** factorial: a number with a fractional part is unsupported; otherwise the
      product of 1 up to the number (1 for a number below 1), keeping the receiver's
      certainty factor. */
  method Factorial(v: Value) returns (r: Result<Value>)
    requires v.datum.Num?
    ensures !IsWhole(v.datum.x) ==> r == Fail(UnsupportedOperation)
    ensures IsWhole(v.datum.x) ==> r.Ok? && r.value.cf == v.cf
    ensures IsWhole(v.datum.x) && v.datum.x < 1.0 ==> r.value.datum == Num(1.0)
    ensures IsWhole(v.datum.x) && v.datum.x >= 1.0 ==>
              r.value.datum == Num(Fact(v.datum.x.Floor) as real)
  {
    var x := v.datum.x;
    if !IsWhole(x) {
      return Fail(UnsupportedOperation);
    }
    var result: real := 1.0;
    var counter: real := 1.0;
    var n: int := if x < 1.0 then 0 else x.Floor;
    while counter <= x
      invariant 1.0 <= counter
      invariant IsWhole(counter)
      invariant counter.Floor <= n + 1
      invariant result == Fact(counter.Floor - 1) as real
      decreases n + 1 - counter.Floor
    {
      result := result * counter;
      counter := counter + 1.0;
    }
    assert counter.Floor == n + 1;
    return Ok(Value(Num(result), v.cf, 0));
  }
}
