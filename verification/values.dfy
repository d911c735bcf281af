/** The value union of ALSV(FD) (heart/alsvfd/Value and its subclasses), reduced to
    what the numeric operators, the certainty-factor evaluator and the working
    memory look at: the payload, the certainty factor and the timestamp. */
module Values {
  import opened Errors

  /** The payload of a value. `Sym` carries the order number of an ordered symbol. */
  datatype Datum =
    | Null
    | Any
    | Num(x: real)
    | Sym(name: string, order: Option<int>)
    | SetOf(items: seq<Value>)
    | Range(from: Value, to: Value, leftIncl: bool, rightIncl: bool)

  /** Every value carries a certainty factor and the timestamp at which it was produced. */
  datatype Value = Value(datum: Datum, cf: real, ts: int)

  /** The base of an attribute type: numbers or symbols. */
  datatype Base = NumericBase | SymbolicBase

  /** Simple attributes hold one value; general attributes hold sets. */
  datatype TypeClass = Simple | General

  datatype Type = Type(name: string, base: Base, domain: Value)

  /** An attribute of the model (heart/xtt/Attribute): its name, optional
      abbreviation, identifier, type and class. */
  datatype Attribute = Attribute(name: string, abbrev: Option<string>, id: string, ty: Type, xttClass: TypeClass)

  /** Value.checkDomain is not part of this model: it is a parameter of every
      operation that performs it, `true` meaning that the value passes. */
  type DomainCheck = (Value, Type) -> bool

  /** The position of the first attribute satisfying `p`, if any. */
  function FirstIndex(attrs: seq<Attribute>, p: Attribute -> bool): (r: Option<nat>)
    ensures r.None? <==> forall i :: 0 <= i < |attrs| ==> !p(attrs[i])
    ensures r.Some? ==> r.value < |attrs| && p(attrs[r.value])
    ensures r.Some? ==> forall j :: 0 <= j < r.value ==> !p(attrs[j])
    decreases |attrs|
  {
    if |attrs| == 0 then None
    else if p(attrs[0]) then Some(0)
    else
      var r := FirstIndex(attrs[1..], p);
      assert forall j :: 1 <= j < |attrs| ==> attrs[j] == attrs[1..][j - 1];
      if r.Some? then Some(r.value + 1) else None
  }

  /** The loop of XTTModel.getAttributeById and getAttributeByName: the first
      attribute, in list order, whose `field` is `key`, or nothing. */
  function FirstAttributeWith(attrs: seq<Attribute>, field: Attribute -> string, key: string): (r: Option<Attribute>)
    ensures r.None? <==> forall i :: 0 <= i < |attrs| ==> field(attrs[i]) != key
    ensures r.Some? ==> exists i :: 0 <= i < |attrs| && attrs[i] == r.value && field(r.value) == key &&
                                    (forall j :: 0 <= j < i ==> field(attrs[j]) != key)
  {
    match FirstIndex(attrs, (a: Attribute) => field(a) == key)
    case None => None
    case Some(i) => Some(attrs[i])
  }

  /** XTTModel.getAttributeByName. */
  function AttributeNamed(attrs: seq<Attribute>, name: string): Option<Attribute> {
    FirstAttributeWith(attrs, (a: Attribute) => a.name, name)
  }

  /** XTTModel.getAttributeById. */
  function AttributeWithId(attrs: seq<Attribute>, id: string): Option<Attribute> {
    FirstAttributeWith(attrs, (a: Attribute) => a.id, id)
  }

  /** The certainty factor a freshly created value carries. */
  const DefaultCf: real := 1.0

  const NullValue: Value := Value(Null, DefaultCf, 0)

  predicate IsNull(v: Value) {
    v.datum.Null?
  }

  /** A number or an ordered symbol: what numeric comparisons accept. */
  predicate Comparable(v: Value) {
    v.datum.Num? || (v.datum.Sym? && v.datum.order.Some?)
  }

  /** The number a comparable value is compared by. */
  function Key(v: Value): real
    requires Comparable(v)
  {
    if v.datum.Num? then v.datum.x else v.datum.order.value as real
  }

  /** The value with its certainty factor and timestamp dropped: what two
      candidates must share to be treated as one conclusion. */
  function Strip(v: Value): Datum {
    v.datum
  }

  function WithCf(v: Value, c: real): (r: Value)
    ensures r.datum == v.datum && r.ts == v.ts && r.cf == c
  {
    v.(cf := c)
  }

  function WithTs(v: Value, t: int): (r: Value)
    ensures r.datum == v.datum && r.cf == v.cf && r.ts == t
  {
    v.(ts := t)
  }
}
