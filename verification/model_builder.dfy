/** The model builder (heart/xtt/XTTModel.java, class Builder): registries of
    incomplete types, attributes, tables and rules, kept by name, and the add
    methods. The remove methods are in ModelRemovals, the set methods in
    ModelSetters, and the validation that turns the registries into a model is
    in ModelBuild. The builders of the single
    elements (Type.Builder, Attribute.Builder, Rule.Builder) are not part of this
    model; what they do comes in as the collaborators of `Builders`. */
module ModelBuilder {
  import opened Errors
  import opened Values
  import opened Formulae
  import opened Rules
  import opened Registries

  /** An incomplete type: its name and what its own builder needs. */
  datatype TypeBuilder<T> = TypeBuilder(name: string, spec: T)

  /** An incomplete attribute: its name, abbreviation, identifier, the name of
      its type, and what its own builder needs. */
  datatype AttributeBuilder<A> = AttributeBuilder(name: string, abbrev: Option<string>, id: string, typeName: string, spec: A)

  /** An incomplete table: its name and the names of the attributes its
      conditions read and its decisions write. */
  datatype TableBuilder = TableBuilder(name: string, condNames: seq<string>, decNames: seq<string>)

  /** An incomplete rule: the name of its table (scheme), its own name, and what
      its own builder needs. */
  datatype RuleBuilder<R> = RuleBuilder(scheme: string, name: string, spec: R)

  datatype Builder<T, A, R> = Builder(types: Registry<TypeBuilder<T>>,
                                      attributes: Registry<AttributeBuilder<A>>,
                                      tables: Registry<TableBuilder>,
                                      rules: Registry<RuleBuilder<R>>)

  predicate ValidBuilder<T, A, R>(b: Builder<T, A, R>) {
    Valid(b.types) && Valid(b.attributes) && Valid(b.tables) && Valid(b.rules)
  }

  /** The keys an attribute is registered under: its name, and its abbreviation
      when it has one, each once. */
  function KeysOf(name: string, abbrev: Option<string>): (ks: seq<string>)
    ensures name in ks && (abbrev.Some? ==> abbrev.value in ks)
    ensures forall k :: k in ks ==> k == name || (abbrev.Some? && k == abbrev.value)
    ensures Distinct(ks)
  {
    if abbrev.Some? && abbrev.value != name then [name, abbrev.value] else [name]
  }

  function TypeKeys<T>(tb: TypeBuilder<T>): seq<string> {
    [tb.name]
  }

  function AttributeKeys<A>(ab: AttributeBuilder<A>): seq<string> {
    KeysOf(ab.name, ab.abbrev)
  }

  function TableKeys(tb: TableBuilder): seq<string> {
    [tb.name]
  }

  function RuleKeys<R>(rb: RuleBuilder<R>): seq<string> {
    [rb.name]
  }

  /** Registers `x` under every key of `ks`, in order. */
  function PutAll<B>(reg: Registry<B>, ks: seq<string>, x: B): (r: Registry<B>)
    requires Valid(reg)
    ensures Valid(r)
    ensures forall k :: k in r.m <==> k in reg.m || k in ks
    ensures forall k :: k in ks ==> r.m[k] == x
    ensures forall k :: k in reg.m && k !in ks ==> r.m[k] == reg.m[k]
    decreases |ks|
  {
    if |ks| == 0 then reg
    else
      var r := PutAll(Put(reg, ks[0], x), ks[1..], x);
      assert forall k :: k in ks <==> k == ks[0] || k in ks[1..];
      r
  }

  /** The add methods of the builder: a key that is already taken is a builder
      error and leaves the registry as it was; otherwise the element is
      registered under every one of its keys. */
  function AddUnder<B>(reg: Registry<B>, ks: seq<string>, x: B): (r: Result<Registry<B>>)
    requires Valid(reg)
    ensures r.Ok? <==> forall k :: k in ks ==> k !in reg.m
    ensures r.Fail? ==> r.error == ModelBuilding
    ensures r.Ok? ==> Valid(r.value)
    ensures r.Ok? ==> forall k :: k in r.value.m <==> k in reg.m || k in ks
    ensures r.Ok? ==> (forall k :: k in ks ==> r.value.m[k] == x) && (forall k :: k in reg.m ==> r.value.m[k] == reg.m[k])
  {
    if exists k :: k in ks && k in reg.m then Fail(ModelBuilding) else Ok(PutAll(reg, ks, x))
  }

  /** Adding under one free key registers the element under that key alone. */
  lemma AddUnderOne<B>(reg: Registry<B>, k: string, x: B)
    requires Valid(reg) && k !in reg.m
    ensures AddUnder(reg, [k], x).Ok? && AddUnder(reg, [k], x).value.m == reg.m[k := x]
  {
    var r := AddUnder(reg, [k], x).value;
    assert forall j :: j in r.m <==> j in reg.m[k := x];
  }

  /** addIncompleteType: rejects a type name already registered. */
  function AddType<T, A, R>(b: Builder<T, A, R>, tb: TypeBuilder<T>): (r: Result<Builder<T, A, R>>)
    requires ValidBuilder(b)
    ensures r.Ok? <==> tb.name !in b.types.m
    ensures r.Fail? ==> r.error == ModelBuilding
    ensures r.Ok? ==> ValidBuilder(r.value) && r.value.types.m == b.types.m[tb.name := tb] &&
                      r.value.attributes == b.attributes && r.value.tables == b.tables && r.value.rules == b.rules
  {
    var reg :- AddUnder(b.types, TypeKeys(tb), tb);
    AddUnderOne(b.types, tb.name, tb);
    Ok(b.(types := reg))
  }

  /** addIncompleteAttribute: rejects an attribute whose name or abbreviation is
      already a key, and registers it under its name and, when it has one, its
      abbreviation. */
  function AddAttribute<T, A, R>(b: Builder<T, A, R>, ab: AttributeBuilder<A>): (r: Result<Builder<T, A, R>>)
    requires ValidBuilder(b)
    ensures r.Ok? <==> ab.name !in b.attributes.m && (ab.abbrev.Some? ==> ab.abbrev.value !in b.attributes.m)
    ensures r.Fail? ==> r.error == ModelBuilding
    ensures r.Ok? ==> ValidBuilder(r.value) && r.value.types == b.types && r.value.tables == b.tables && r.value.rules == b.rules
    ensures r.Ok? ==> forall k :: k in r.value.attributes.m <==> k in b.attributes.m || k == ab.name || ab.abbrev == Some(k)
    ensures r.Ok? ==> r.value.attributes.m[ab.name] == ab && (ab.abbrev.Some? ==> r.value.attributes.m[ab.abbrev.value] == ab)
    ensures r.Ok? ==> forall k :: k in b.attributes.m ==> r.value.attributes.m[k] == b.attributes.m[k]
  {
    var reg :- AddUnder(b.attributes, AttributeKeys(ab), ab);
    Ok(b.(attributes := reg))
  }

  /** addIncompleteTable: rejects a table name already registered. */
  function AddTable<T, A, R>(b: Builder<T, A, R>, tb: TableBuilder): (r: Result<Builder<T, A, R>>)
    requires ValidBuilder(b)
    ensures r.Ok? <==> tb.name !in b.tables.m
    ensures r.Fail? ==> r.error == ModelBuilding
    ensures r.Ok? ==> ValidBuilder(r.value) && r.value.tables.m == b.tables.m[tb.name := tb] &&
                      r.value.types == b.types && r.value.attributes == b.attributes && r.value.rules == b.rules
  {
    var reg :- AddUnder(b.tables, TableKeys(tb), tb);
    AddUnderOne(b.tables, tb.name, tb);
    Ok(b.(tables := reg))
  }

  /** addIncompleteRule: rejects a rule name already registered. */
  function AddRule<T, A, R>(b: Builder<T, A, R>, rb: RuleBuilder<R>): (r: Result<Builder<T, A, R>>)
    requires ValidBuilder(b)
    ensures r.Ok? <==> rb.name !in b.rules.m
    ensures r.Fail? ==> r.error == ModelBuilding
    ensures r.Ok? ==> ValidBuilder(r.value) && r.value.rules.m == b.rules.m[rb.name := rb] &&
                      r.value.types == b.types && r.value.attributes == b.attributes && r.value.tables == b.tables
  {
    var reg :- AddUnder(b.rules, RuleKeys(rb), rb);
    AddUnderOne(b.rules, rb.name, rb);
    Ok(b.(rules := reg))
  }
}
