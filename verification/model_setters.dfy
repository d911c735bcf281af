/** The set methods of the model builder (heart/xtt/XTTModel.java, class
    Builder): a registry is replaced by a list of elements, which succeeds
    exactly when no key is used twice. */
module ModelSetters {
  import opened Errors
  import opened Values
  import opened Registries
  import opened ModelBuilder

  /** The keys of the items, in order. */
  function Flat<B>(items: seq<B>, keys: B -> seq<string>): (ks: seq<string>)
    ensures (forall i :: 0 <= i < |items| ==> |keys(items[i])| == 1) ==> |ks| == |items| && forall i :: 0 <= i < |items| ==> ks[i] == keys(items[i])[0]
    decreases |items|
  {
    if |items| == 0 then [] else keys(items[0]) + Flat(items[1..], keys)
  }

  /** The set methods: the registry is cleared and the elements are added in
      order; a key used twice ends the loop with a builder error, leaving what was
      added before it. Without an error, every item is registered under each of
      its keys and nothing else is added. */
  function AddAll<B>(reg: Registry<B>, items: seq<B>, keys: B -> seq<string>): (r: (Registry<B>, Option<Error>))
    requires Valid(reg)
    ensures Valid(r.0)
    ensures r.1.Some? ==> r.1.value == ModelBuilding
    decreases |items|
  {
    if |items| == 0 then (reg, None)
    else
      match AddUnder(reg, keys(items[0]), items[0])
      case Fail(e) => (reg, Some(e))
      case Ok(reg1) => AddAll(reg1, items[1..], keys)
  }

  /** The set methods succeed exactly when no key is used twice and none is
      taken already. */
  lemma {:induction false} AddAllSucceeds<B>(reg: Registry<B>, items: seq<B>, keys: B -> seq<string>)
    requires Valid(reg) && forall i :: 0 <= i < |items| ==> Distinct(keys(items[i]))
    ensures AddAll(reg, items, keys).1.None? <==> Distinct(Flat(items, keys)) && forall k :: k in Flat(items, keys) ==> k !in reg.m
    decreases |items|
  {
    if |items| > 0 {
      var ks := keys(items[0]);
      DistinctConcat(ks, Flat(items[1..], keys));
      match AddUnder(reg, ks, items[0])
      case Fail(e) =>
      case Ok(reg1) =>
        assert forall j :: 0 <= j < |items| - 1 ==> items[1..][j] == items[j + 1];
        AddAllSucceeds(reg1, items[1..], keys);
    }
  }

  /** Without an error, the keys taken before keep their entries and the new
      keys are exactly the keys of the items. */
  lemma {:induction false} AddAllKeys<B>(reg: Registry<B>, items: seq<B>, keys: B -> seq<string>)
    requires Valid(reg)
    ensures var r := AddAll(reg, items, keys).0;
      AddAll(reg, items, keys).1.None? ==>
      && (forall k :: k in r.m <==> k in reg.m || k in Flat(items, keys))
      && (forall k :: k in reg.m ==> r.m[k] == reg.m[k])
    decreases |items|
  {
    if |items| > 0 && AddAll(reg, items, keys).1.None? {
      var reg1 := AddUnder(reg, keys(items[0]), items[0]).value;
      AddAllKeys(reg1, items[1..], keys);
      assert forall k :: k in Flat(items, keys) <==> k in keys(items[0]) || k in Flat(items[1..], keys);
    }
  }

  /** Without an error, every item is registered under each of its keys. */
  lemma {:induction false} AddAllRegisters<B>(reg: Registry<B>, items: seq<B>, keys: B -> seq<string>, j: nat, k: string)
    requires Valid(reg) && j < |items| && k in keys(items[j])
    ensures AddAll(reg, items, keys).1.None? ==> k in AddAll(reg, items, keys).0.m && AddAll(reg, items, keys).0.m[k] == items[j]
    decreases j
  {
    if AddAll(reg, items, keys).1.None? {
      var reg1 := AddUnder(reg, keys(items[0]), items[0]).value;
      AddAllKeys(reg1, items[1..], keys);
      if j > 0 {
        assert items[j] == items[1..][j - 1];
        AddAllRegisters(reg1, items[1..], keys, j - 1, k);
      }
    }
  }

  /** setIncompleteTypes: it succeeds exactly when no type name is used twice. */
  function SetTypes<T, A, R>(b: Builder<T, A, R>, tbs: seq<TypeBuilder<T>>): (r: (Builder<T, A, R>, Option<Error>))
    requires ValidBuilder(b)
    ensures ValidBuilder(r.0) && r.0.attributes == b.attributes && r.0.tables == b.tables && r.0.rules == b.rules
    ensures r.1.None? <==> Distinct(Flat(tbs, TypeKeys))
    ensures r.1.Some? ==> r.1.value == ModelBuilding
    ensures r.1.None? ==> (forall i :: 0 <= i < |tbs| ==> tbs[i].name in r.0.types.m && r.0.types.m[tbs[i].name] == tbs[i]) &&
                          forall k :: k in r.0.types.m <==> k in Flat(tbs, TypeKeys)
  {
    var (reg, err) := AddAll(Empty(), tbs, TypeKeys);
    AddAllSucceeds(Empty(), tbs, TypeKeys);
    forall i | 0 <= i < |tbs|
      ensures err.None? ==> tbs[i].name in reg.m && reg.m[tbs[i].name] == tbs[i]
    {
      AddAllRegisters(Empty(), tbs, TypeKeys, i, tbs[i].name);
    }
    AddAllKeys(Empty(), tbs, TypeKeys);
    assert forall i :: 0 <= i < |tbs| ==> tbs[i].name in TypeKeys(tbs[i]);
    (b.(types := reg), err)
  }

  /** setIncompleteTables: it succeeds exactly when no table name is used twice. */
  function SetTables<T, A, R>(b: Builder<T, A, R>, tbs: seq<TableBuilder>): (r: (Builder<T, A, R>, Option<Error>))
    requires ValidBuilder(b)
    ensures ValidBuilder(r.0) && r.0.types == b.types && r.0.attributes == b.attributes && r.0.rules == b.rules
    ensures r.1.None? <==> Distinct(Flat(tbs, TableKeys))
    ensures r.1.Some? ==> r.1.value == ModelBuilding
    ensures r.1.None? ==> (forall i :: 0 <= i < |tbs| ==> tbs[i].name in r.0.tables.m && r.0.tables.m[tbs[i].name] == tbs[i]) &&
                          forall k :: k in r.0.tables.m <==> k in Flat(tbs, TableKeys)
  {
    var (reg, err) := AddAll(Empty(), tbs, TableKeys);
    AddAllSucceeds(Empty(), tbs, TableKeys);
    forall i | 0 <= i < |tbs|
      ensures err.None? ==> tbs[i].name in reg.m && reg.m[tbs[i].name] == tbs[i]
    {
      AddAllRegisters(Empty(), tbs, TableKeys, i, tbs[i].name);
    }
    AddAllKeys(Empty(), tbs, TableKeys);
    assert forall i :: 0 <= i < |tbs| ==> tbs[i].name in TableKeys(tbs[i]);
    (b.(tables := reg), err)
  }

  /** setIncompleteRules: it succeeds exactly when no rule name is used twice. */
  function SetRules<T, A, R>(b: Builder<T, A, R>, rbs: seq<RuleBuilder<R>>): (r: (Builder<T, A, R>, Option<Error>))
    requires ValidBuilder(b)
    ensures ValidBuilder(r.0) && r.0.types == b.types && r.0.attributes == b.attributes && r.0.tables == b.tables
    ensures r.1.None? <==> Distinct(Flat(rbs, RuleKeys))
    ensures r.1.Some? ==> r.1.value == ModelBuilding
    ensures r.1.None? ==> (forall i :: 0 <= i < |rbs| ==> rbs[i].name in r.0.rules.m && r.0.rules.m[rbs[i].name] == rbs[i]) &&
                          forall k :: k in r.0.rules.m <==> k in Flat(rbs, RuleKeys)
  {
    var (reg, err) := AddAll(Empty(), rbs, RuleKeys);
    AddAllSucceeds(Empty(), rbs, RuleKeys);
    forall i | 0 <= i < |rbs|
      ensures err.None? ==> rbs[i].name in reg.m && reg.m[rbs[i].name] == rbs[i]
    {
      AddAllRegisters(Empty(), rbs, RuleKeys, i, rbs[i].name);
    }
    AddAllKeys(Empty(), rbs, RuleKeys);
    assert forall i :: 0 <= i < |rbs| ==> rbs[i].name in RuleKeys(rbs[i]);
    (b.(rules := reg), err)
  }

  /** The attribute is registered under its name and its abbreviation. */
  ghost predicate AttributeRegistered<A>(reg: Registry<AttributeBuilder<A>>, ab: AttributeBuilder<A>) {
    && ab.name in reg.m && reg.m[ab.name] == ab
    && (ab.abbrev.Some? ==> ab.abbrev.value in reg.m && reg.m[ab.abbrev.value] == ab)
  }

  lemma AttributeKeysDistinct<A>(abs: seq<AttributeBuilder<A>>)
    ensures forall i :: 0 <= i < |abs| ==> Distinct(AttributeKeys(abs[i]))
  {
  }

  /** Without an error, setIncompleteAttributes registers every attribute under
      its name and its abbreviation. */
  lemma AddAllAttributes<A>(abs: seq<AttributeBuilder<A>>)
    ensures var r := AddAll(Empty(), abs, AttributeKeys);
      r.1.None? ==> forall i :: 0 <= i < |abs| ==> AttributeRegistered(r.0, abs[i])
  {
    var r := AddAll(Empty(), abs, AttributeKeys);
    if r.1.None? {
      forall i | 0 <= i < |abs|
        ensures AttributeRegistered(r.0, abs[i])
      {
        var ab := abs[i];
        AddAllRegisters(Empty(), abs, AttributeKeys, i, ab.name);
        if ab.abbrev.Some? {
          AddAllRegisters(Empty(), abs, AttributeKeys, i, ab.abbrev.value);
        }
      }
    }
  }

  /** setIncompleteAttributes: it succeeds exactly when no name or abbreviation
      is used twice across the attributes, and then every attribute is registered
      under each of its keys. */
  function SetAttributes<T, A, R>(b: Builder<T, A, R>, abs: seq<AttributeBuilder<A>>): (r: (Builder<T, A, R>, Option<Error>))
    requires ValidBuilder(b)
    ensures ValidBuilder(r.0) && r.0.types == b.types && r.0.tables == b.tables && r.0.rules == b.rules
    ensures r.1.None? <==> Distinct(Flat(abs, AttributeKeys))
    ensures r.1.Some? ==> r.1.value == ModelBuilding
    ensures r.1.None? ==> forall i :: 0 <= i < |abs| ==> AttributeRegistered(r.0.attributes, abs[i])
  {
    var (reg, err) := AddAll(Empty(), abs, AttributeKeys);
    AttributeKeysDistinct(abs);
    AddAllSucceeds(Empty(), abs, AttributeKeys);
    AddAllAttributes(abs);
    (b.(attributes := reg), err)
  }
}
