/** The remove methods of the model builder (heart/xtt/XTTModel.java, class
    Builder): an element is dropped from its registry by name, abbreviation or
    identifier, and a name nobody carries changes nothing. */
module ModelRemovals {
  import opened Errors
  import opened Values
  import opened Registries
  import opened ModelBuilder

  /** removeIncompleteTypeNamed: an absent name changes nothing. */
  function RemoveTypeNamed<T, A, R>(b: Builder<T, A, R>, name: string): (r: Builder<T, A, R>)
    requires ValidBuilder(b)
    ensures ValidBuilder(r) && r.types.m == b.types.m - {name}
    ensures name !in b.types.m ==> r == b
    ensures r.attributes == b.attributes && r.tables == b.tables && r.rules == b.rules
  {
    b.(types := Remove(b.types, name))
  }

  /** removeIncompleteTableNamed: an absent name changes nothing. */
  function RemoveTableNamed<T, A, R>(b: Builder<T, A, R>, name: string): (r: Builder<T, A, R>)
    requires ValidBuilder(b)
    ensures ValidBuilder(r) && r.tables.m == b.tables.m - {name}
    ensures name !in b.tables.m ==> r == b
    ensures r.types == b.types && r.attributes == b.attributes && r.rules == b.rules
  {
    b.(tables := Remove(b.tables, name))
  }

  /** removeIncompleteRuleNamed, and removeIncompleteRuleWithId, which removes the
      rule named by the identifier: an absent name changes nothing. */
  function RemoveRuleNamed<T, A, R>(b: Builder<T, A, R>, name: string): (r: Builder<T, A, R>)
    requires ValidBuilder(b)
    ensures ValidBuilder(r) && r.rules.m == b.rules.m - {name}
    ensures name !in b.rules.m ==> r == b
    ensures r.types == b.types && r.attributes == b.attributes && r.tables == b.tables
  {
    b.(rules := Remove(b.rules, name))
  }

  /** Removing a key and then another leaves neither. */
  function RemoveBoth<B>(reg: Registry<B>, k1: string, k2: string): (r: Registry<B>)
    requires Valid(reg)
    ensures Valid(r) && r.m == reg.m - {k1, k2}
  {
    Remove(Remove(reg, k1), k2)
  }

  /** removeIncompleteAttributeNamed: the builder registered under `name` is
      looked up, and the key `name` and that builder's abbreviation are removed.
      An absent name changes nothing. */
  function RemoveAttributeNamed<T, A, R>(b: Builder<T, A, R>, name: string): (r: Builder<T, A, R>)
    requires ValidBuilder(b)
    ensures ValidBuilder(r) && r.types == b.types && r.tables == b.tables && r.rules == b.rules
    ensures name !in b.attributes.m ==> r == b
    ensures name in b.attributes.m ==>
              var ab := b.attributes.m[name];
              r.attributes.m == b.attributes.m - {name} - (if ab.abbrev.Some? then {ab.abbrev.value} else {})
  {
    if name !in b.attributes.m then b
    else
      var ab := b.attributes.m[name];
      match ab.abbrev
      case None => b.(attributes := Remove(b.attributes, name))
      case Some(x) => b.(attributes := RemoveBoth(b.attributes, name, x))
  }

  /** removeIncompleteAttributeAbbreviated as the source has it: it hands the
      abbreviation to removeIncompleteAttributeNamed, which removes that key and
      the abbreviation again, so the key of the attribute's name stays. */
  function RemoveAttributeAbbreviatedAsWritten<T, A, R>(b: Builder<T, A, R>, abbrev: string): (r: Builder<T, A, R>)
    requires ValidBuilder(b)
    ensures ValidBuilder(r)
    ensures abbrev in b.attributes.m && b.attributes.m[abbrev].abbrev == Some(abbrev) ==>
              r.attributes.m == b.attributes.m - {abbrev}
  {
    RemoveAttributeNamed(b, abbrev)
  }

  /** removeIncompleteAttributeAbbreviated as evidently intended: the attribute
      registered under the abbreviation is removed under both of its keys. */
  function RemoveAttributeAbbreviated<T, A, R>(b: Builder<T, A, R>, abbrev: string): (r: Builder<T, A, R>)
    requires ValidBuilder(b)
    ensures ValidBuilder(r) && r.types == b.types && r.tables == b.tables && r.rules == b.rules
    ensures abbrev !in b.attributes.m ==> r == b
    ensures abbrev in b.attributes.m ==>
              r.attributes.m == b.attributes.m - {abbrev, b.attributes.m[abbrev].name}
  {
    if abbrev !in b.attributes.m then b
    else b.(attributes := RemoveBoth(b.attributes, abbrev, b.attributes.m[abbrev].name))
  }

  /** The first key, in iteration order, whose attribute builder has the
      identifier. */
  function FirstKeyWithId<A>(reg: Registry<AttributeBuilder<A>>, keys: seq<string>, id: string): (r: Option<string>)
    requires forall k :: k in keys ==> k in reg.m
    ensures r.None? <==> forall i :: 0 <= i < |keys| ==> reg.m[keys[i]].id != id
    ensures r.Some? ==> exists i :: 0 <= i < |keys| && keys[i] == r.value && reg.m[r.value].id == id &&
                                    forall j :: 0 <= j < i ==> reg.m[keys[j]].id != id
    decreases |keys|
  {
    if |keys| == 0 then None
    else if reg.m[keys[0]].id == id then Some(keys[0])
    else
      var r := FirstKeyWithId(reg, keys[1..], id);
      assert forall k :: k in keys[1..] ==> k in keys;
      if r.Some? then
        var i :| 0 <= i < |keys[1..]| && keys[1..][i] == r.value && reg.m[r.value].id == id &&
                 forall j :: 0 <= j < i ==> reg.m[keys[1..][j]].id != id;
        assert keys[i + 1] == r.value;
        assert forall j :: 1 <= j < i + 1 ==> keys[j] == keys[1..][j - 1];
        r
      else r
  }

  /** removeIncompleteAttributeWithId: only the first key, in iteration order,
      whose builder carries the identifier is removed; the builder's other key
      stays. */
  function RemoveAttributeWithId<T, A, R>(b: Builder<T, A, R>, id: string): (r: Builder<T, A, R>)
    requires ValidBuilder(b)
    ensures ValidBuilder(r) && r.types == b.types && r.tables == b.tables && r.rules == b.rules
    ensures (forall k :: k in b.attributes.m ==> b.attributes.m[k].id != id) ==> r == b
    ensures (exists k :: k in b.attributes.m && b.attributes.m[k].id == id) ==>
              exists i :: 0 <= i < |b.attributes.order| && b.attributes.m[b.attributes.order[i]].id == id &&
                          (forall j :: 0 <= j < i ==> b.attributes.m[b.attributes.order[j]].id != id) &&
                          r.attributes.m == b.attributes.m - {b.attributes.order[i]}
  {
    var reg := b.attributes;
    match FirstKeyWithId(reg, reg.order, id)
    case None =>
      assert forall k :: k in reg.m ==> reg.m[k].id != id by {
        forall k | k in reg.m
          ensures reg.m[k].id != id
        {
          var i :| 0 <= i < |reg.order| && reg.order[i] == k;
        }
      }
      b
    case Some(k) => b.(attributes := Remove(reg, k))
  }

  /** Adding an attribute and removing it by name gives back the builder. */
  lemma AddThenRemoveAttribute<T, A, R>(b: Builder<T, A, R>, ab: AttributeBuilder<A>)
    requires ValidBuilder(b) && AddAttribute(b, ab).Ok?
    ensures RemoveAttributeNamed(AddAttribute(b, ab).value, ab.name) == b
  {
    var reg := b.attributes;
    var r1 := Put(reg, ab.name, ab);
    assert PutAll(reg, [ab.name], ab) == r1 by {
      assert [ab.name][1..] == [];
    }
    PutThenRemove(reg, ab.name, ab);
    if ab.abbrev.Some? && ab.abbrev.value != ab.name {
      var x := ab.abbrev.value;
      assert PutAll(reg, [ab.name, x], ab) == Put(r1, x, ab) by {
        assert [ab.name, x][0] == ab.name && [ab.name, x][1..] == [x];
        assert PutAll(reg, [ab.name, x], ab) == PutAll(r1, [x], ab);
        assert [x][1..] == [];
        assert PutAll(r1, [x], ab) == PutAll(Put(r1, x, ab), [], ab);
      }
      RemovePutSwap(r1, ab.name, x, ab);
      PutThenRemove(reg, x, ab);
    }
  }

  /** Adding an attribute with an abbreviation and removing it by that
      abbreviation gives back the builder. */
  lemma AddThenRemoveAbbreviated<T, A, R>(b: Builder<T, A, R>, ab: AttributeBuilder<A>)
    requires ValidBuilder(b) && AddAttribute(b, ab).Ok? && ab.abbrev.Some?
    ensures RemoveAttributeAbbreviated(AddAttribute(b, ab).value, ab.abbrev.value) == b
  {
    var reg := b.attributes;
    var x := ab.abbrev.value;
    var r1 := Put(reg, ab.name, ab);
    PutThenRemove(reg, ab.name, ab);
    if x == ab.name {
      assert PutAll(reg, [ab.name], ab) == r1 by {
        assert [ab.name][1..] == [];
      }
    } else {
      assert PutAll(reg, [ab.name, x], ab) == Put(r1, x, ab) by {
        assert [ab.name, x][0] == ab.name && [ab.name, x][1..] == [x];
        assert PutAll(reg, [ab.name, x], ab) == PutAll(r1, [x], ab);
        assert [x][1..] == [];
        assert PutAll(r1, [x], ab) == PutAll(Put(r1, x, ab), [], ab);
      }
      PutThenRemove(r1, x, ab);
    }
  }

  /** Removing by abbreviation as the source has it leaves the attribute
      registered under its name: an attribute `temperature` abbreviated `t`,
      added to an empty builder and removed by `t`, can still be looked up as
      `temperature`. */
  lemma AbbreviatedRemovalKeepsName<T, A, R>(spec: A)
    ensures var ab := AttributeBuilder("temperature", Some("t"), "att_0", "Temp", spec);
      var b := Builder(Empty<TypeBuilder<T>>(), Empty<AttributeBuilder<A>>(), Empty<TableBuilder>(), Empty<RuleBuilder<R>>());
      && AddAttribute(b, ab).Ok?
      && "temperature" in RemoveAttributeAbbreviatedAsWritten(AddAttribute(b, ab).value, "t").attributes.m
      && "temperature" !in RemoveAttributeAbbreviated(AddAttribute(b, ab).value, "t").attributes.m
  {
    var ab := AttributeBuilder("temperature", Some("t"), "att_0", "Temp", spec);
    var b := Builder(Empty<TypeBuilder<T>>(), Empty<AttributeBuilder<A>>(), Empty<TableBuilder>(), Empty<RuleBuilder<R>>());
    var b1 := AddAttribute(b, ab).value;
    assert b1.attributes.m["t"] == ab;
    assert "temperature" != "t";
  }
}
