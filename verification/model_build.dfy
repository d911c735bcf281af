/** The build stage of the model builder (heart/xtt/XTTModel.java, Builder.build):
    the registered types, attributes, tables and rules are built in that order,
    each stage checking what the earlier ones produced, and the first failure is
    the result. */
module ModelBuild {
  import opened Errors
  import opened Values
  import opened Formulae
  import opened Rules
  import opened Registries
  import opened ModelBuilder

  /** The builders of the single elements, which are not part of this model:
      Type.Builder.build, Attribute.Builder.build with the attribute's type, and
      Rule.Builder.build with the attributes of the model. */
  datatype Builders<!T, !A, !R> = Builders(
    buildType: TypeBuilder<T> -> Result<Type>,
    buildAttribute: (AttributeBuilder<A>, Type) -> Result<Attribute>,
    buildRule: (RuleBuilder<R>, map<string, Attribute>) -> Result<Rule>)

  /** buildTypes: every registered type is built and kept under its key; the
      first failure is the result. */
  function BuildTypes<T>(reg: Registry<TypeBuilder<T>>, ks: seq<string>, build: TypeBuilder<T> -> Result<Type>): (r: Result<map<string, Type>>)
    requires forall k :: k in ks ==> k in reg.m
    ensures r.Ok? <==> forall i :: 0 <= i < |ks| ==> build(reg.m[ks[i]]).Ok?
    ensures r.Ok? ==> forall k :: k in r.value <==> k in ks
    ensures r.Ok? ==> forall k :: k in ks ==> r.value[k] == build(reg.m[k]).value
    decreases |ks|
  {
    if |ks| == 0 then Ok(map[])
    else
      assert forall k :: k in ks <==> k == ks[0] || k in ks[1..];
      assert forall i :: 1 <= i < |ks| ==> ks[i] == ks[1..][i - 1];
      var t :- build(reg.m[ks[0]]);
      var rest :- BuildTypes(reg, ks[1..], build);
      Ok(rest[ks[0] := t])
  }

  /** The keys a built attribute is stored under. The source also stores an
      attribute without an abbreviation under the null key, which no lookup by
      name can reach. */
  function NamesOf(a: Attribute): seq<string> {
    KeysOf(a.name, a.abbrev)
  }

  /** An attribute builder names a defined type and builds. */
  predicate AttributeBuilds<A>(ab: AttributeBuilder<A>, types: map<string, Type>, build: (AttributeBuilder<A>, Type) -> Result<Attribute>) {
    ab.typeName in types && build(ab, types[ab.typeName]).Ok?
  }

  /** buildAttributes: an attribute whose type is not defined is a builder
      error; otherwise the built attribute is stored under its name and its
      abbreviation, a later one replacing an earlier one under the same key. */
  function BuildAttributes<A>(abs: seq<AttributeBuilder<A>>, types: map<string, Type>,
                              build: (AttributeBuilder<A>, Type) -> Result<Attribute>, acc: Registry<Attribute>): (r: Result<Registry<Attribute>>)
    requires Valid(acc)
    ensures r.Ok? <==> forall i :: 0 <= i < |abs| ==> AttributeBuilds(abs[i], types, build)
    ensures r.Fail? && |abs| > 0 && abs[0].typeName !in types ==> r.error == ModelBuilding
    ensures r.Ok? ==> Valid(r.value)
    decreases |abs|
  {
    if |abs| == 0 then Ok(acc)
    else if abs[0].typeName !in types then Fail(ModelBuilding)
    else
      var a :- build(abs[0], types[abs[0].typeName]);
      assert forall i :: 1 <= i < |abs| ==> abs[i] == abs[1..][i - 1];
      BuildAttributes(abs[1..], types, build, PutAll(acc, NamesOf(a), a))
  }

  /** An attribute is stored under its name or its abbreviation. */
  predicate StoredUnder(a: Attribute, k: string) {
    a.name == k || a.abbrev == Some(k)
  }

  /** buildAttributes stores every attribute only under its own keys, and every
      attribute built is stored under its keys or replaced there by a later
      one. */
  lemma {:induction false} BuildAttributesKeys<A>(abs: seq<AttributeBuilder<A>>, types: map<string, Type>,
                                                  build: (AttributeBuilder<A>, Type) -> Result<Attribute>, acc: Registry<Attribute>)
    requires Valid(acc)
    ensures var r := BuildAttributes(abs, types, build, acc);
      r.Ok? ==> && acc.m.Keys <= r.value.m.Keys
                && forall k :: k in r.value.m ==> (k in acc.m && r.value.m[k] == acc.m[k]) || StoredUnder(r.value.m[k], k)
    decreases |abs|
  {
    if |abs| > 0 && BuildAttributes(abs, types, build, acc).Ok? {
      var a := build(abs[0], types[abs[0].typeName]).value;
      var acc1 := PutAll(acc, NamesOf(a), a);
      assert forall k :: k in NamesOf(a) ==> StoredUnder(a, k);
      BuildAttributesKeys(abs[1..], types, build, acc1);
    }
  }

  /** Every name a table builder uses is a defined attribute. */
  predicate Defined(tb: TableBuilder, attrs: map<string, Attribute>) {
    (forall j :: 0 <= j < |tb.condNames| ==> tb.condNames[j] in attrs) &&
    (forall j :: 0 <= j < |tb.decNames| ==> tb.decNames[j] in attrs)
  }

  /** The attributes named, in order. */
  function Lookup(names: seq<string>, attrs: map<string, Attribute>): (r: seq<Attribute>)
    requires forall j :: 0 <= j < |names| ==> names[j] in attrs
    ensures |r| == |names| && forall j :: 0 <= j < |names| ==> r[j] == attrs[names[j]]
    decreases |names|
  {
    if |names| == 0 then [] else [attrs[names[0]]] + Lookup(names[1..], attrs)
  }

  /** The table a builder stands for: its name, the named attributes in order as
      precondition and conclusion, and no rules yet. */
  ghost predicate Resolves(t: Table, tb: TableBuilder, attrs: map<string, Attribute>) {
    && t.name == tb.name && t.rules == []
    && |t.precondition| == |tb.condNames| && |t.conclusion| == |tb.decNames|
    && (forall j :: 0 <= j < |tb.condNames| ==> tb.condNames[j] in attrs && t.precondition[j] == attrs[tb.condNames[j]])
    && (forall j :: 0 <= j < |tb.decNames| ==> tb.decNames[j] in attrs && t.conclusion[j] == attrs[tb.decNames[j]])
  }

  /** Every table is stored under its own name and uses only attributes of the
      model. */
  ghost predicate TablesUse(reg: Registry<Table>, attrs: map<string, Attribute>) {
    forall k :: k in reg.m ==>
      && reg.m[k].name == k
      && (forall a :: a in reg.m[k].precondition ==> a in attrs.Values)
      && (forall a :: a in reg.m[k].conclusion ==> a in attrs.Values)
  }

  /** buildTables: a table that uses an undefined attribute is a builder error;
      otherwise the table is stored under its builder's name. */
  function BuildTables(tbs: seq<TableBuilder>, attrs: map<string, Attribute>, acc: Registry<Table>): (r: Result<Registry<Table>>)
    requires Valid(acc)
    ensures r.Ok? <==> forall i :: 0 <= i < |tbs| ==> Defined(tbs[i], attrs)
    ensures r.Fail? ==> r.error == ModelBuilding
    ensures r.Ok? ==> Valid(r.value)
    decreases |tbs|
  {
    if |tbs| == 0 then Ok(acc)
    else if !Defined(tbs[0], attrs) then Fail(ModelBuilding)
    else
      assert forall i :: 1 <= i < |tbs| ==> tbs[i] == tbs[1..][i - 1];
      BuildTables(tbs[1..], attrs, Put(acc, tbs[0].name, TableOf(tbs[0], attrs)))
  }

  function TableOf(tb: TableBuilder, attrs: map<string, Attribute>): (t: Table)
    requires Defined(tb, attrs)
    ensures Resolves(t, tb, attrs)
  {
    Table(tb.name, Lookup(tb.condNames, attrs), Lookup(tb.decNames, attrs), [])
  }

  /** buildTables keeps the tables built before and adds one key per table
      builder: its name. */
  /** A name occurs in a non-empty list of table builders when it is the first
      one's or occurs in the rest. */
  lemma NamedCons(tbs: seq<TableBuilder>, k: string)
    requires |tbs| > 0
    ensures (exists i :: 0 <= i < |tbs| && tbs[i].name == k) <==>
            tbs[0].name == k || exists i :: 0 <= i < |tbs[1..]| && tbs[1..][i].name == k
  {
    if exists i :: 0 <= i < |tbs[1..]| && tbs[1..][i].name == k {
      var i :| 0 <= i < |tbs[1..]| && tbs[1..][i].name == k;
      assert tbs[i + 1].name == k;
    }
    if exists i :: 0 <= i < |tbs| && tbs[i].name == k {
      var i :| 0 <= i < |tbs| && tbs[i].name == k;
      if i > 0 {
        assert tbs[1..][i - 1].name == k;
      }
    }
  }

  lemma {:induction false} BuildTablesKeys(tbs: seq<TableBuilder>, attrs: map<string, Attribute>, acc: Registry<Table>)
    requires Valid(acc)
    ensures var r := BuildTables(tbs, attrs, acc);
      r.Ok? ==> forall k :: k in r.value.m <==> k in acc.m || exists i :: 0 <= i < |tbs| && tbs[i].name == k
    decreases |tbs|
  {
    if |tbs| > 0 && BuildTables(tbs, attrs, acc).Ok? {
      var acc1 := Put(acc, tbs[0].name, TableOf(tbs[0], attrs));
      var rest := tbs[1..];
      assert BuildTables(tbs, attrs, acc) == BuildTables(rest, attrs, acc1);
      BuildTablesKeys(rest, attrs, acc1);
      var m := BuildTables(rest, attrs, acc1).value.m;
      forall k ensures k in m <==> k in acc.m || exists i :: 0 <= i < |tbs| && tbs[i].name == k {
        NamedCons(tbs, k);
      }
    }
  }

  /** A table builder whose name no later builder repeats is built into the
      table it stands for. */
  lemma {:induction false} BuildTablesResolve(tbs: seq<TableBuilder>, attrs: map<string, Attribute>, acc: Registry<Table>, i: nat)
    requires Valid(acc) && i < |tbs| && forall j :: i < j < |tbs| ==> tbs[j].name != tbs[i].name
    ensures var r := BuildTables(tbs, attrs, acc);
      r.Ok? ==> tbs[i].name in r.value.m && Resolves(r.value.m[tbs[i].name], tbs[i], attrs)
    decreases |tbs|
  {
    var r := BuildTables(tbs, attrs, acc);
    if r.Ok? {
      var acc1 := Put(acc, tbs[0].name, TableOf(tbs[0], attrs));
      if i > 0 {
        assert forall j :: i - 1 < j < |tbs| - 1 ==> tbs[1..][j] == tbs[j + 1];
        BuildTablesResolve(tbs[1..], attrs, acc1, i - 1);
      } else {
        BuildTablesKeep(tbs[1..], attrs, acc1, tbs[0].name);
      }
    }
  }

  /** A key no later table builder uses keeps its table. */
  lemma {:induction false} BuildTablesKeep(tbs: seq<TableBuilder>, attrs: map<string, Attribute>, acc: Registry<Table>, k: string)
    requires Valid(acc) && k in acc.m && forall j :: 0 <= j < |tbs| ==> tbs[j].name != k
    ensures var r := BuildTables(tbs, attrs, acc);
      r.Ok? ==> k in r.value.m && r.value.m[k] == acc.m[k]
    decreases |tbs|
  {
    if |tbs| > 0 && BuildTables(tbs, attrs, acc).Ok? {
      assert forall j :: 0 <= j < |tbs| - 1 ==> tbs[1..][j] == tbs[j + 1];
      BuildTablesKeep(tbs[1..], attrs, Put(acc, tbs[0].name, TableOf(tbs[0], attrs)), k);
    }
  }

  /** buildTables keeps every table under its own name, with only attributes of
      the model and no rules. */
  lemma {:induction false} BuildTablesUse(tbs: seq<TableBuilder>, attrs: map<string, Attribute>, acc: Registry<Table>)
    requires Valid(acc) && TablesUse(acc, attrs) && forall k :: k in acc.m ==> acc.m[k].rules == []
    ensures var r := BuildTables(tbs, attrs, acc);
      r.Ok? ==> TablesUse(r.value, attrs) && forall k :: k in r.value.m ==> r.value.m[k].rules == []
    decreases |tbs|
  {
    if |tbs| > 0 && BuildTables(tbs, attrs, acc).Ok? {
      var t := TableOf(tbs[0], attrs);
      assert forall a :: a in t.precondition ==> a in attrs.Values;
      assert forall a :: a in t.conclusion ==> a in attrs.Values;
      BuildTablesUse(tbs[1..], attrs, Put(acc, tbs[0].name, t));
    }
  }

  /** A rule fits its table: it writes only the table's conclusion and reads
      only its precondition. */
  predicate Fits(rule: Rule, t: Table) {
    (forall d :: 0 <= d < |rule.decisions| ==> rule.decisions[d].attr in t.conclusion) &&
    (forall c :: 0 <= c < |rule.conditions| ==> rule.conditions[c].ops.attr in t.precondition)
  }

  /** Every rule of every table fits it. */
  ghost predicate Fitted(reg: Registry<Table>) {
    forall k :: k in reg.m ==> forall i :: 0 <= i < |reg.m[k].rules| ==> Fits(reg.m[k].rules[i], reg.m[k])
  }

  /** The tables keep their keys, names, preconditions and conclusions; rules are
      only appended. */
  ghost predicate Grown(reg: Registry<Table>, reg1: Registry<Table>) {
    && reg1.order == reg.order && reg1.m.Keys == reg.m.Keys
    && forall k :: k in reg.m ==>
         && reg1.m[k].name == reg.m[k].name
         && reg1.m[k].precondition == reg.m[k].precondition && reg1.m[k].conclusion == reg.m[k].conclusion
         && |reg.m[k].rules| <= |reg1.m[k].rules|
  }

  /** buildRules: a rule of an undefined table, a rule name already built, and a
      rule that writes or reads an attribute its table does not declare are
      builder errors; otherwise the rule is appended to its table. The links
      between rules and tables are not part of this model. */
  function BuildRules<R>(rbs: seq<RuleBuilder<R>>, attrs: map<string, Attribute>, tables: Registry<Table>, rules: map<string, Rule>,
                         build: (RuleBuilder<R>, map<string, Attribute>) -> Result<Rule>): (r: Result<(Registry<Table>, map<string, Rule>)>)
    requires Valid(tables)
    ensures r.Ok? ==> forall i :: 0 <= i < |rbs| ==> rbs[i].scheme in tables.m
    ensures r.Fail? && |rbs| > 0 && rbs[0].scheme !in tables.m ==> r.error == ModelBuilding
    ensures |rbs| > 0 && rbs[0].scheme in tables.m && rbs[0].name in rules ==> r == Fail(ModelBuilding)
    ensures r.Ok? ==> forall i :: 0 <= i < |rbs| ==> rbs[i].name !in rules
    ensures r.Ok? ==> Valid(r.value.0)
    decreases |rbs|
  {
    if |rbs| == 0 then Ok((tables, rules))
    else
      var rb := rbs[0];
      if rb.scheme !in tables.m then Fail(ModelBuilding)
      else if rb.name in rules then Fail(ModelBuilding)
      else
        var rule :- build(rb, attrs);
        var t := tables.m[rb.scheme];
        if !Fits(rule, t) then Fail(ModelBuilding)
        else
          var t1 := t.(rules := t.rules + [rule]);
          var tables1 := Put(tables, rb.scheme, t1);
          assert forall i :: 1 <= i < |rbs| ==> rbs[i] == rbs[1..][i - 1];
          BuildRules(rbs[1..], attrs, tables1, rules[rule.name := rule], build)
  }

  /** buildRules keeps the tables' keys, names, preconditions and conclusions,
      and only appends rules. */
  lemma {:induction false} BuildRulesGrow<R>(rbs: seq<RuleBuilder<R>>, attrs: map<string, Attribute>, tables: Registry<Table>, rules: map<string, Rule>,
                                             build: (RuleBuilder<R>, map<string, Attribute>) -> Result<Rule>)
    requires Valid(tables)
    ensures var r := BuildRules(rbs, attrs, tables, rules, build);
      r.Ok? ==> Grown(tables, r.value.0)
    decreases |rbs|
  {
    var r := BuildRules(rbs, attrs, tables, rules, build);
    if |rbs| > 0 && r.Ok? {
      var rb := rbs[0];
      var rule := build(rb, attrs).value;
      var t := tables.m[rb.scheme];
      var tables1 := Put(tables, rb.scheme, t.(rules := t.rules + [rule]));
      BuildRulesGrow(rbs[1..], attrs, tables1, rules[rule.name := rule], build);
    }
  }

  /** The rules the builders of table `k` build, in builder order. */
  function BuiltFor<R>(rbs: seq<RuleBuilder<R>>, attrs: map<string, Attribute>,
                       build: (RuleBuilder<R>, map<string, Attribute>) -> Result<Rule>, k: string): seq<Rule>
    decreases |rbs|
  {
    if |rbs| == 0 then []
    else
      (if rbs[0].scheme == k && build(rbs[0], attrs).Ok? then [build(rbs[0], attrs).value] else []) +
      BuiltFor(rbs[1..], attrs, build, k)
  }

  /** The table and the rule map after the first builder's rule is added. */
  function TablesAfter(tables: Registry<Table>, scheme: string, rule: Rule): (r: Registry<Table>)
    requires Valid(tables) && scheme in tables.m
    ensures Valid(r) && r.m.Keys == tables.m.Keys && r.order == tables.order
    ensures r.m[scheme].rules == tables.m[scheme].rules + [rule]
    ensures forall k :: k in tables.m && k != scheme ==> r.m[k] == tables.m[k]
  {
    Put(tables, scheme, tables.m[scheme].(rules := tables.m[scheme].rules + [rule]))
  }

  /** One successful step of buildRules: the first builder's table exists, its
      name is new, its rule builds and fits, and the rest is built on top. */
  lemma BuildRulesStep<R>(rbs: seq<RuleBuilder<R>>, attrs: map<string, Attribute>, tables: Registry<Table>, rules: map<string, Rule>,
                          build: (RuleBuilder<R>, map<string, Attribute>) -> Result<Rule>)
    requires Valid(tables) && |rbs| > 0 && BuildRules(rbs, attrs, tables, rules, build).Ok?
    ensures rbs[0].scheme in tables.m && rbs[0].name !in rules && build(rbs[0], attrs).Ok?
    ensures var rule := build(rbs[0], attrs).value;
      BuildRules(rbs, attrs, tables, rules, build) ==
      BuildRules(rbs[1..], attrs, TablesAfter(tables, rbs[0].scheme, rule), rules[rule.name := rule], build)
    ensures forall j :: 1 <= j < |rbs| ==> rbs[j].name != build(rbs[0], attrs).value.name
  {
    var rule := build(rbs[0], attrs).value;
    var rest := BuildRules(rbs[1..], attrs, TablesAfter(tables, rbs[0].scheme, rule), rules[rule.name := rule], build);
    assert forall j :: 1 <= j < |rbs| ==> rbs[j] == rbs[1..][j - 1];
  }

  /** Every builder's rule builds. */
  predicate AllBuild<R>(rbs: seq<RuleBuilder<R>>, attrs: map<string, Attribute>,
                        build: (RuleBuilder<R>, map<string, Attribute>) -> Result<Rule>)
  {
    forall i :: 0 <= i < |rbs| ==> build(rbs[i], attrs).Ok?
  }

  /** `after` holds the tables of `before`, each followed by the rules its
      builders build, in builder order. */
  ghost predicate Appended<R>(before: Registry<Table>, after: Registry<Table>, rbs: seq<RuleBuilder<R>>, attrs: map<string, Attribute>,
                              build: (RuleBuilder<R>, map<string, Attribute>) -> Result<Rule>)
  {
    && after.m.Keys == before.m.Keys
    && forall k :: k in before.m ==> after.m[k].rules == before.m[k].rules + BuiltFor(rbs, attrs, build, k)
  }

  /** buildRules builds every rule and appends it to its own table: each table
      ends with the rules it had, followed by the rules of its builders in builder
      order, and nothing else. */
  lemma {:induction false} BuildRulesAppends<R>(rbs: seq<RuleBuilder<R>>, attrs: map<string, Attribute>, tables: Registry<Table>, rules: map<string, Rule>,
                                                build: (RuleBuilder<R>, map<string, Attribute>) -> Result<Rule>)
    requires Valid(tables)
    ensures var r := BuildRules(rbs, attrs, tables, rules, build);
      r.Ok? ==> AllBuild(rbs, attrs, build) && Appended(tables, r.value.0, rbs, attrs, build)
    decreases |rbs|
  {
    var r := BuildRules(rbs, attrs, tables, rules, build);
    if |rbs| > 0 && r.Ok? {
      BuildRulesStep(rbs, attrs, tables, rules, build);
      var rule := build(rbs[0], attrs).value;
      var tables1 := TablesAfter(tables, rbs[0].scheme, rule);
      BuildRulesAppends(rbs[1..], attrs, tables1, rules[rule.name := rule], build);
      assert AllBuild(rbs, attrs, build) by {
        assert forall i :: 1 <= i < |rbs| ==> rbs[i] == rbs[1..][i - 1];
      }
      AppendedStep(rbs, attrs, build, tables, r.value.0);
    }
  }

  lemma AppendedStep<R>(rbs: seq<RuleBuilder<R>>, attrs: map<string, Attribute>,
                        build: (RuleBuilder<R>, map<string, Attribute>) -> Result<Rule>,
                        tables: Registry<Table>, after: Registry<Table>)
    requires Valid(tables) && |rbs| > 0 && rbs[0].scheme in tables.m && build(rbs[0], attrs).Ok?
    requires Appended(TablesAfter(tables, rbs[0].scheme, build(rbs[0], attrs).value), after, rbs[1..], attrs, build)
    ensures Appended(tables, after, rbs, attrs, build)
  {
    var rule := build(rbs[0], attrs).value;
    var tables1 := TablesAfter(tables, rbs[0].scheme, rule);
    forall k | k in tables.m
      ensures after.m[k].rules == tables.m[k].rules + BuiltFor(rbs, attrs, build, k)
    {
      var rest := BuiltFor(rbs[1..], attrs, build, k);
      if k == rbs[0].scheme {
        assert BuiltFor(rbs, attrs, build, k) == [rule] + rest;
      } else {
        assert BuiltFor(rbs, attrs, build, k) == rest;
      }
    }
  }

  /** The builder at `j` does not carry the name of the rule built at `i`. */
  predicate NameFreshAt<R>(rbs: seq<RuleBuilder<R>>, attrs: map<string, Attribute>,
                           build: (RuleBuilder<R>, map<string, Attribute>) -> Result<Rule>, i: nat, j: nat)
    requires i < j < |rbs|
  {
    build(rbs[i], attrs).Ok? && rbs[j].name != build(rbs[i], attrs).value.name
  }

  /** A builder whose name an earlier builder's rule already took fails the
      build: after a successful buildRules, no builder carries the name of a rule
      built before it. */
  lemma BuildRulesNamesFresh<R>(rbs: seq<RuleBuilder<R>>, attrs: map<string, Attribute>, tables: Registry<Table>, rules: map<string, Rule>,
                                build: (RuleBuilder<R>, map<string, Attribute>) -> Result<Rule>)
    requires Valid(tables)
    ensures var r := BuildRules(rbs, attrs, tables, rules, build);
      r.Ok? ==> forall i: nat, j: nat :: i < j < |rbs| ==> NameFreshAt(rbs, attrs, build, i, j)
  {
    if BuildRules(rbs, attrs, tables, rules, build).Ok? {
      forall i: nat, j: nat | i < j < |rbs| ensures NameFreshAt(rbs, attrs, build, i, j) {
        NameFresh(rbs, attrs, tables, rules, build, i, j);
      }
    }
  }

  lemma {:induction false} NameFresh<R>(rbs: seq<RuleBuilder<R>>, attrs: map<string, Attribute>, tables: Registry<Table>, rules: map<string, Rule>,
                                        build: (RuleBuilder<R>, map<string, Attribute>) -> Result<Rule>, i: nat, j: nat)
    requires Valid(tables) && BuildRules(rbs, attrs, tables, rules, build).Ok? && i < j < |rbs|
    ensures build(rbs[i], attrs).Ok? && rbs[j].name != build(rbs[i], attrs).value.name
    decreases i
  {
    BuildRulesStep(rbs, attrs, tables, rules, build);
    if i > 0 {
      var rule := build(rbs[0], attrs).value;
      NameFresh(rbs[1..], attrs, TablesAfter(tables, rbs[0].scheme, rule), rules[rule.name := rule], build, i - 1, j - 1);
      assert rbs[j] == rbs[1..][j - 1];
      assert rbs[i] == rbs[1..][i - 1];
    }
  }

  /** buildRules only adds rules that fit their tables. */
  lemma {:induction false} BuildRulesFit<R>(rbs: seq<RuleBuilder<R>>, attrs: map<string, Attribute>, tables: Registry<Table>, rules: map<string, Rule>,
                                            build: (RuleBuilder<R>, map<string, Attribute>) -> Result<Rule>)
    requires Valid(tables) && Fitted(tables)
    ensures var r := BuildRules(rbs, attrs, tables, rules, build);
      r.Ok? ==> Fitted(r.value.0)
    decreases |rbs|
  {
    var r := BuildRules(rbs, attrs, tables, rules, build);
    if |rbs| > 0 && r.Ok? {
      var rb := rbs[0];
      var rule := build(rb, attrs).value;
      var t := tables.m[rb.scheme];
      var t1 := t.(rules := t.rules + [rule]);
      assert forall i :: 0 <= i < |t1.rules| ==> Fits(t1.rules[i], t1) by {
        assert forall i :: 0 <= i < |t.rules| ==> t1.rules[i] == t.rules[i];
      }
      var tables1 := Put(tables, rb.scheme, t1);
      BuildRulesFit(rbs[1..], attrs, tables1, rules[rule.name := rule], build);
    }
  }

  /** An XTT2 model: its types, its attributes and its tables. */
  datatype Model = Model(types: seq<Type>, attributes: seq<Attribute>, tables: seq<Table>)

  /** The distinct attributes, each at its first occurrence: the HashSet the
      model's attributes pass through, whose order the library leaves open. */
  function Dedup(s: seq<Attribute>): (r: seq<Attribute>)
    ensures forall x :: x in r <==> x in s
    ensures forall i, j :: 0 <= i < j < |r| ==> r[i] != r[j]
    decreases |s|
  {
    if |s| == 0 then []
    else
      var d := Dedup(s[..|s| - 1]);
      assert forall x :: x in s <==> x in s[..|s| - 1] || x == s[|s| - 1];
      if s[|s| - 1] in d then d else d + [s[|s| - 1]]
  }

  /** The built types in the iteration order of their keys. */
  function InOrder(types: map<string, Type>, order: seq<string>): (r: seq<Type>)
    requires forall k :: k in order ==> k in types
    ensures |r| == |order| && forall i :: 0 <= i < |order| ==> r[i] == types[order[i]]
    decreases |order|
  {
    if |order| == 0 then [] else [types[order[0]]] + InOrder(types, order[1..])
  }

  /** The four stages of build, in order; the first failure is the result. */
  function Stages<T, A, R>(b: Builder<T, A, R>, bs: Builders<T, A, R>): Result<Model>
    requires ValidBuilder(b)
  {
    var types :- BuildTypes(b.types, b.types.order, bs.buildType);
    var attrs :- BuildAttributes(Entries(b.attributes), types, bs.buildAttribute, Empty());
    var tables :- BuildTables(Entries(b.tables), attrs.m, Empty());
    var built :- BuildRules(Entries(b.rules), attrs.m, tables, map[], bs.buildRule);
    Ok(Model(InOrder(types, b.types.order), Dedup(Entries(attrs)), Entries(built.0)))
  }

  /** build: a value outside its domain met while building is reported as a
      model-building error, like the builder errors; the types of the model are
      the registered types, each built, in the iteration order of their names. */
  function Build<T, A, R>(b: Builder<T, A, R>, bs: Builders<T, A, R>): (r: Result<Model>)
    requires ValidBuilder(b)
    ensures r.Fail? ==> r.error != NotInTheDomain
    ensures Stages(b, bs).Fail? && Stages(b, bs).error == ModelBuilding ==> r == Fail(ModelBuilding)
    ensures r.Ok? ==> |r.value.types| == |b.types.order| &&
                      forall i :: 0 <= i < |b.types.order| ==>
                        bs.buildType(b.types.m[b.types.order[i]]).Ok? && r.value.types[i] == bs.buildType(b.types.m[b.types.order[i]]).value
  {
    match Stages(b, bs)
    case Fail(e) => Fail(if e == NotInTheDomain then ModelBuilding else e)
    case Ok(model) => Ok(model)
  }

  /** An attribute of an undefined type fails the build. */
  lemma BuildRejectsUndefinedType<T, A, R>(b: Builder<T, A, R>, bs: Builders<T, A, R>, k: string)
    requires ValidBuilder(b) && k in b.attributes.m && b.attributes.m[k].typeName !in b.types.m
    ensures Build(b, bs).Fail?
  {
    var types := BuildTypes(b.types, b.types.order, bs.buildType);
    if types.Ok? {
      var vs := Entries(b.attributes);
      var i :| 0 <= i < |b.attributes.order| && b.attributes.order[i] == k;
      assert !AttributeBuilds(vs[i], types.value, bs.buildAttribute);
    }
  }

  /** Every attribute stored in the built registry is an attribute of the
      model, which lists the registry's entries without repeats. */
  lemma StoredAttributesListed(attrs: Registry<Attribute>)
    requires Valid(attrs)
    ensures forall a :: a in attrs.m.Values ==> a in Dedup(Entries(attrs))
  {
    var vs := Entries(attrs);
    forall a | a in attrs.m.Values
      ensures a in Dedup(vs)
    {
      var k :| k in attrs.m && attrs.m[k] == a;
      var i :| 0 <= i < |attrs.order| && attrs.order[i] == k;
      assert vs[i] == a;
    }
  }

  /** The tables of a registry that uses only the given attributes, listed in
      iteration order, use only attributes of the list those attributes are in. */
  lemma ListedTablesUse(reg: Registry<Table>, attrs: map<string, Attribute>, listed: seq<Attribute>)
    requires Valid(reg) && forall a :: a in attrs.Values ==> a in listed
    requires forall k :: k in reg.m ==>
      (forall a :: a in reg.m[k].precondition ==> a in attrs.Values) &&
      (forall a :: a in reg.m[k].conclusion ==> a in attrs.Values)
    ensures forall i :: 0 <= i < |Entries(reg)| ==>
      && (forall a :: a in Entries(reg)[i].precondition ==> a in listed)
      && (forall a :: a in Entries(reg)[i].conclusion ==> a in listed)
  {
    forall i | 0 <= i < |Entries(reg)|
      ensures (forall a :: a in Entries(reg)[i].precondition ==> a in listed)
      ensures (forall a :: a in Entries(reg)[i].conclusion ==> a in listed)
    {
      assert Entries(reg)[i] == reg.m[reg.order[i]];
    }
  }

  /** The tables of a fitted registry, listed in iteration order, hold only rules
      that fit them. */
  lemma ListedTablesFit(reg: Registry<Table>)
    requires Valid(reg) && Fitted(reg)
    ensures forall i, j :: 0 <= i < |Entries(reg)| && 0 <= j < |Entries(reg)[i].rules| ==>
      Fits(Entries(reg)[i].rules[j], Entries(reg)[i])
  {
    forall i, j | 0 <= i < |Entries(reg)| && 0 <= j < |Entries(reg)[i].rules|
      ensures Fits(Entries(reg)[i].rules[j], Entries(reg)[i])
    {
      assert Entries(reg)[i] == reg.m[reg.order[i]];
    }
  }

  /** Growing a registry by buildRules keeps every table's attributes. */
  lemma GrownKeepsUse(reg: Registry<Table>, reg1: Registry<Table>, attrs: map<string, Attribute>)
    requires TablesUse(reg, attrs) && Grown(reg, reg1)
    ensures forall k :: k in reg1.m ==>
      (forall a :: a in reg1.m[k].precondition ==> a in attrs.Values) &&
      (forall a :: a in reg1.m[k].conclusion ==> a in attrs.Values)
  {
  }

  /** A built model is consistent: its attributes are distinct, every table uses
      only attributes of the model, and every rule fits its table. */
  lemma BuildIsConsistent<T, A, R>(b: Builder<T, A, R>, bs: Builders<T, A, R>)
    requires ValidBuilder(b)
    ensures Build(b, bs).Ok? ==> var model := Build(b, bs).value;
      && (forall i, j :: 0 <= i < j < |model.attributes| ==> model.attributes[i] != model.attributes[j])
      && (forall i :: 0 <= i < |model.tables| ==>
            && (forall a :: a in model.tables[i].precondition ==> a in model.attributes)
            && (forall a :: a in model.tables[i].conclusion ==> a in model.attributes))
      && (forall i, j :: 0 <= i < |model.tables| && 0 <= j < |model.tables[i].rules| ==>
            Fits(model.tables[i].rules[j], model.tables[i]))
  {
    if Build(b, bs).Ok? {
      var types := BuildTypes(b.types, b.types.order, bs.buildType).value;
      var attrs := BuildAttributes(Entries(b.attributes), types, bs.buildAttribute, Empty()).value;
      var tables := BuildTables(Entries(b.tables), attrs.m, Empty()).value;
      var built := BuildRules(Entries(b.rules), attrs.m, tables, map[], bs.buildRule).value;
      assert Build(b, bs).value == Model(InOrder(types, b.types.order), Dedup(Entries(attrs)), Entries(built.0));
      BuildTablesUse(Entries(b.tables), attrs.m, Empty());
      BuildRulesGrow(Entries(b.rules), attrs.m, tables, map[], bs.buildRule);
      BuildRulesFit(Entries(b.rules), attrs.m, tables, map[], bs.buildRule);
      GrownKeepsUse(tables, built.0, attrs.m);
      StoredAttributesListed(attrs);
      ListedTablesUse(built.0, attrs.m, Dedup(Entries(attrs)));
      ListedTablesFit(built.0);
    }
  }

  /** Every rule of a built model belongs to a table of the model. */
  lemma BuildPlacesEveryRule<T, A, R>(b: Builder<T, A, R>, bs: Builders<T, A, R>, k: string)
    requires ValidBuilder(b) && k in b.rules.m
    ensures Build(b, bs).Ok? ==> exists i :: 0 <= i < |Build(b, bs).value.tables| && Build(b, bs).value.tables[i].name == b.rules.m[k].scheme
  {
    if Build(b, bs).Ok? {
      var types := BuildTypes(b.types, b.types.order, bs.buildType).value;
      var attrs := BuildAttributes(Entries(b.attributes), types, bs.buildAttribute, Empty()).value;
      var tables := BuildTables(Entries(b.tables), attrs.m, Empty()).value;
      var built := BuildRules(Entries(b.rules), attrs.m, tables, map[], bs.buildRule).value;
      BuildRulesGrow(Entries(b.rules), attrs.m, tables, map[], bs.buildRule);
      BuildTablesUse(Entries(b.tables), attrs.m, Empty());
      var rs := Entries(b.rules);
      var j :| 0 <= j < |b.rules.order| && b.rules.order[j] == k;
      assert rs[j] == b.rules.m[k];
      var scheme := b.rules.m[k].scheme;
      assert scheme in built.0.m;
      var i :| 0 <= i < |built.0.order| && built.0.order[i] == scheme;
      assert Build(b, bs).value.tables[i] == built.0.m[scheme];
    }
  }
}
