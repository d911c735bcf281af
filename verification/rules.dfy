/** Decisions, rules and tables of an XTT2 model (heart/xtt/Decision.java and the
    parts of Rule and Table that the inference and the model builder use). */
module Rules {
  import opened Errors
  import opened Values
  import opened Memory
  import opened Formulae

  /** A decision `attr set expr`: the attribute it writes and the value of its
      expression in a memory. */
  datatype Decision = Decision(attr: Attribute, expr: Memory -> Result<Value>)

  /** A rule: its name, its certainty factor, its conditions and its decisions. */
  datatype Rule = Rule(name: string, cf: real, conditions: seq<Formula>, decisions: seq<Decision>)

  /** A table (an XTT2 scheme): the attributes its conditions read, the
      attributes its decisions write, and its rules in order. */
  datatype Table = Table(name: string, precondition: seq<Attribute>, conclusion: seq<Attribute>, rules: seq<Rule>)

  /** The failures Decision.execute reports as an unsuccessful execution instead
      of throwing. */
  predicate Caught(e: Error) {
    e == Security || e == IllegalArgument || e == AttributeNotRegistered
  }

  /** What Decision.execute leaves: the memory, whether the write happened, and
      the failure that escaped, if any. */
  datatype Executed = Executed(m: Memory, written: bool, escaped: Option<Error>)

  /** Decision.execute: the expression's value, with its certainty factor replaced
      by the certainty of the firing rule, is written with autoregistration. The
      registration stays even when the value is refused; a refusal the method
      catches is reported as no write, any other escapes. */
  function Execute(d: Decision, dom: Domains, m: Memory, certainty: real): (r: Executed)
    ensures r.escaped.Some? ==> !Caught(r.escaped.value) && !r.written
    ensures d.expr(m).Fail? ==> r == Executed(m, false, if Caught(d.expr(m).error) then None else Some(d.expr(m).error))
    ensures d.expr(m).Ok? ==>
              var w := WriteAttribute(m, dom, d.attr, WithCf(d.expr(m).value, certainty), true);
              && r.m == w.m
              && (r.written <==> w.escaped.None?)
              && (r.escaped.Some? <==> w.escaped.Some? && !Caught(w.escaped.value))
              && (r.escaped.Some? ==> r.escaped == w.escaped)
  {
    match d.expr(m)
    case Fail(e) => Executed(m, false, if Caught(e) then None else Some(e))
    case Ok(v) =>
      var w := WriteAttribute(m, dom, d.attr, WithCf(v, certainty), true);
      Executed(w.m, w.escaped.None?, if w.escaped.Some? && Caught(w.escaped.value) then None else w.escaped)
  }

  /** Everything of a memory but its entries is left alone, and no entry is
      dropped. */
  predicate Framed(m: Memory, m1: Memory) {
    m.entries.Keys <= m1.entries.Keys && m1.history == m.history && m1.snapshots == m.snapshots &&
    m1.locked == m.locked && m1.frozen == m.frozen && m1.resolver == m.resolver
  }

  /** A decision only ever writes its own attribute, which it registers if needed:
      once its expression evaluates the attribute is registered, whether or not
      the value is accepted; every other attribute reads as before, and the rest
      of the memory is untouched. Because of the autoregistration a write can only
      fail in the domain check of the value, and a refused value leaves the
      attribute reading as before. */
  lemma ExecuteWritesItsAttribute(d: Decision, dom: Domains, m: Memory, certainty: real, other: string)
    ensures var r := Execute(d, dom, m, certainty);
      && Framed(m, r.m)
      && (d.expr(m).Ok? ==> d.attr.name in r.m.entries)
      && (other != d.attr.name ==> GetValue(r.m, other) == GetValue(m, other))
    ensures var r := Execute(d, dom, m, certainty);
      d.expr(m).Ok? && !r.written ==>
        var a := Register(m, d.attr).entries[d.attr.name].attr;
        && Coerce(dom, a, WithCf(d.expr(m).value, certainty)).Fail?
        && r.m == Register(m, d.attr)
        && GetValue(r.m, d.attr.name) == GetValue(m, d.attr.name)
        && (r.escaped.Some? ==> r.escaped == Some(Coerce(dom, a, WithCf(d.expr(m).value, certainty)).error))
  {
    if d.expr(m).Ok? {
      var v := WithCf(d.expr(m).value, certainty);
      var m0 := Register(m, d.attr);
      if Write(m0, dom, d.attr.name, v).Ok? && other != d.attr.name {
        WriteIsLocal(m0, dom, d.attr.name, v, other);
      }
    }
  }

  /** The written value carries the certainty of the firing rule. While time is
      unlocked and nothing is pending, the attribute reads back as the expression's
      value with that certainty, when the domain keeps it as it is; while locked, it
      joins the pending candidates. */
  lemma ExecuteSetsCertainty(d: Decision, dom: Domains, m: Memory, certainty: real)
    requires Execute(d, dom, m, certainty).written
    ensures var m1, e := Execute(d, dom, m, certainty).m, Register(m, d.attr).entries[d.attr.name];
      var w := Coerce(dom, e.attr, WithCf(d.expr(m).value, certainty));
      && d.expr(m).Ok?
      && w.Ok?
      && (!m.locked && |e.cands| == 0 ==> GetValue(m1, d.attr.name) == w.value)
      && (!m.locked && |e.cands| == 0 && !IsNull(w.value) && !Converts(e.attr, d.expr(m).value) ==>
            GetValue(m1, d.attr.name).cf == certainty && GetValue(m1, d.attr.name).datum == d.expr(m).value.datum)
      && (m.locked && !IsNull(w.value) ==> m1.entries[d.attr.name].cands == e.cands + [w.value])
  {
    var v := WithCf(d.expr(m).value, certainty);
    var m0 := Register(m, d.attr);
    var e := m0.entries[d.attr.name];
    ReadAfterStore(m0.resolver, e, Coerce(dom, e.attr, v).value, m0.locked);
  }

  /** The decisions of a firing rule, executed in order with the rule's certainty;
      a failure that escapes a decision ends the execution, keeping what the
      decisions before it wrote and what the failing one registered. Rule.execute
      is not part of this model: this is its evident reading. */
  function ExecuteDecisions(ds: seq<Decision>, dom: Domains, m: Memory, certainty: real): (r: Run)
    ensures |ds| == 0 ==> r == Run(m, None)
    ensures r.escaped.Some? ==> !Caught(r.escaped.value)
    ensures |ds| > 0 && Execute(ds[0], dom, m, certainty).escaped.Some? ==>
              r == Run(Execute(ds[0], dom, m, certainty).m, Execute(ds[0], dom, m, certainty).escaped)
    decreases |ds|
  {
    if |ds| == 0 then Run(m, None)
    else
      var x := Execute(ds[0], dom, m, certainty);
      if x.escaped.Some? then Run(x.m, x.escaped) else ExecuteDecisions(ds[1..], dom, x.m, certainty)
  }

  /** Executing decisions keeps the frame of the memory: only entries change, and
      none is dropped; the first decision's attribute is registered as soon as its
      expression evaluates, even when its value is refused. */
  lemma {:induction false} ExecuteDecisionsFramed(ds: seq<Decision>, dom: Domains, m: Memory, certainty: real)
    ensures Framed(m, ExecuteDecisions(ds, dom, m, certainty).m)
    ensures |ds| > 0 && ds[0].expr(m).Ok? ==> ds[0].attr.name in ExecuteDecisions(ds, dom, m, certainty).m.entries
    decreases |ds|
  {
    if |ds| > 0 {
      var x := Execute(ds[0], dom, m, certainty);
      ExecuteWritesItsAttribute(ds[0], dom, m, certainty, "");
      if x.escaped.None? {
        ExecuteDecisionsFramed(ds[1..], dom, x.m, certainty);
      }
    }
  }

  /** Decision.Builder: the attribute name and the incomplete expression. */
  datatype DecisionBuilder<E> = DecisionBuilder(attName: Option<string>, incDec: Option<E>)

  /** Decision.Builder.build: a missing part, or an attribute name the model does
      not define, is a builder error; otherwise the decision writes the named
      attribute with the built expression. Building an expression is the business
      of the expression builders, which are not part of this model. */
  function BuildDecision<E>(b: DecisionBuilder<E>, attrs: map<string, Attribute>,
                            buildExpr: (E, map<string, Attribute>) -> Result<Memory -> Result<Value>>): (r: Result<Decision>)
    ensures b.attName.None? || b.incDec.None? ==> r == Fail(ModelBuilding)
    ensures b.attName.Some? && b.attName.value !in attrs ==> r == Fail(ModelBuilding)
    ensures r.Ok? <==> b.attName.Some? && b.incDec.Some? && b.attName.value in attrs && buildExpr(b.incDec.value, attrs).Ok?
    ensures r.Ok? ==> r.value.attr == attrs[b.attName.value]
  {
    if b.incDec.None? || b.attName.None? then Fail(ModelBuilding)
    else if b.attName.value !in attrs then Fail(ModelBuilding)
    else
      var expr :- buildExpr(b.incDec.value, attrs);
      Ok(Decision(attrs[b.attName.value], expr))
  }
}
