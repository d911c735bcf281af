/** The inference cycle of heart/inference/InferenceAlgorithm.java: time is locked,
    the initial state is written, the tables on the stack are fired one by one,
    and afterwards the ambiguous values are resolved, time is unlocked and the
    state is logged. */
module Inference {
  import opened Errors
  import opened Values
  import opened CfAlgebra
  import opened Conflicts
  import opened Ambiguity
  import opened Disjunctive
  import opened Memory
  import opened Evaluators
  import opened TimeRanges
  import opened Rules

  /** The configuration of an inference: the evaluator, the conflict-set policy,
      what a write needs, the initial state, and the evaluation of a rule's
      conditions (Rule.evaluate, which is not part of this model) under the
      evaluator. */
  datatype Config = Config(
    ev: Evaluator,
    policy: Policy,
    dom: Domains,
    initial: State,
    condition: (Rule, Memory) -> Result<real>)

  /** getAmbiguityResolver of the two evaluators. */
  function ResolverOf(ev: Evaluator): (res: Resolver)
    ensures ev.Crisp01? <==> res.DefaultResolver?
  {
    match ev
    case Crisp01 => DefaultResolver
    case CertaintyFactors => CfResolver
  }

  /** onPreExecute: time is locked at the wall clock. */
  function PreExecute(m: Memory, wall: int): (r: Memory)
    ensures r.locked && CurrentTimestamp(r, wall + 1) == wall
    ensures r.entries == m.entries && r.history == m.history
  {
    LockTime(m, wall)
  }

  /** onPostExecute: ambiguous values are resolved, then time is unlocked, then the
      state is logged, stamped with the wall clock since time is unlocked by then. */
  function PostExecute(m: Memory, wall: int): (r: Memory)
    ensures !r.locked
    ensures r.entries.Keys == m.entries.Keys && forall n :: n in r.entries ==> r.entries[n].cands == []
    ensures r.history == Append(m.history, CurrentState(ResolveAll(m), wall))
  {
    var u := UnlockTime(ResolveAll(m));
    RecordLog(u, CurrentTimestamp(u, wall))
  }

  /** The order matters: the log records the resolved values, every attribute
      reads after the cycle as it read before it, and the logged state carries the
      wall clock, not the time frozen during the cycle. */
  lemma PostExecuteLogsResolvedValues(m: Memory, wall: int, name: string)
    requires m.locked
    ensures GetValue(PostExecute(m, wall), name) == GetValue(m, name)
    ensures var last := PostExecute(m, wall).history[|PostExecute(m, wall).history| - 1];
      last.ts == wall && last.elems.Keys == m.entries.Keys &&
      (name in m.entries ==> last.elems[name] == GetValue(m, name))
  {
    ResolveAllKeepsReads(m, name);
  }

  /** A conflict-set entry is admitted when the rule's conditions evaluate, and
      their certainty times the rule's certainty factor is above the threshold. */
  predicate Admitted(cfg: Config, rules: seq<Rule>, m: Memory, f: Fired) {
    f.rule < |rules| && cfg.condition(rules[f.rule], m).Ok? &&
    f.cf == cfg.condition(rules[f.rule], m).value * rules[f.rule].cf && f.cf > Threshold
  }

  /** A rule passes when its conditions evaluate and, weighted by its certainty
      factor, exceed the threshold. */
  predicate Passes(cfg: Config, rules: seq<Rule>, m: Memory, k: nat) {
    k < |rules| && cfg.condition(rules[k], m).Ok? && cfg.condition(rules[k], m).value * rules[k].cf > Threshold
  }

  /** The conflict-set entry of a passing rule. */
  function Weighted(cfg: Config, rules: seq<Rule>, m: Memory, k: nat): (f: Fired)
    requires Passes(cfg, rules, m, k)
    ensures Admitted(cfg, rules, m, f) && f.rule == k
  {
    Fired(k, cfg.condition(rules[k], m).value * rules[k].cf)
  }

  /** Entries in rule order, each rule at most once. */
  predicate Increasing(cs: seq<Fired>) {
    forall i, j :: 0 <= i < j < |cs| ==> cs[i].rule < cs[j].rule
  }

  /** The first loop of runRules over the rules from `i` on: a rule whose
      evaluation meets an unknown value is skipped; any other failure ends the
      loop. */
  function ConflictSet(cfg: Config, rules: seq<Rule>, m: Memory, i: nat): (r: Result<seq<Fired>>)
    requires i <= |rules|
    ensures r.Fail? ==> r.error != UnknownValue &&
                        exists k :: i <= k < |rules| && cfg.condition(rules[k], m) == Fail(r.error)
    ensures r.Ok? ==> Increasing(r.value)
    ensures r.Ok? ==> forall f :: f in r.value ==> i <= f.rule && Admitted(cfg, rules, m, f)
    ensures r.Ok? ==> forall k :: i <= k < |rules| && Passes(cfg, rules, m, k) ==> Weighted(cfg, rules, m, k) in r.value
    decreases |rules| - i
  {
    if i == |rules| then Ok([])
    else
      match cfg.condition(rules[i], m)
      case Fail(e) => if e == UnknownValue then ConflictSet(cfg, rules, m, i + 1) else Fail(e)
      case Ok(c) =>
        var rest :- ConflictSet(cfg, rules, m, i + 1);
        var cf := c * rules[i].cf;
        assert Passes(cfg, rules, m, i) ==> Weighted(cfg, rules, m, i) == Fired(i, cf);
        Ok(if cf > Threshold then [Fired(i, cf)] + rest else rest)
  }

  /** The outcome of a rule's decisions, the key the certainty-factor resolver
      groups by: the values of their expressions, in order, without certainty
      factors and timestamps. */
  function Outcome(ds: seq<Decision>, m: Memory): (r: Result<seq<Datum>>)
    ensures r.Ok? ==> |r.value| == |ds| && forall i :: 0 <= i < |ds| ==> ds[i].expr(m).Ok? && r.value[i] == Strip(ds[i].expr(m).value)
    ensures r.Fail? ==> exists i :: 0 <= i < |ds| && ds[i].expr(m) == Fail(r.error)
    decreases |ds|
  {
    if |ds| == 0 then Ok([])
    else
      var v :- ds[0].expr(m);
      var rest :- Outcome(ds[1..], m);
      assert forall i :: 1 <= i < |ds| ==> ds[i] == ds[1..][i - 1];
      Ok([Strip(v)] + rest)
  }

  /** The conflict set with each entry's outcome. */
  function WithOutcomes(rules: seq<Rule>, cs: seq<Fired>, m: Memory): (r: Result<seq<Keyed<seq<Datum>>>>)
    requires forall f :: f in cs ==> f.rule < |rules|
    ensures r.Ok? ==> |r.value| == |cs| &&
                      forall i :: 0 <= i < |cs| ==> r.value[i].entry == cs[i] && Outcome(rules[cs[i].rule].decisions, m) == Ok(r.value[i].key)
    decreases |cs|
  {
    if |cs| == 0 then Ok([])
    else
      var key :- Outcome(rules[cs[0].rule].decisions, m);
      var rest :- WithOutcomes(rules, cs[1..], m);
      assert forall i :: 1 <= i < |cs| ==> cs[i] == cs[1..][i - 1];
      Ok([Keyed(cs[0], key)] + rest)
  }

  /** The rules to execute: the evaluator's resolver applied to the conflict set.
      Only the certainty-factor resolver evaluates the decisions. */
  function Select(cfg: Config, rules: seq<Rule>, cs: seq<Fired>, m: Memory): (r: Result<seq<Fired>>)
    requires forall f :: f in cs ==> f.rule < |rules|
    ensures |cs| > 0 && r.Ok? ==> |r.value| > 0 || cfg.ev.CertaintyFactors?
    ensures r.Ok? ==> forall f :: f in r.value ==> f in cs
    ensures cfg.ev.Crisp01? ==> r == Resolve(cfg.policy, cs)
    ensures cfg.ev.CertaintyFactors? && WithOutcomes(rules, cs, m).Fail? ==> r == Fail(WithOutcomes(rules, cs, m).error)
    ensures cfg.ev.CertaintyFactors? && WithOutcomes(rules, cs, m).Ok? ==>
      r == ResolveDisjunctive(CfResolver, cfg.policy, WithOutcomes(rules, cs, m).value)
  {
    match ResolverOf(cfg.ev)
    case DefaultResolver =>
      if |cs| == 0 then Resolve(cfg.policy, cs)
      else
        ResolveSelects(cfg.policy, cs);
        Resolve(cfg.policy, cs)
    case CfResolver =>
      var entries :- WithOutcomes(rules, cs, m);
      CfSelectionFromConflictSet(cfg.policy, cs, entries);
      ResolveDisjunctive(CfResolver, cfg.policy, entries)
  }

  /** The certainty-factor resolution of a conflict set keyed by outcomes succeeds
      and selects only entries of that conflict set. */
  lemma CfSelectionFromConflictSet<K>(p: Policy, cs: seq<Fired>, entries: seq<Keyed<K>>)
    requires |entries| == |cs| && forall i :: 0 <= i < |cs| ==> entries[i].entry == cs[i]
    ensures ResolveDisjunctive(CfResolver, p, entries).Ok?
    ensures forall f :: f in ResolveDisjunctive(CfResolver, p, entries).value ==> f in cs
  {
    CfDisjunctiveSelectsMostCertain(p, entries);
    var sel := ResolveDisjunctive(CfResolver, p, entries);
    forall f | f in sel.value ensures f in cs {
      var i :| 0 <= i < |entries| && entries[i].entry == f && f.cf == TopCf(entries, entries[i].key).value;
      assert cs[i] == f;
    }
  }

  /** The second loop of runRules: the selected rules execute in order, each with
      its certainty; whether an execution wrote anything is only logged. */
  function Fire(cfg: Config, rules: seq<Rule>, sel: seq<Fired>, m: Memory): (r: Run)
    requires forall f :: f in sel ==> f.rule < |rules|
    decreases |sel|
  {
    if |sel| == 0 then Run(m, None)
    else
      var run := ExecuteDecisions(rules[sel[0].rule].decisions, cfg.dom, m, sel[0].cf);
      if run.escaped.Some? then run else Fire(cfg, rules, sel[1..], run.m)
  }

  /** runRules: the conflict set of the table's rules, resolved and fired. An
      unsupported operation escapes; a value outside its domain ends the table
      quietly, keeping what was written before it. */
  function RunRules(cfg: Config, t: Table, m: Memory): (r: Run)
    ensures r.escaped != Some(NotInTheDomain)
    ensures ConflictSet(cfg, t.rules, m, 0) == Fail(NotInTheDomain) ==> r == Run(m, None)
    ensures ConflictSet(cfg, t.rules, m, 0).Fail? && ConflictSet(cfg, t.rules, m, 0).error != NotInTheDomain ==>
              r == Run(m, Some(ConflictSet(cfg, t.rules, m, 0).error))
    ensures ConflictSet(cfg, t.rules, m, 0).Ok? && |ConflictSet(cfg, t.rules, m, 0).value| > 0 &&
            Select(cfg, t.rules, ConflictSet(cfg, t.rules, m, 0).value, m).Ok? ==>
              var fired := Fire(cfg, t.rules, Select(cfg, t.rules, ConflictSet(cfg, t.rules, m, 0).value, m).value, m);
              r.m == fired.m && (r.escaped.Some? <==> fired.escaped.Some? && fired.escaped != Some(NotInTheDomain))
  {
    var run :=
      match ConflictSet(cfg, t.rules, m, 0)
      case Fail(e) => Run(m, Some(e))
      case Ok(cs) =>
        if |cs| == 0 then Run(m, None)
        else
          match Select(cfg, t.rules, cs, m)
          case Fail(e) => Run(m, Some(e))
          case Ok(sel) => Fire(cfg, t.rules, sel, m);
    if run.escaped == Some(NotInTheDomain) then Run(run.m, None) else run
  }

  /** Firing keeps the frame of the memory. */
  lemma {:induction false} FireFramed(cfg: Config, rules: seq<Rule>, sel: seq<Fired>, m: Memory)
    requires forall f :: f in sel ==> f.rule < |rules|
    ensures Framed(m, Fire(cfg, rules, sel, m).m)
    decreases |sel|
  {
    if |sel| > 0 {
      var run := ExecuteDecisions(rules[sel[0].rule].decisions, cfg.dom, m, sel[0].cf);
      ExecuteDecisionsFramed(rules[sel[0].rule].decisions, cfg.dom, m, sel[0].cf);
      if run.escaped.None? {
        FireFramed(cfg, rules, sel[1..], run.m);
      }
    }
  }

  /** Firing a table changes only entries, never drops one, and never touches the
      time lock, the log, the snapshots or the resolver; when no rule is admitted
      nothing changes at all. */
  lemma RunRulesFramed(cfg: Config, t: Table, m: Memory)
    ensures Framed(m, RunRules(cfg, t, m).m)
    ensures ConflictSet(cfg, t.rules, m, 0) == Ok([]) ==> RunRules(cfg, t, m) == Run(m, None)
  {
    match ConflictSet(cfg, t.rules, m, 0)
    case Fail(_) =>
    case Ok(cs) =>
      if |cs| > 0 {
        match Select(cfg, t.rules, cs, m)
        case Fail(_) =>
        case Ok(sel) => FireFramed(cfg, t.rules, sel, m);
      }
  }

  /** A rule whose conditions do not hold above the threshold, after weighting by
      its certainty factor, is never executed; under the crisp evaluator with
      FireAll every admitted rule is executed, in table order. */
  lemma OnlyAdmittedRulesFire(cfg: Config, t: Table, m: Memory)
    ensures ConflictSet(cfg, t.rules, m, 0).Ok? && Select(cfg, t.rules, ConflictSet(cfg, t.rules, m, 0).value, m).Ok? ==>
              forall f :: f in Select(cfg, t.rules, ConflictSet(cfg, t.rules, m, 0).value, m).value ==>
                Admitted(cfg, t.rules, m, f)
    ensures ConflictSet(cfg, t.rules, m, 0).Ok? && cfg.ev.Crisp01? && cfg.policy.FireAll? ==>
              Select(cfg, t.rules, ConflictSet(cfg, t.rules, m, 0).value, m) == Ok(ConflictSet(cfg, t.rules, m, 0).value)
  {
  }

  /** The while loop of start, the stack's top being its last element: tables are
      popped and fired until the stack is empty or a failure escapes. */
  function Loop(cfg: Config, tables: seq<Table>, stack: seq<nat>, m: Memory): (r: Run)
    requires forall i :: 0 <= i < |stack| ==> stack[i] < |tables|
    ensures r.escaped != Some(NotInTheDomain)
    decreases |stack|
  {
    if |stack| == 0 then Run(m, None)
    else
      var run := RunRules(cfg, tables[stack[|stack| - 1]], m);
      if run.escaped.Some? then run else Loop(cfg, tables, stack[..|stack| - 1], run.m)
  }

  /** One turn of the loop: the top table fires, and unless a failure escapes the
      rest of the stack is popped from the memory it left. */
  lemma LoopPops(cfg: Config, tables: seq<Table>, stack: seq<nat>, m: Memory)
    requires |stack| > 0 && forall i :: 0 <= i < |stack| ==> stack[i] < |tables|
    ensures var run := RunRules(cfg, tables[stack[|stack| - 1]], m);
      Loop(cfg, tables, stack, m) == if run.escaped.Some? then run else Loop(cfg, tables, stack[..|stack| - 1], run.m)
  {
  }

  /** Popping a stack `below + above` fires all of `above` before anything of
      `below`. */
  lemma {:induction false} LoopSplits(cfg: Config, tables: seq<Table>, below: seq<nat>, above: seq<nat>, m: Memory)
    requires forall i :: 0 <= i < |below| ==> below[i] < |tables|
    requires forall i :: 0 <= i < |above| ==> above[i] < |tables|
    ensures forall i :: 0 <= i < |below + above| ==> (below + above)[i] < |tables|
    ensures var r := Loop(cfg, tables, above, m);
      Loop(cfg, tables, below + above, m) == if r.escaped.Some? then r else Loop(cfg, tables, below, r.m)
    decreases |above|
  {
    var s := below + above;
    assert forall i :: 0 <= i < |s| ==> s[i] < |tables| by {
      forall i | 0 <= i < |s| ensures s[i] < |tables| {
        if i >= |below| {
          assert s[i] == above[i - |below|];
        }
      }
    }
    if |above| > 0 {
      var top, rest := above[|above| - 1], above[..|above| - 1];
      assert s[|s| - 1] == top && s[..|s| - 1] == below + rest;
      LoopPops(cfg, tables, above, m);
      LoopPops(cfg, tables, s, m);
      var run := RunRules(cfg, tables[top], m);
      if run.escaped.None? {
        LoopSplits(cfg, tables, below, rest, run.m);
      }
    } else {
      assert s == below;
    }
  }

  /** The loop keeps the frame of the memory: in particular time stays locked
      throughout, so every write of the cycle is a candidate. */
  lemma {:induction false} LoopFramed(cfg: Config, tables: seq<Table>, stack: seq<nat>, m: Memory)
    requires forall i :: 0 <= i < |stack| ==> stack[i] < |tables|
    ensures Framed(m, Loop(cfg, tables, stack, m).m)
    decreases |stack|
  {
    if |stack| > 0 {
      var run := RunRules(cfg, tables[stack[|stack| - 1]], m);
      RunRulesFramed(cfg, tables[stack[|stack| - 1]], m);
      if run.escaped.None? {
        LoopFramed(cfg, tables, stack[..|stack| - 1], run.m);
      }
    }
  }

  /** The failures start catches: both end the whole inference quietly. */
  predicate Interrupts(e: Error) {
    e == NotInTheDomain || e == AttributeNotRegistered
  }

  /** start: `stack` is what initStackFor… built, or its failure; `attrs` are the
      model's attributes, `wall` and `wallAfter` the wall clock at the beginning
      and at the end. The initial stack is built before the `try`, so its failure
      escapes without onPostExecute, leaving time locked. Inside the `try`, a
      failure of the initial state skips the loop, and the `finally` post-executes
      whatever the initial state had reached. */
  function Start(cfg: Config, tables: seq<Table>, attrs: seq<Attribute>, stack: Result<seq<nat>>,
                 m: Memory, wall: int, wallAfter: int): (r: Run)
    requires stack.Ok? ==> forall i :: 0 <= i < |stack.value| ==> stack.value[i] < |tables|
    ensures stack.Fail? ==> r == Run(PreExecute(m, wall), Some(stack.error))
    ensures stack.Ok? ==> r.escaped.None? || !Interrupts(r.escaped.value)
    ensures stack.Ok? ==>
              var init := SetCurrentState(SetResolver(PreExecute(m, wall), ResolverOf(cfg.ev)), cfg.dom, cfg.initial, attrs, true);
              init.escaped.Some? ==>
                r == Run(PostExecute(init.m, wallAfter), if Interrupts(init.escaped.value) then None else init.escaped)
  {
    var m0 := PreExecute(m, wall);
    match stack
    case Fail(e) => Run(m0, Some(e))
    case Ok(s) =>
      var m1 := SetResolver(m0, ResolverOf(cfg.ev));
      var init := SetCurrentState(m1, cfg.dom, cfg.initial, attrs, true);
      var body := if init.escaped.Some? then init else Loop(cfg, tables, s, ResolveAll(init.m));
      var escaped := if body.escaped.Some? && Interrupts(body.escaped.value) then None else body.escaped;
      Run(PostExecute(body.m, wallAfter), escaped)
  }

  /** Once the stack is built the cycle ends unlocked with no candidate pending,
      the evaluator's resolver installed and one more state logged, whatever
      happens. With autoregistration every attribute the initial state reached is
      registered: when its first `k` attributes are written, attributes 0 to `k`
      are registered (the one that failed included), and all of them when the
      initial state is written in full. When the stack cannot be built, time stays
      locked. */
  lemma StartEndsUnlocked(cfg: Config, tables: seq<Table>, attrs: seq<Attribute>, stack: Result<seq<nat>>,
                          m: Memory, wall: int, wallAfter: int)
    requires stack.Ok? ==> forall i :: 0 <= i < |stack.value| ==> stack.value[i] < |tables|
    ensures var r := Start(cfg, tables, attrs, stack, m, wall, wallAfter);
      var m1 := SetResolver(PreExecute(m, wall), ResolverOf(cfg.ev));
      && (stack.Fail? ==> r.m.locked && r.m.frozen == wall && r.m.history == m.history)
      && (stack.Ok? ==> !r.m.locked && r.m.resolver == ResolverOf(cfg.ev))
      && (stack.Ok? ==> forall n :: n in r.m.entries ==> r.m.entries[n].cands == [])
      && (stack.Ok? ==> m.entries.Keys <= r.m.entries.Keys)
      && (stack.Ok? ==> forall k :: 0 <= k < |attrs| && SetCurrentState(m1, cfg.dom, cfg.initial, attrs[..k], true).escaped.None? ==>
            forall i :: 0 <= i <= k ==> attrs[i].name in r.m.entries)
      && (stack.Ok? && SetCurrentState(m1, cfg.dom, cfg.initial, attrs, true).escaped.None? ==>
            forall i :: 0 <= i < |attrs| ==> attrs[i].name in r.m.entries)
      && (stack.Ok? ==> |r.m.history| == if |m.history| < MaxHistorySize then |m.history| + 1 else |m.history|)
  {
    if stack.Ok? {
      var r := Start(cfg, tables, attrs, stack, m, wall, wallAfter);
      var m1 := SetResolver(PreExecute(m, wall), ResolverOf(cfg.ev));
      var init := SetCurrentState(m1, cfg.dom, cfg.initial, attrs, true);
      if init.escaped.None? {
        LoopFramed(cfg, tables, stack.value, ResolveAll(init.m));
      }
      assert init.m.entries.Keys <= r.m.entries.Keys;
      forall k | 0 <= k < |attrs| && SetCurrentState(m1, cfg.dom, cfg.initial, attrs[..k], true).escaped.None?
        ensures forall i :: 0 <= i <= k ==> attrs[i].name in r.m.entries
      {
        SetCurrentStateStops(m1, cfg.dom, cfg.initial, attrs, true, k);
      }
    }
  }

  /** A value of the initial state that its domain refuses interrupts the
      inference after the attributes before it are written: with two fresh
      attributes whose first value is accepted and whose second is refused as
      outside its domain, the inference ends quietly, both attributes are
      registered, and the logged state holds the first value and Null for the
      second. */
  lemma RefusedInitialValueIsLogged(cfg: Config, tables: seq<Table>, a: Attribute, b: Attribute, stack: seq<nat>,
                                    m: Memory, wall: int, wallAfter: int)
    requires forall i :: 0 <= i < |stack| ==> stack[i] < |tables|
    requires cfg.ev.Crisp01? && a.name != b.name && a.name !in m.entries && b.name !in m.entries
    requires Coerce(cfg.dom, a, StateValue(cfg.initial, a.name)).Ok?
    requires Coerce(cfg.dom, b, StateValue(cfg.initial, b.name)) == Fail(NotInTheDomain)
    ensures var r := Start(cfg, tables, [a, b], Ok(stack), m, wall, wallAfter);
      var last := r.m.history[|r.m.history| - 1];
      && r.escaped.None?
      && a.name in r.m.entries && b.name in r.m.entries
      && last.ts == wallAfter
      && last.elems[a.name] == Coerce(cfg.dom, a, StateValue(cfg.initial, a.name)).value
      && IsNull(last.elems[b.name])
  {
    var m1 := SetResolver(PreExecute(m, wall), ResolverOf(cfg.ev));
    var w := Coerce(cfg.dom, a, StateValue(cfg.initial, a.name)).value;
    RefusedSecondValue(m1, cfg.dom, cfg.initial, a, b);
    var init := SetCurrentState(m1, cfg.dom, cfg.initial, [a, b], true);
    assert Start(cfg, tables, [a, b], Ok(stack), m, wall, wallAfter) == Run(PostExecute(init.m, wallAfter), None);
    ReadAfterStore(m1.resolver, Entry(a, NullValue, []), w, true);
    assert GetValue(init.m, a.name) == w;
    PostExecuteLogsResolvedValues(init.m, wallAfter, a.name);
    PostExecuteLogsResolvedValues(init.m, wallAfter, b.name);
  }
}
