/** Disjunctive resolution of a conflict set
    (resolveDisjunctiveConclusions of heart/uncertainty/DefaultAmbiguityResolver.java
    and CertaintyFactorsAmbiguityResolver.java): which of the rules whose conditions
    hold actually fire. */
module Disjunctive {
  import opened Errors
  import opened Conflicts
  import opened Ambiguity

  /** A conflict-set entry together with the outcome of its decisions, the key the
      certainty-factor resolver groups by (the decisions are evaluated by the
      caller; two rules producing equal values share a key). */
  datatype Keyed<K> = Keyed(entry: Fired, key: K)

  /** The rules currently kept for one decision outcome. */
  datatype Group<K> = Group(key: K, rules: seq<Fired>)

  /** The group update of resolveDisjunctiveConclusions as written: the loop runs over the group's
      entries, and every entry less certain than the new rule resets the group to
      the new rule alone, while every entry exactly as certain appends it once
      more. */
  function AdmitAsWritten(rules: seq<Fired>, r: Fired): seq<Fired> {
    AdmitEach(rules, rules, r)
  }

  function AdmitEach(acc: seq<Fired>, rest: seq<Fired>, r: Fired): seq<Fired>
    decreases |rest|
  {
    if |rest| == 0 then acc
    else
      var next := if rest[0].cf < r.cf then [r] else if rest[0].cf == r.cf then acc + [r] else acc;
      AdmitEach(next, rest[1..], r)
  }

  /** The evident intent: a more certain rule replaces the group, an equally
      certain one joins it once, a less certain one is dropped. */
  function Admit(rules: seq<Fired>, r: Fired): (result: seq<Fired>)
    requires Uniform(rules)
    ensures Uniform(result) && |result| > 0
    ensures |rules| > 0 && r.cf == rules[0].cf ==> result == rules + [r]
    ensures |rules| > 0 && r.cf < rules[0].cf ==> result == rules
    ensures (|rules| == 0 || rules[0].cf < r.cf) ==> result == [r]
  {
    if |rules| == 0 || rules[0].cf < r.cf then [r]
    else if rules[0].cf == r.cf then rules + [r]
    else rules
  }

  /** Every rule of a group has the certainty of the group's first rule. */
  predicate Uniform(rules: seq<Fired>) {
    forall i :: 0 <= i < |rules| ==> rules[i].cf == rules[0].cf
  }

  function Repeat(r: Fired, n: nat): (rs: seq<Fired>)
    ensures |rs| == n && forall i :: 0 <= i < n ==> rs[i] == r
  {
    if n == 0 then [] else Repeat(r, n - 1) + [r]
  }

  lemma {:induction false} AdmitEachUniform(acc: seq<Fired>, rest: seq<Fired>, r: Fired, c: real)
    requires forall i :: 0 <= i < |rest| ==> rest[i].cf == c
    ensures c < r.cf && |rest| > 0 ==> AdmitEach(acc, rest, r) == [r]
    ensures c > r.cf ==> AdmitEach(acc, rest, r) == acc
    ensures c == r.cf ==> AdmitEach(acc, rest, r) == acc + Repeat(r, |rest|)
    decreases |rest|
  {
    if |rest| > 0 {
      var next := if rest[0].cf < r.cf then [r] else if rest[0].cf == r.cf then acc + [r] else acc;
      AdmitEachUniform(next, rest[1..], r, c);
      if c == r.cf {
        assert acc + [r] + Repeat(r, |rest| - 1) == acc + Repeat(r, |rest|) by {
          RepeatCons(r, |rest| - 1);
        }
      }
    }
  }

  lemma {:induction false} RepeatCons(r: Fired, n: nat)
    ensures [r] + Repeat(r, n) == Repeat(r, n + 1)
    decreases n
  {
    if n > 0 {
      RepeatCons(r, n - 1);
    }
  }

  /** On a group of equally certain rules the update as written agrees with the
      intended one except on a tie, where the new rule is appended once per rule
      already in the group instead of once. */
  lemma AdmitAsWrittenOnUniform(rules: seq<Fired>, r: Fired)
    requires |rules| > 0 && Uniform(rules)
    ensures r.cf != rules[0].cf ==> AdmitAsWritten(rules, r) == Admit(rules, r)
    ensures r.cf == rules[0].cf ==> AdmitAsWritten(rules, r) == rules + Repeat(r, |rules|)
  {
    AdmitEachUniform(rules, rules, r, rules[0].cf);
  }

  /** Three equally certain rules with one outcome: the third is kept twice, so
      FireAll fires it twice. */
  lemma TiedRulesDuplicated()
    ensures AdmitAsWritten([Fired(0, 0.5), Fired(1, 0.5)], Fired(2, 0.5))
            == [Fired(0, 0.5), Fired(1, 0.5), Fired(2, 0.5), Fired(2, 0.5)]
    ensures Admit([Fired(0, 0.5), Fired(1, 0.5)], Fired(2, 0.5))
            == [Fired(0, 0.5), Fired(1, 0.5), Fired(2, 0.5)]
  {
    AdmitAsWrittenOnUniform([Fired(0, 0.5), Fired(1, 0.5)], Fired(2, 0.5));
  }

  /** A rule whose outcome matches the only group so far joins that group. */
  lemma GroupsAsWrittenJoin<K>(prev: seq<Keyed<K>>, x: Keyed<K>, g: Group<K>)
    requires GroupsAsWritten(prev) == [g] && g.key == x.key
    ensures GroupsAsWritten(prev + [x]) == [Group(g.key, AdmitAsWritten(g.rules, x.entry))]
  {
    assert (prev + [x])[..|prev|] == prev;
    assert FindGroup([g], x.key) == Some(0);
  }

  /** Three equally certain rules concluding the same value, grouped as written
      and fired under FireAll: the third rule fires twice. */
  lemma TiedRulesFireTwice()
    ensures ResolveGroups(FireAll, GroupsAsWritten([Keyed(Fired(0, 0.5), 7), Keyed(Fired(1, 0.5), 7), Keyed(Fired(2, 0.5), 7)]))
            == Ok([Fired(0, 0.5), Fired(1, 0.5), Fired(2, 0.5), Fired(2, 0.5)])
  {
    var a, b, c := Keyed(Fired(0, 0.5), 7), Keyed(Fired(1, 0.5), 7), Keyed(Fired(2, 0.5), 7);
    assert [a][..0] == [];
    assert GroupsAsWritten([a]) == [Group(7, [a.entry])];
    GroupsAsWrittenJoin([a], b, Group(7, [a.entry]));
    AdmitAsWrittenOnUniform([a.entry], b.entry);
    assert Repeat(b.entry, 1) == [b.entry];
    assert AdmitAsWritten([a.entry], b.entry) == [a.entry, b.entry];
    assert [a] + [b] == [a, b];
    assert GroupsAsWritten([a, b]) == [Group(7, [a.entry, b.entry])];
    GroupsAsWrittenJoin([a, b], c, Group(7, [a.entry, b.entry]));
    TiedRulesDuplicated();
    var g := [Group(7, [a.entry, b.entry, c.entry, c.entry])];
    assert [a, b] + [c] == [a, b, c];
    assert GroupsAsWritten([a, b, c]) == g;
    assert g[1..] == [];
    assert ResolveGroups(FireAll, g) == Ok(g[0].rules + []);
    assert g[0].rules + [] == [a.entry, b.entry, c.entry, c.entry];
  }

  function FindGroup<K(==)>(gs: seq<Group<K>>, k: K): (r: Option<nat>)
    ensures r.Some? ==> r.value < |gs| && gs[r.value].key == k
    ensures r.None? ==> forall i :: 0 <= i < |gs| ==> gs[i].key != k
  {
    if |gs| == 0 then None
    else if gs[|gs| - 1].key == k then Some(|gs| - 1)
    else FindGroup(gs[..|gs| - 1], k)
  }

  /** The grouping loop of resolveDisjunctiveConclusions with the as-written group update; groups
      are kept in order of their first rule. */
  function GroupsAsWritten<K(==)>(entries: seq<Keyed<K>>): seq<Group<K>>
    decreases |entries|
  {
    if |entries| == 0 then []
    else
      var gs := GroupsAsWritten(entries[..|entries| - 1]);
      var x := entries[|entries| - 1];
      match FindGroup(gs, x.key)
      case Some(i) => gs[i := Group(x.key, AdmitAsWritten(gs[i].rules, x.entry))]
      case None => gs + [Group(x.key, [x.entry])]
  }

  /** The same loop with the intended group update. */
  function Groups<K(==)>(entries: seq<Keyed<K>>): (gs: seq<Group<K>>)
    ensures GroupedBy(gs, entries)
    decreases |entries|
  {
    if |entries| == 0 then []
    else
      var prev := entries[..|entries| - 1];
      var gs := Groups(prev);
      var x := entries[|entries| - 1];
      assert entries == prev + [x];
      GroupStep(gs, prev, x)
  }

  /** The certainty of the most certain rule with outcome `k`, if there is one. */
  function TopCf<K(==)>(entries: seq<Keyed<K>>, k: K): (r: Option<real>)
    ensures r.None? <==> k !in Keys(entries)
    ensures r.Some? ==> forall i :: 0 <= i < |entries| && entries[i].key == k ==> entries[i].entry.cf <= r.value
    ensures r.Some? ==> exists i :: 0 <= i < |entries| && entries[i].key == k && entries[i].entry.cf == r.value
    decreases |entries|
  {
    if |entries| == 0 then None
    else
      var prev := entries[..|entries| - 1];
      var x := entries[|entries| - 1];
      var t := TopCf(prev, k);
      KeysSnoc(prev, x);
      assert forall i :: 0 <= i < |prev| ==> entries[i] == prev[i];
      if x.key != k then
        t
      else if t.None? || t.value < x.entry.cf then
        assert entries[|entries| - 1] == x;
        Some(x.entry.cf)
      else
        t
  }

  /** The rules with outcome `k` and certainty `m`, in conflict-set order. */
  function Tops<K(==)>(entries: seq<Keyed<K>>, k: K, m: real): (rs: seq<Fired>)
    decreases |entries|
  {
    if |entries| == 0 then []
    else
      var x := entries[|entries| - 1];
      var rest := Tops(entries[..|entries| - 1], k, m);
      if x.key == k && x.entry.cf == m then rest + [x.entry] else rest
  }

  function Keys<K(==)>(entries: seq<Keyed<K>>): set<K> {
    set i | 0 <= i < |entries| :: entries[i].key
  }

  function GroupKeys<K(==)>(gs: seq<Group<K>>): set<K> {
    set i | 0 <= i < |gs| :: gs[i].key
  }

  /** The grouping invariant: one group per distinct outcome, holding exactly the
      most certain rules with that outcome, in conflict-set order. */
  predicate GroupedBy<K(==)>(gs: seq<Group<K>>, entries: seq<Keyed<K>>) {
    && (forall i, j :: 0 <= i < j < |gs| ==> gs[i].key != gs[j].key)
    && GroupKeys(gs) == Keys(entries)
    && (forall i :: 0 <= i < |gs| ==>
          TopCf(entries, gs[i].key).Some? && gs[i].rules == Tops(entries, gs[i].key, TopCf(entries, gs[i].key).value))
  }

  lemma KeysSnoc<K>(entries: seq<Keyed<K>>, x: Keyed<K>)
    ensures Keys(entries + [x]) == Keys(entries) + {x.key}
  {
    var l := entries + [x];
    forall k | k in Keys(l) ensures k in Keys(entries) + {x.key} {
      var i :| 0 <= i < |l| && l[i].key == k;
      if i < |entries| {
        assert entries[i] == l[i];
      }
    }
    forall k | k in Keys(entries) ensures k in Keys(l) {
      var i :| 0 <= i < |entries| && entries[i].key == k;
      assert l[i] == entries[i];
    }
    assert l[|entries|] == x;
  }

  lemma TopsSnoc<K>(entries: seq<Keyed<K>>, x: Keyed<K>, k: K, m: real)
    ensures Tops(entries + [x], k, m) ==
            if x.key == k && x.entry.cf == m then Tops(entries, k, m) + [x.entry] else Tops(entries, k, m)
  {
    assert (entries + [x])[..|entries|] == entries;
  }

  /** No rule with outcome `k` is more certain than the top certainty. */
  lemma {:induction false} TopsAboveTop<K>(entries: seq<Keyed<K>>, k: K, m: real)
    requires forall i :: 0 <= i < |entries| && entries[i].key == k ==> entries[i].entry.cf < m
    ensures Tops(entries, k, m) == []
    decreases |entries|
  {
    if |entries| > 0 {
      var prev := entries[..|entries| - 1];
      assert forall i :: 0 <= i < |prev| ==> prev[i] == entries[i];
      TopsAboveTop(prev, k, m);
    }
  }

  /** The rules kept for an outcome all carry the same certainty. */
  lemma {:induction false} TopsUniform<K>(entries: seq<Keyed<K>>, k: K, m: real)
    ensures forall i :: 0 <= i < |Tops(entries, k, m)| ==> Tops(entries, k, m)[i].cf == m
    decreases |entries|
  {
    if |entries| > 0 {
      TopsUniform(entries[..|entries| - 1], k, m);
    }
  }

  /** The most certain rules of an outcome that occurs are never an empty group. */
  lemma {:induction false} TopsNonEmpty<K>(entries: seq<Keyed<K>>, k: K)
    requires k in Keys(entries)
    ensures |Tops(entries, k, TopCf(entries, k).value)| > 0
    decreases |entries|
  {
    var m := TopCf(entries, k).value;
    var i :| 0 <= i < |entries| && entries[i].key == k && entries[i].entry.cf == m;
    TopsContains(entries, k, m, i);
  }

  lemma {:induction false} TopsContains<K>(entries: seq<Keyed<K>>, k: K, m: real, i: nat)
    requires i < |entries| && entries[i].key == k && entries[i].entry.cf == m
    ensures entries[i].entry in Tops(entries, k, m)
    decreases |entries|
  {
    var prev := entries[..|entries| - 1];
    if i < |prev| {
      assert prev[i] == entries[i];
      TopsContains(prev, k, m, i);
    }
  }

  /** One step of the intended grouping keeps the invariant. */
  function GroupStep<K(==)>(gs: seq<Group<K>>, prev: seq<Keyed<K>>, x: Keyed<K>): (r: seq<Group<K>>)
    requires GroupedBy(gs, prev)
    ensures GroupedBy(r, prev + [x])
  {
    KeysSnoc(prev, x);
    match FindGroup(gs, x.key)
    case Some(i) =>
      var m := TopCf(prev, x.key).value;
      TopsUniform(prev, x.key, m);
      TopsNonEmpty(prev, x.key);
      var r := gs[i := Group(x.key, Admit(gs[i].rules, x.entry))];
      GroupExisting(gs, prev, x, i);
      r
    case None =>
      GroupFresh(gs, prev, x);
      gs + [Group(x.key, [x.entry])]
  }

  lemma GroupExisting<K>(gs: seq<Group<K>>, prev: seq<Keyed<K>>, x: Keyed<K>, i: nat)
    requires GroupedBy(gs, prev)
    requires i < |gs| && gs[i].key == x.key
    requires Uniform(gs[i].rules) && |gs[i].rules| > 0
    requires gs[i].rules[0].cf == TopCf(prev, x.key).value
    ensures GroupedBy(gs[i := Group(x.key, Admit(gs[i].rules, x.entry))], prev + [x])
  {
    var entries := prev + [x];
    var r := gs[i := Group(x.key, Admit(gs[i].rules, x.entry))];
    KeysSnoc(prev, x);
    assert GroupKeys(r) == GroupKeys(gs) by {
      forall k | k in GroupKeys(r) ensures k in GroupKeys(gs) {
        var j :| 0 <= j < |r| && r[j].key == k;
        assert gs[j].key == k;
      }
      forall k | k in GroupKeys(gs) ensures k in GroupKeys(r) {
        var j :| 0 <= j < |gs| && gs[j].key == k;
        assert r[j].key == k;
      }
    }
    forall j | 0 <= j < |r|
      ensures TopCf(entries, r[j].key).Some? &&
              r[j].rules == Tops(entries, r[j].key, TopCf(entries, r[j].key).value)
    {
      var k := r[j].key;
      assert k in Keys(prev) by { assert gs[j].key == k; }
      var m := TopCf(prev, k).value;
      TopsSnoc(prev, x, k, TopCf(entries, k).value);
      if j == i {
        if m < x.entry.cf {
          TopsAboveTop(prev, k, x.entry.cf);
        }
      } else {
        assert r[j] == gs[j];
      }
    }
  }

  lemma GroupFresh<K>(gs: seq<Group<K>>, prev: seq<Keyed<K>>, x: Keyed<K>)
    requires GroupedBy(gs, prev)
    requires forall i :: 0 <= i < |gs| ==> gs[i].key != x.key
    ensures GroupedBy(gs + [Group(x.key, [x.entry])], prev + [x])
  {
    var entries := prev + [x];
    var r := gs + [Group(x.key, [x.entry])];
    KeysSnoc(prev, x);
    assert x.key !in GroupKeys(gs);
    assert GroupKeys(r) == GroupKeys(gs) + {x.key} by {
      forall k | k in GroupKeys(r) ensures k in GroupKeys(gs) + {x.key} {
        var j :| 0 <= j < |r| && r[j].key == k;
        if j < |gs| {
          assert gs[j] == r[j];
        }
      }
      forall k | k in GroupKeys(gs) ensures k in GroupKeys(r) {
        var j :| 0 <= j < |gs| && gs[j].key == k;
        assert r[j] == gs[j];
      }
      assert r[|gs|].key == x.key;
    }
    forall j | 0 <= j < |r|
      ensures TopCf(entries, r[j].key).Some? &&
              r[j].rules == Tops(entries, r[j].key, TopCf(entries, r[j].key).value)
    {
      var k := r[j].key;
      TopsSnoc(prev, x, k, TopCf(entries, k).value);
      if j == |gs| {
        TopsAboveTop(prev, k, x.entry.cf);
      } else {
        assert r[j] == gs[j];
        assert k in Keys(prev) by { assert gs[j].key == k; }
      }
    }
  }

  /** The last step of resolveDisjunctiveConclusions: the policy applied to each
      group, the results concatenated. */
  function ResolveGroups<K(==)>(p: Policy, gs: seq<Group<K>>): (r: Result<seq<Fired>>)
    decreases |gs|
  {
    if |gs| == 0 then Ok([])
    else
      match Resolve(p, gs[0].rules)
      case Fail(e) => Fail(e)
      case Ok(first) =>
        match ResolveGroups(p, gs[1..])
        case Fail(e) => Fail(e)
        case Ok(rest) => Ok(first + rest)
  }

  function Entries<K(==)>(entries: seq<Keyed<K>>): (cs: seq<Fired>)
    ensures |cs| == |entries| && forall i :: 0 <= i < |entries| ==> cs[i] == entries[i].entry
  {
    if |entries| == 0 then [] else Entries(entries[..|entries| - 1]) + [entries[|entries| - 1].entry]
  }

  /** resolveDisjunctiveConclusions of both resolvers. The default resolver
      applies the policy to the whole conflict set; the certainty-factor resolver
      to the most certain rules of each decision outcome. */
  function ResolveDisjunctive<K(==)>(res: Resolver, p: Policy, entries: seq<Keyed<K>>): (r: Result<seq<Fired>>)
    ensures res.DefaultResolver? ==> r == Resolve(p, Entries(entries))
    ensures res.CfResolver? ==> r == ResolveGroups(p, Groups(entries))
  {
    match res
    case DefaultResolver => Resolve(p, Entries(entries))
    case CfResolver => ResolveGroups(p, Groups(entries))
  }

  /** Groups of the grouping never make a policy fail, and every rule the
      certainty-factor resolver selects is one of the most certain rules of its
      outcome. LastWin keeps one rule per outcome. */
  lemma {:induction false} ResolveGroupsSelectsTops<K>(p: Policy, gs: seq<Group<K>>, entries: seq<Keyed<K>>)
    requires forall i :: 0 <= i < |gs| ==>
               gs[i].key in Keys(entries) && gs[i].rules == Tops(entries, gs[i].key, TopCf(entries, gs[i].key).value)
    ensures ResolveGroups(p, gs).Ok?
    ensures p.LastWin? ==> |ResolveGroups(p, gs).value| == |gs|
    ensures forall f :: f in ResolveGroups(p, gs).value ==>
              exists i :: 0 <= i < |entries| && entries[i].entry == f && f.cf == TopCf(entries, entries[i].key).value
    decreases |gs|
  {
    if |gs| > 0 {
      var k := gs[0].key;
      var m := TopCf(entries, k).value;
      TopsNonEmpty(entries, k);
      ResolveSelects(p, gs[0].rules);
      ResolveGroupsSelectsTops(p, gs[1..], entries);
      var first := Resolve(p, gs[0].rules).value;
      forall f | f in first
        ensures exists i :: 0 <= i < |entries| && entries[i].entry == f && f.cf == TopCf(entries, entries[i].key).value
      {
        TopsFrom(entries, k, m, f);
      }
    }
  }

  /** A rule among the most certain of an outcome comes from the conflict set with
      that outcome and that certainty. */
  lemma {:induction false} TopsFrom<K>(entries: seq<Keyed<K>>, k: K, m: real, f: Fired)
    requires f in Tops(entries, k, m)
    ensures exists i :: 0 <= i < |entries| && entries[i].entry == f && entries[i].key == k && f.cf == m
    decreases |entries|
  {
    var prev := entries[..|entries| - 1];
    var x := entries[|entries| - 1];
    if f in Tops(prev, k, m) {
      TopsFrom(prev, k, m, f);
      var i :| 0 <= i < |prev| && prev[i].entry == f && prev[i].key == k && f.cf == m;
      assert entries[i] == prev[i];
    } else {
      assert entries[|entries| - 1] == x;
    }
  }

  /** The certainty-factor resolver fires, for every distinct decision outcome, only
      rules of the highest certainty with that outcome; under LastWin exactly one
      per outcome. */
  lemma CfDisjunctiveSelectsMostCertain<K>(p: Policy, entries: seq<Keyed<K>>)
    ensures ResolveDisjunctive(CfResolver, p, entries).Ok?
    ensures p.LastWin? ==> |ResolveDisjunctive(CfResolver, p, entries).value| == |Keys(entries)|
    ensures forall f :: f in ResolveDisjunctive(CfResolver, p, entries).value ==>
              exists i :: 0 <= i < |entries| && entries[i].entry == f && f.cf == TopCf(entries, entries[i].key).value
  {
    var gs := Groups(entries);
    forall i | 0 <= i < |gs| ensures gs[i].key in Keys(entries) {
      assert gs[i].key in GroupKeys(gs);
    }
    ResolveGroupsSelectsTops(p, gs, entries);
    if p.LastWin? {
      DistinctKeysCount(gs);
    }
  }

  /** Distinct group keys number as many as the groups. */
  lemma {:induction false} DistinctKeysCount<K>(gs: seq<Group<K>>)
    requires forall i, j :: 0 <= i < j < |gs| ==> gs[i].key != gs[j].key
    ensures |GroupKeys(gs)| == |gs|
    decreases |gs|
  {
    if |gs| > 0 {
      var prev := gs[..|gs| - 1];
      var last := gs[|gs| - 1];
      DistinctKeysCount(prev);
      assert GroupKeys(gs) == GroupKeys(prev) + {last.key} by {
        forall k | k in GroupKeys(gs) ensures k in GroupKeys(prev) + {last.key} {
          var j :| 0 <= j < |gs| && gs[j].key == k;
          if j < |prev| {
            assert prev[j] == gs[j];
          }
        }
        forall k | k in GroupKeys(prev) ensures k in GroupKeys(gs) {
          var j :| 0 <= j < |prev| && prev[j].key == k;
          assert gs[j] == prev[j];
        }
      }
      assert forall j :: 0 <= j < |prev| ==> prev[j] == gs[j];
    }
  }

  /** The default resolver ignores certainties: two conflict sets listing the same
      rules resolve to the same rules, whatever the certainties. */
  lemma DefaultIgnoresCertainties<K>(p: Policy, a: seq<Keyed<K>>, b: seq<Keyed<K>>)
    requires |a| == |b| > 0
    requires forall i :: 0 <= i < |a| ==> a[i].entry.rule == b[i].entry.rule
    ensures ResolveDisjunctive(DefaultResolver, p, a).Ok? && ResolveDisjunctive(DefaultResolver, p, b).Ok?
    ensures |ResolveDisjunctive(DefaultResolver, p, a).value| == |ResolveDisjunctive(DefaultResolver, p, b).value|
    ensures forall i :: 0 <= i < |ResolveDisjunctive(DefaultResolver, p, a).value| ==>
              ResolveDisjunctive(DefaultResolver, p, a).value[i].rule == ResolveDisjunctive(DefaultResolver, p, b).value[i].rule
  {
  }
}
