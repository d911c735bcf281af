/** Ambiguity resolution (heart/uncertainty/DefaultAmbiguityResolver.java and
    CertaintyFactorsAmbiguityResolver.java): how the candidate values an attribute
    collected during one inference cycle become one value, and which of the rules
    of a conflict set fire. */
module Ambiguity {
  import opened Errors
  import opened Values
  import opened CfAlgebra
  import opened Conflicts

  /** The resolver an evaluator installs: the crisp evaluator uses the default
      one, the certainty-factor evaluator the certainty-factor one. */
  datatype Resolver = DefaultResolver | CfResolver

  /** DefaultAmbiguityResolver.resolveCumulativeConclusions: the most recent
      candidate wins; no candidate means Null. */
  function LastCandidate(cands: seq<Value>): (r: Value)
    ensures |cands| == 0 ==> r == NullValue
    ensures |cands| > 0 ==> r == cands[|cands| - 1]
  {
    if |cands| == 0 then NullValue else cands[|cands| - 1]
  }

  /** The result of the default resolver is always one of the candidates, never a
      merged value, unless there is none. */
  lemma LastCandidateIsCandidate(cands: seq<Value>)
    ensures |cands| > 0 ==> LastCandidate(cands) in cands
    ensures |cands| == 0 ==> IsNull(LastCandidate(cands))
  {
  }

  /** The index of the register entry for a payload, if there is one. */
  function FindKey(reg: seq<Value>, d: Datum): (r: Option<nat>)
    ensures r.Some? ==> r.value < |reg| && reg[r.value].datum == d
    ensures r.None? ==> forall i :: 0 <= i < |reg| ==> reg[i].datum != d
  {
    if |reg| == 0 then None
    else if reg[|reg| - 1].datum == d then Some(|reg| - 1)
    else FindKey(reg[..|reg| - 1], d)
  }

  /** One step of the register walk: a payload seen before has its certainty
      combined with the new one and takes the smallest timestamp seen so far; a new
      payload is registered as it is. */
  function Enter(reg: seq<Value>, v: Value, minTs: int): seq<Value> {
    match FindKey(reg, v.datum)
    case Some(i) => reg[i := Value(v.datum, Cumulative(reg[i].cf, v.cf), minTs)]
    case None => reg + [v]
  }

  function MinInt(a: int, b: int): int {
    if a < b then a else b
  }

  /** The register after walking `cands`, together with
      the running minimum timestamp, which starts at the first candidate's. */
  function Register(cands: seq<Value>, firstTs: int): (reg: seq<Value>)
    decreases |cands|
  {
    if |cands| == 0 then []
    else
      var prev := cands[..|cands| - 1];
      var v := cands[|cands| - 1];
      Enter(Register(prev, firstTs), v, MinInt(MinTs(prev, firstTs), v.ts))
  }

  function MinTs(cands: seq<Value>, firstTs: int): int
    decreases |cands|
  {
    if |cands| == 0 then firstTs
    else MinInt(MinTs(cands[..|cands| - 1], firstTs), cands[|cands| - 1].ts)
  }

  /** The certainties of the candidates carrying payload `d`, in order. */
  function CfsOf(cands: seq<Value>, d: Datum): seq<real>
    decreases |cands|
  {
    if |cands| == 0 then []
    else
      var rest := CfsOf(cands[..|cands| - 1], d);
      if cands[|cands| - 1].datum == d then rest + [cands[|cands| - 1].cf] else rest
  }

  /** The payloads a list of values carries. */
  function Payloads(vs: seq<Value>): set<Datum> {
    set i | 0 <= i < |vs| :: vs[i].datum
  }

  lemma PayloadsSnoc(vs: seq<Value>, v: Value)
    ensures Payloads(vs + [v]) == Payloads(vs) + {v.datum}
  {
    var l := vs + [v];
    forall d | d in Payloads(l) ensures d in Payloads(vs) + {v.datum} {
      var i :| 0 <= i < |l| && l[i].datum == d;
      if i < |vs| {
        assert vs[i] == l[i];
      }
    }
    forall d | d in Payloads(vs) ensures d in Payloads(l) {
      var i :| 0 <= i < |vs| && vs[i].datum == d;
      assert l[i] == vs[i];
    }
    assert l[|vs|] == v;
  }

  lemma PayloadsUpdate(vs: seq<Value>, j: nat, w: Value)
    requires j < |vs| && w.datum == vs[j].datum
    ensures Payloads(vs[j := w]) == Payloads(vs)
  {
    var l := vs[j := w];
    forall d | d in Payloads(l) ensures d in Payloads(vs) {
      var i :| 0 <= i < |l| && l[i].datum == d;
      assert vs[i].datum == d;
    }
    forall d | d in Payloads(vs) ensures d in Payloads(l) {
      var i :| 0 <= i < |vs| && vs[i].datum == d;
      assert l[i].datum == d;
    }
  }

  lemma CfsOfSnoc(prev: seq<Value>, v: Value, d: Datum)
    ensures CfsOf(prev + [v], d) == if d == v.datum then CfsOf(prev, d) + [v.cf] else CfsOf(prev, d)
  {
    assert (prev + [v])[..|prev|] == prev;
  }

  /** A payload has certainties to combine exactly when some candidate carries it. */
  lemma {:induction false} CfsOfNonEmpty(cands: seq<Value>, d: Datum)
    ensures |CfsOf(cands, d)| > 0 <==> d in Payloads(cands)
    decreases |cands|
  {
    if |cands| > 0 {
      var prev := cands[..|cands| - 1];
      var v := cands[|cands| - 1];
      assert cands == prev + [v];
      CfsOfNonEmpty(prev, d);
      PayloadsSnoc(prev, v);
    }
  }

  predicate DistinctPayloads(reg: seq<Value>) {
    forall i, j :: 0 <= i < j < |reg| ==> reg[i].datum != reg[j].datum
  }

  lemma FoldFromSnoc(acc: real, cs: seq<real>, c: real)
    ensures FoldFrom(acc, cs + [c]) == Cumulative(FoldFrom(acc, cs), c)
    decreases |cs|
  {
    if |cs| > 0 {
      assert (cs + [c])[1..] == cs[1..] + [c];
      FoldFromSnoc(Cumulative(acc, cs[0]), cs[1..], c);
    }
  }

  lemma CumulativeFoldSnoc(cs: seq<real>, c: real)
    requires |cs| > 0
    ensures CumulativeFold(cs + [c]) == Cumulative(CumulativeFold(cs), c)
  {
    assert (cs + [c])[1..] == cs[1..] + [c];
    FoldFromSnoc(cs[0], cs[1..], c);
  }

  /** Every entry's certainty is the cumulative combination of its candidates'. */
  predicate CombinesCfs(reg: seq<Value>, cands: seq<Value>) {
    forall i :: 0 <= i < |reg| ==> reg[i].cf == CumulativeFold(CfsOf(cands, reg[i].datum))
  }

  /** No entry is later than any of its candidates. */
  predicate NoLaterThan(reg: seq<Value>, cands: seq<Value>) {
    forall i, k :: (0 <= i < |reg| && 0 <= k < |cands| && cands[k].datum == reg[i].datum) ==>
      reg[i].ts <= cands[k].ts
  }

  /** The register invariant: one entry per distinct candidate payload, carrying the
      combined certainty and a timestamp no later than any of its candidates'. */
  predicate Merged(reg: seq<Value>, cands: seq<Value>) {
    && DistinctPayloads(reg) && Payloads(reg) == Payloads(cands)
    && CombinesCfs(reg, cands) && NoLaterThan(reg, cands)
  }

  lemma CombinesExisting(before: seq<Value>, prev: seq<Value>, v: Value, ts: int, j: nat)
    requires DistinctPayloads(before) && Payloads(before) == Payloads(prev) && CombinesCfs(before, prev)
    requires j < |before| && before[j].datum == v.datum
    ensures CombinesCfs(before[j := Value(v.datum, Cumulative(before[j].cf, v.cf), ts)], prev + [v])
  {
    var reg := before[j := Value(v.datum, Cumulative(before[j].cf, v.cf), ts)];
    forall i | 0 <= i < |reg| ensures reg[i].cf == CumulativeFold(CfsOf(prev + [v], reg[i].datum)) {
      CfsOfSnoc(prev, v, reg[i].datum);
      if i == j {
        assert v.datum in Payloads(before);
        CfsOfNonEmpty(prev, v.datum);
        CumulativeFoldSnoc(CfsOf(prev, v.datum), v.cf);
      } else {
        assert reg[i] == before[i];
      }
    }
  }

  lemma NoLaterExisting(before: seq<Value>, prev: seq<Value>, v: Value, ts: int, j: nat)
    requires DistinctPayloads(before) && NoLaterThan(before, prev)
    requires ts <= v.ts && forall k :: 0 <= k < |prev| ==> ts <= prev[k].ts
    requires j < |before| && before[j].datum == v.datum
    ensures NoLaterThan(before[j := Value(v.datum, Cumulative(before[j].cf, v.cf), ts)], prev + [v])
  {
    var reg := before[j := Value(v.datum, Cumulative(before[j].cf, v.cf), ts)];
    var cands := prev + [v];
    forall i, k | 0 <= i < |reg| && 0 <= k < |cands| && cands[k].datum == reg[i].datum
      ensures reg[i].ts <= cands[k].ts
    {
      if k < |prev| {
        assert cands[k] == prev[k];
      }
    }
  }

  /** Entering a payload seen before merges it into its entry. */
  lemma EnterExisting(before: seq<Value>, prev: seq<Value>, v: Value, ts: int, j: nat)
    requires Merged(before, prev)
    requires ts <= v.ts && forall k :: 0 <= k < |prev| ==> ts <= prev[k].ts
    requires j < |before| && before[j].datum == v.datum
    ensures Merged(before[j := Value(v.datum, Cumulative(before[j].cf, v.cf), ts)], prev + [v])
  {
    var w := Value(v.datum, Cumulative(before[j].cf, v.cf), ts);
    CombinesExisting(before, prev, v, ts, j);
    NoLaterExisting(before, prev, v, ts, j);
    PayloadsUpdate(before, j, w);
    PayloadsSnoc(prev, v);
  }

  lemma CombinesFresh(before: seq<Value>, prev: seq<Value>, v: Value)
    requires Payloads(before) == Payloads(prev) && CombinesCfs(before, prev)
    requires v.datum !in Payloads(before)
    ensures CombinesCfs(before + [v], prev + [v])
  {
    var reg := before + [v];
    forall i | 0 <= i < |reg| ensures reg[i].cf == CumulativeFold(CfsOf(prev + [v], reg[i].datum)) {
      CfsOfSnoc(prev, v, reg[i].datum);
      if i < |before| {
        assert reg[i] == before[i];
        assert reg[i].datum in Payloads(before);
      } else {
        CfsOfNonEmpty(prev, v.datum);
        assert CfsOf(prev, v.datum) == [];
        assert CumulativeFold([v.cf]) == v.cf;
      }
    }
  }

  lemma NoLaterFresh(before: seq<Value>, prev: seq<Value>, v: Value)
    requires Payloads(before) == Payloads(prev) && NoLaterThan(before, prev)
    requires v.datum !in Payloads(before)
    ensures NoLaterThan(before + [v], prev + [v])
  {
    var reg := before + [v];
    var cands := prev + [v];
    forall i, k | 0 <= i < |reg| && 0 <= k < |cands| && cands[k].datum == reg[i].datum
      ensures reg[i].ts <= cands[k].ts
    {
      if k < |prev| && i < |before| {
        assert cands[k] == prev[k] && reg[i] == before[i];
      }
    }
  }

  /** Entering a new payload appends it as it is. */
  lemma EnterFresh(before: seq<Value>, prev: seq<Value>, v: Value)
    requires Merged(before, prev)
    requires v.datum !in Payloads(before)
    ensures Merged(before + [v], prev + [v])
  {
    CombinesFresh(before, prev, v);
    NoLaterFresh(before, prev, v);
    PayloadsSnoc(before, v);
    PayloadsSnoc(prev, v);
    var reg := before + [v];
    forall i, j | 0 <= i < j < |reg| ensures reg[i].datum != reg[j].datum {
      if j == |before| {
        assert reg[i] == before[i];
        assert before[i].datum in Payloads(before);
      } else {
        assert reg[i] == before[i] && reg[j] == before[j];
      }
    }
  }

  /** The register holds one entry per distinct payload among the candidates, and
      each entry's certainty is the cumulative combination, in candidate order, of
      the certainties of all candidates with that payload; its timestamp is no later
      than any of theirs. */
  lemma {:induction false} RegisterMerges(cands: seq<Value>, firstTs: int)
    ensures Merged(Register(cands, firstTs), cands)
    decreases |cands|
  {
    if |cands| > 0 {
      var prev := cands[..|cands| - 1];
      var v := cands[|cands| - 1];
      assert cands == prev + [v];
      RegisterMerges(prev, firstTs);
      MinTsBelow(prev, firstTs);
      var ts := MinInt(MinTs(prev, firstTs), v.ts);
      var before := Register(prev, firstTs);
      match FindKey(before, v.datum)
      case Some(j) => EnterExisting(before, prev, v, ts, j);
      case None =>
        assert v.datum !in Payloads(before);
        EnterFresh(before, prev, v);
    }
  }

  /** The running timestamp is the least of the first candidate's and all the
      candidates': no later than any of them, and equal to one of them. */
  lemma {:induction false} MinTsBelow(cands: seq<Value>, firstTs: int)
    ensures MinTs(cands, firstTs) <= firstTs
    ensures forall k :: 0 <= k < |cands| ==> MinTs(cands, firstTs) <= cands[k].ts
    ensures MinTs(cands, firstTs) == firstTs || exists k :: 0 <= k < |cands| && MinTs(cands, firstTs) == cands[k].ts
    decreases |cands|
  {
    if |cands| > 0 {
      var prev := cands[..|cands| - 1];
      MinTsBelow(prev, firstTs);
      forall k | 0 <= k < |cands| ensures MinTs(cands, firstTs) <= cands[k].ts {
        if k < |prev| {
          assert cands[k] == prev[k];
        }
      }
      if MinTs(cands, firstTs) != firstTs && MinTs(cands, firstTs) != cands[|cands| - 1].ts {
        var k :| 0 <= k < |prev| && MinTs(prev, firstTs) == prev[k].ts;
        assert cands[k] == prev[k];
      }
    }
  }

  /** Candidate `j` is the last one carrying its payload. */
  predicate IsLast(cands: seq<Value>, j: nat)
    requires j < |cands|
  {
    cands[j].datum !in Payloads(cands[j + 1..])
  }

  /** The timestamp the register gives a payload whose last candidate is `j`: that
      candidate's own when no earlier candidate carries the payload, otherwise the
      running least timestamp up to and including `j`. */
  function StampAt(cands: seq<Value>, j: nat, firstTs: int): int
    requires j < |cands|
  {
    if cands[j].datum in Payloads(cands[..j]) then MinTs(cands[..j + 1], firstTs) else cands[j].ts
  }

  /** Every entry's timestamp is the one StampAt gives at its payload's last candidate. */
  predicate StampedAtLast(reg: seq<Value>, cands: seq<Value>, firstTs: int) {
    forall i, j :: 0 <= i < |reg| && 0 <= j < |cands| && cands[j].datum == reg[i].datum && IsLast(cands, j) ==>
      reg[i].ts == StampAt(cands, j, firstTs)
  }

  /** A candidate inside `prev` that is last in `prev + [v]` is last in `prev`, keeps
      its stamp, and carries another payload than `v`. */
  lemma LastInPrefix(prev: seq<Value>, v: Value, j: nat, firstTs: int)
    requires j < |prev| && IsLast(prev + [v], j)
    ensures IsLast(prev, j) && prev[j].datum != v.datum
    ensures StampAt(prev + [v], j, firstTs) == StampAt(prev, j, firstTs)
  {
    var cands := prev + [v];
    assert cands[j + 1..] == prev[j + 1..] + [v];
    PayloadsSnoc(prev[j + 1..], v);
    assert cands[..j] == prev[..j] && cands[..j + 1] == prev[..j + 1];
  }

  /** The stamp at the final candidate, which is the running least timestamp of all
      candidates when its payload was carried before, and its own otherwise. */
  lemma StampAtEnd(prev: seq<Value>, v: Value, firstTs: int)
    ensures StampAt(prev + [v], |prev|, firstTs) ==
      if v.datum in Payloads(prev) then MinInt(MinTs(prev, firstTs), v.ts) else v.ts
  {
    var cands := prev + [v];
    assert cands[..|prev|] == prev && cands[..|prev| + 1] == cands;
  }

  lemma StampedExisting(before: seq<Value>, prev: seq<Value>, v: Value, firstTs: int, j0: nat)
    requires Merged(before, prev) && StampedAtLast(before, prev, firstTs)
    requires j0 < |before| && before[j0].datum == v.datum
    ensures StampedAtLast(before[j0 := Value(v.datum, Cumulative(before[j0].cf, v.cf), MinInt(MinTs(prev, firstTs), v.ts))], prev + [v], firstTs)
  {
    var reg := before[j0 := Value(v.datum, Cumulative(before[j0].cf, v.cf), MinInt(MinTs(prev, firstTs), v.ts))];
    var cands := prev + [v];
    forall i, j | 0 <= i < |reg| && 0 <= j < |cands| && cands[j].datum == reg[i].datum && IsLast(cands, j)
      ensures reg[i].ts == StampAt(cands, j, firstTs)
    {
      if j < |prev| {
        LastInPrefix(prev, v, j, firstTs);
        assert cands[j] == prev[j];
        assert reg[i] == before[i];
      } else {
        if i != j0 {
          assert false;
        }
        assert before[j0].datum in Payloads(before);
        StampAtEnd(prev, v, firstTs);
      }
    }
  }

  lemma StampedFresh(before: seq<Value>, prev: seq<Value>, v: Value, firstTs: int)
    requires Merged(before, prev) && StampedAtLast(before, prev, firstTs)
    requires v.datum !in Payloads(before)
    ensures StampedAtLast(before + [v], prev + [v], firstTs)
  {
    var reg := before + [v];
    var cands := prev + [v];
    forall i, j | 0 <= i < |reg| && 0 <= j < |cands| && cands[j].datum == reg[i].datum && IsLast(cands, j)
      ensures reg[i].ts == StampAt(cands, j, firstTs)
    {
      if j < |prev| {
        LastInPrefix(prev, v, j, firstTs);
        assert cands[j] == prev[j];
        if i == |before| {
          assert false;
        }
        assert reg[i] == before[i];
      } else {
        if i < |before| {
          assert false;
        }
        StampAtEnd(prev, v, firstTs);
      }
    }
  }

  /** The exact timestamp of every register entry: see StampAt. */
  lemma {:induction false} RegisterTimestamps(cands: seq<Value>, firstTs: int)
    ensures StampedAtLast(Register(cands, firstTs), cands, firstTs)
    decreases |cands|
  {
    if |cands| > 0 {
      var prev := cands[..|cands| - 1];
      var v := cands[|cands| - 1];
      assert cands == prev + [v];
      RegisterTimestamps(prev, firstTs);
      RegisterMerges(prev, firstTs);
      var before := Register(prev, firstTs);
      match FindKey(before, v.datum)
      case Some(j0) => StampedExisting(before, prev, v, firstTs, j0);
      case None =>
        assert v.datum !in Payloads(before);
        StampedFresh(before, prev, v, firstTs);
    }
  }

  /** StampedAtLast read off for one entry. */
  lemma StampedEntry(reg: seq<Value>, cands: seq<Value>, firstTs: int, i: nat)
    requires StampedAtLast(reg, cands, firstTs) && i < |reg|
    ensures forall j :: 0 <= j < |cands| && cands[j].datum == reg[i].datum && IsLast(cands, j) ==>
      reg[i].ts == StampAt(cands, j, firstTs)
  {
  }

  /** The most certain register entry; since the resolver compares with `<=`, a
      later entry wins a tie. */
  function Best(reg: seq<Value>): (r: Value)
    requires |reg| > 0
    ensures r in reg
    ensures forall i :: 0 <= i < |reg| ==> reg[i].cf <= r.cf
    decreases |reg|
  {
    if |reg| == 1 then reg[0]
    else
      var b := Best(reg[..|reg| - 1]);
      assert forall i :: 0 <= i < |reg| - 1 ==> reg[i] == reg[..|reg| - 1][i];
      if b.cf <= reg[|reg| - 1].cf then reg[|reg| - 1] else b
  }

  /** CertaintyFactorsAmbiguityResolver.resolveCumulativeConclusions. */
  function MostCertain(cands: seq<Value>): (r: Value)
    ensures |cands| == 0 ==> r == NullValue
    ensures |cands| == 1 ==> r == cands[0]
    ensures |cands| > 1 ==> r.datum in Payloads(cands)
    ensures |cands| > 1 ==> r.cf == CumulativeFold(CfsOf(cands, r.datum))
    ensures |cands| > 1 ==> forall k :: 0 <= k < |cands| ==> CumulativeFold(CfsOf(cands, cands[k].datum)) <= r.cf
    ensures |cands| > 1 ==> forall k :: 0 <= k < |cands| && cands[k].datum == r.datum ==> r.ts <= cands[k].ts
    ensures |cands| > 1 ==> forall j :: 0 <= j < |cands| && cands[j].datum == r.datum && IsLast(cands, j) ==>
      r.ts == StampAt(cands, j, cands[0].ts)
  {
    if |cands| == 0 then NullValue
    else if |cands| == 1 then cands[0]
    else
      var reg := Register(cands, cands[0].ts);
      RegisterMerges(cands, cands[0].ts);
      assert cands[0].datum in Payloads(cands);
      var b := Best(reg);
      var bi :| 0 <= bi < |reg| && reg[bi] == b;
      RegisterTimestamps(cands, cands[0].ts);
      StampedEntry(reg, cands, cands[0].ts, bi);
      assert b.datum in Payloads(reg);
      assert forall k :: 0 <= k < |cands| ==> CumulativeFold(CfsOf(cands, cands[k].datum)) <= b.cf by {
        forall k | 0 <= k < |cands| ensures CumulativeFold(CfsOf(cands, cands[k].datum)) <= b.cf {
          assert cands[k].datum in Payloads(reg);
          var i :| 0 <= i < |reg| && reg[i].datum == cands[k].datum;
        }
      }
      b
  }

  /** The value a resolver settles a list of candidates on. */
  function ResolveCumulative(res: Resolver, cands: seq<Value>): Value {
    match res
    case DefaultResolver => LastCandidate(cands)
    case CfResolver => MostCertain(cands)
  }
}
