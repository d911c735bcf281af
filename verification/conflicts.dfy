/** Conflict sets and the conflict-set resolution policies
    (heart/uncertainty/ConflictSetFireAll.java, ConflictSetLastWin.java). */
module Conflicts {
  import opened Errors

  /** One entry of a conflict set: a rule, by its position in its table, and the
      certainty with which its conditions hold. */
  datatype Fired = Fired(rule: nat, cf: real)

  datatype Policy = FireAll | LastWin

  /** ConflictSetFireAll.resolveConflictSet: every entry, in order. */
  function FireAllOf(cs: seq<Fired>): (r: seq<Fired>)
    ensures |r| == |cs|
    ensures forall i :: 0 <= i < |cs| ==> r[i] == cs[i]
  {
    cs
  }

  /** ConflictSetLastWin.resolveConflictSet: only the last entry; getLast on an
      empty set fails. */
  function LastWinOf(cs: seq<Fired>): (r: Result<seq<Fired>>)
    ensures |cs| == 0 <==> r == Fail(NoSuchElement)
    ensures r.Ok? ==> |r.value| == 1 && r.value[0] == cs[|cs| - 1]
  {
    if |cs| == 0 then Fail(NoSuchElement) else Ok([cs[|cs| - 1]])
  }

  function Resolve(p: Policy, cs: seq<Fired>): (r: Result<seq<Fired>>)
    ensures p.FireAll? ==> r == Ok(FireAllOf(cs))
    ensures p.LastWin? ==> r == LastWinOf(cs)
  {
    match p
    case FireAll => Ok(FireAllOf(cs))
    case LastWin => LastWinOf(cs)
  }

  /** On a non-empty set every policy succeeds and returns a non-empty selection of
      the set's own entries: nothing is invented, and the last entry always fires. */
  lemma ResolveSelects(p: Policy, cs: seq<Fired>)
    requires |cs| > 0
    ensures Resolve(p, cs).Ok?
    ensures |Resolve(p, cs).value| > 0
    ensures forall i :: 0 <= i < |Resolve(p, cs).value| ==> Resolve(p, cs).value[i] in cs
    ensures cs[|cs| - 1] in Resolve(p, cs).value
  {
  }
}
