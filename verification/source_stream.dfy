/** The parser's input text (heart/parser/hmr/runtime/SourceStream.java): its
    end, the characters at a position or in a range, and the line and column of
    a position, both counted from 1. */
module SourceText {
  import opened Errors

  /** The text read from the stream. */
  datatype Source = Source(text: string)

  /** end: the position just after the last character. */
  function End(s: Source): (r: nat)
    ensures forall p :: 0 <= p < r ==> CharAt(s, p).Ok?
    ensures CharAt(s, r).Fail?
  {
    |s.text|
  }

  /** at(p): String.charAt, which fails outside the text. */
  function CharAt(s: Source, p: int): (r: Result<char>)
    ensures r.Ok? <==> 0 <= p < |s.text|
    ensures r.Fail? ==> r.error == IndexOutOfBounds
    ensures r.Ok? ==> r.value == s.text[p]
  {
    if 0 <= p < |s.text| then Ok(s.text[p]) else Fail(IndexOutOfBounds)
  }

  /** at(p, q): String.substring, the characters at p through q - 1; it fails
      unless 0 <= p <= q <= end. */
  function Slice(s: Source, p: int, q: int): (r: Result<string>)
    ensures r.Ok? <==> 0 <= p <= q <= |s.text|
    ensures r.Fail? ==> r.error == IndexOutOfBounds
    ensures r.Ok? ==> |r.value| == q - p && forall i :: 0 <= i < q - p ==> CharAt(s, p + i) == Ok(r.value[i])
  {
    if 0 <= p <= q <= |s.text| then Ok(s.text[p..q]) else Fail(IndexOutOfBounds)
  }

  /** A slice of one character is the character at its start. */
  lemma SliceOfOne(s: Source, p: int)
    requires 0 <= p < End(s)
    ensures Slice(s, p, p + 1) == Ok([CharAt(s, p).value])
  {
    assert s.text[p..p + 1] == [s.text[p]];
  }

  /** Adjacent slices join into the slice over both. */
  lemma SlicesJoin(s: Source, p: int, q: int, r: int)
    requires Slice(s, p, q).Ok? && Slice(s, q, r).Ok?
    ensures Slice(s, p, r).Ok? && Slice(s, p, r).value == Slice(s, p, q).value + Slice(s, q, r).value
  {
    assert s.text[p..r] == s.text[p..q] + s.text[q..r];
  }

  /** The number of newlines before position p. */
  function NewlinesBefore(text: string, p: nat): (n: nat)
    requires p <= |text|
    ensures n <= p
  {
    if p == 0 then 0 else NewlinesBefore(text, p - 1) + (if text[p - 1] == '\n' then 1 else 0)
  }

  /** The position of the last newline before position p, or -1 when there is
      none. */
  function LastNewlineBefore(text: string, p: nat): (r: int)
    requires p <= |text|
    ensures -1 <= r < p
    ensures r >= 0 ==> text[r] == '\n'
    ensures forall j :: r < j < p ==> text[j] != '\n'
  {
    if p == 0 then -1 else if text[p - 1] == '\n' then p - 1 else LastNewlineBefore(text, p - 1)
  }

  /** String.indexOf('\n', from) for a start at or after 0: the first newline at
      or after `from`, or -1 when there is none. */
  function NextNewline(text: string, from: nat): (r: int)
    ensures r == -1 || (from <= r < |text| && text[r] == '\n')
    ensures forall j :: from <= j < |text| && (r == -1 || j < r) ==> text[j] != '\n'
    decreases |text| - from
  {
    if from >= |text| then -1 else if text[from] == '\n' then from else NextNewline(text, from + 1)
  }

  /** Without a newline in between, two positions have the same newlines before
      them. */
  lemma {:induction false} NoNewlineBetween(text: string, a: nat, b: nat)
    requires a <= b <= |text| && forall j :: a <= j < b ==> text[j] != '\n'
    ensures NewlinesBefore(text, b) == NewlinesBefore(text, a)
    ensures LastNewlineBefore(text, b) == LastNewlineBefore(text, a)
    decreases b - a
  {
    if a < b {
      NoNewlineBetween(text, a, b - 1);
    }
  }

  /** where(p): the lines are walked from the start, each ending at its newline
      or at the end of the text, until the one holding p; the line is one more
      than the newlines before p and the column is p's distance from the newline
      before it. The walk reaches p only when 0 <= p <= end: outside that range
      the source loops forever, so the range is required here. */
  method Where(s: Source, p: int) returns (line: int, col: int)
    requires 0 <= p <= |s.text|
    ensures line == 1 + NewlinesBefore(s.text, p)
    ensures col == p - LastNewlineBefore(s.text, p)
    ensures 1 <= line && 1 <= col
  {
    var text := s.text;
    var ln := 1;
    var ls := -1;
    while true
      invariant -1 <= ls < p
      invariant ls >= 0 ==> text[ls] == '\n'
      invariant ln == 1 + NewlinesBefore(text, ls + 1)
      invariant LastNewlineBefore(text, ls + 1) == ls
      decreases p - ls
    {
      var nextnl := NextNewline(text, ls + 1);
      if nextnl < 0 {
        nextnl := |text|;
      }
      if ls < p && p <= nextnl {
        NoNewlineBetween(text, ls + 1, p);
        return ln, p - ls;
      }
      NoNewlineBetween(text, ls + 1, nextnl);
      ls := nextnl;
      ln := ln + 1;
    }
  }
}
