/** Relative points and periods of time (heart/RelativeTimestamp.java and
    heart/RelativeTimePeriod.java): how far back into the history log an
    expression looks, in milliseconds or in recorded states. */
module RelativeTime {

  import opened Widths

  const Second: int := 1000
  const Minute: int := 60000
  const Hour: int := 3600000

  /** Minutes and hours are the usual multiples of the second. */
  lemma UnitsAreMultiples()
    ensures Minute == 60 * Second && Hour == 60 * Minute
  {
  }

  /** The two units of time: the number of recorded states, or milliseconds. */
  datatype TimeType = StateCount | MilisCount

  /** A point in time relative to now. The offset is a long, meant to be at most 0,
      but the constructor accepts any long, and so does this datatype. */
  datatype Timestamp = Timestamp(offset: Long, unit: TimeType)

  /** A period between two relative points, sampled every `step` (a long). Both
      ends take the unit given to the constructor. */
  datatype Period = Period(from: Timestamp, to: Timestamp, step: Long)

  /** The constructor of RelativeTimePeriod. */
  function MakePeriod(from: Long, to: Long, step: Long, unit: TimeType): (p: Period)
    ensures p.from.offset == from && p.to.offset == to && p.step == step
    ensures p.from.unit == unit && p.to.unit == unit
  {
    Period(Timestamp(from, unit), Timestamp(to, unit), step)
  }

  /** A number as toString prints it: a long, or a double. */
  datatype Shown = AsLong(n: int) | AsDouble(x: real)

  /** What toString prints, before the numbers become text: both ends and the unit
      suffix, which follows `from` only. */
  datatype Description = Description(from: Shown, unit: string, to: Shown)

  /** The divisor and suffix toString chooses from the magnitude of `from`, which
      it takes as the long negation of `from`: Long.MIN_VALUE negates to itself and
      so prints in milliseconds. */
  function UnitOf(from: Long): (r: (int, string))
    ensures from == MinLong ==> r == (1, "ms")
    ensures from != MinLong && -from < Second ==> r == (1, "ms")
    ensures from != MinLong && Second <= -from < Minute ==> r == (Second, "s")
    ensures from != MinLong && Minute <= -from < Hour ==> r == (Minute, "m")
    ensures from != MinLong && Hour <= -from ==> r == (Hour, "h")
  {
    NegateLong(from);
    var negated := ToLong(-(from as int));
    if negated < Second then (1, "ms")
    else if negated < Minute then (Second, "s")
    else if negated < Hour then (Minute, "m")
    else (Hour, "h")
  }

  /** RelativeTimePeriod.toString: state counts are printed as they are, without a
      unit; millisecond periods are scaled by the divisor chosen for `from`, and
      `to` is scaled by the same divisor. */
  function Describe(p: Period): (d: Description)
    ensures p.from.unit.StateCount? ==> d == Description(AsLong(p.from.offset), "", AsLong(p.to.offset))
    ensures p.from.unit.MilisCount? ==>
              d.from.AsDouble? && d.to.AsDouble? && d.unit in {"ms", "s", "m", "h"}
  {
    match p.from.unit
    case StateCount => Description(AsLong(p.from.offset), "", AsLong(p.to.offset))
    case MilisCount =>
      var (div, suffix) := UnitOf(p.from.offset);
      Description(AsDouble(p.from.offset as real / div as real), suffix, AsDouble(p.to.offset as real / div as real))
  }

  /** The unit is chosen so that a past `from` shows as at least one unit, and, below
      hours, as fewer than 60 of them; `to` is shown in the same unit. The one
      exception is Long.MIN_VALUE, whose negation wraps: it shows in milliseconds. */
  lemma DescribeScales(p: Period)
    requires p.from.unit.MilisCount?
    ensures var d := Describe(p);
      && (d.unit == "s" || d.unit == "m" ==> -60.0 < d.from.x <= -1.0)
      && (d.unit == "h" ==> d.from.x <= -1.0)
      && (d.unit == "ms" ==> d.from.x == p.from.offset as real && d.to.x == p.to.offset as real)
      && (p.from.offset == MinLong ==> d.unit == "ms")
      && (d.unit == "s" ==> d.to.x * 1000.0 == p.to.offset as real)
      && (d.unit == "m" ==> d.to.x * 60000.0 == p.to.offset as real)
      && (d.unit == "h" ==> d.to.x * 3600000.0 == p.to.offset as real)
  {
  }

  /** Long.toString: optional minus sign, then decimal digits without leading zeros. */
  function LongText(n: int): (s: string)
    ensures |s| > 0
    ensures n < 0 <==> s[0] == '-'
  {
    if n < 0 then "-" + Digits(-n) else Digits(n)
  }

  function Digits(n: nat): (s: string)
    ensures |s| > 0 && forall i :: 0 <= i < |s| ==> '0' <= s[i] <= '9'
    decreases n
  {
    if n < 10 then [DigitChar(n)] else Digits(n / 10) + [DigitChar(n % 10)]
  }

  function DigitChar(d: nat): (c: char)
    requires d < 10
    ensures '0' <= c <= '9' && (c as int) - ('0' as int) == d
  {
    (('0' as int) + d) as char
  }

  /** Reading decimal digits back. */
  function DigitsValue(s: string): nat
    requires forall i :: 0 <= i < |s| ==> '0' <= s[i] <= '9'
    decreases |s|
  {
    if |s| == 0 then 0 else 10 * DigitsValue(s[..|s| - 1]) + ((s[|s| - 1] as int) - ('0' as int))
  }

  function LongValue(s: string): int
    requires |s| > 0
    requires forall i :: 0 <= i < |s| ==> ('0' <= s[i] <= '9') || (i == 0 && s[i] == '-')
  {
    if s[0] == '-' then -(DigitsValue(s[1..]) as int) else DigitsValue(s)
  }

  lemma {:induction false} DigitsRoundTrip(n: nat)
    ensures DigitsValue(Digits(n)) == n
    decreases n
  {
    if n >= 10 {
      DigitsRoundTrip(n / 10);
      var s := Digits(n / 10) + [DigitChar(n % 10)];
      assert s[..|s| - 1] == Digits(n / 10);
    }
  }

  /** Printed numbers read back as themselves. */
  lemma LongTextRoundTrip(n: int)
    ensures LongValue(LongText(n)) == n
  {
    if n < 0 {
      assert LongText(n)[1..] == Digits(-n);
      DigitsRoundTrip(-n);
    } else {
      DigitsRoundTrip(n);
    }
  }

  /** The text of a state-count period: `from`, the empty unit, " to ", `to`. */
  function StateCountText(p: Period): (s: string)
    requires p.from.unit.StateCount?
    ensures var d := Describe(p); s == LongText(d.from.n) + d.unit + " to " + LongText(d.to.n)
  {
    LongText(p.from.offset) + " to " + LongText(p.to.offset)
  }
}
