/** The certainty-factor algebra of heart/uncertainty/CertaintyFactorsEvaluator.java:
    the cumulative combination of two certainty factors, its fold over a list
    (the `sim` measure) and the minimum certainty of a list. */
module CfAlgebra {

  const MaxCertainty: real := 1.0
  const MinCertainty: real := -1.0
  const Threshold: real := 0.0

  predicate InUnit(c: real) {
    MinCertainty <= c <= MaxCertainty
  }

  predicate AllInUnit(cs: seq<real>) {
    forall i :: 0 <= i < |cs| ==> InUnit(cs[i])
  }

  function Min(a: real, b: real): real {
    if a < b then a else b
  }

  /** calculateCumulative: the combination rule for two pieces of evidence. Two
      confirmations or two disconfirmations reinforce each other; conflicting
      evidence is normalised by the weaker one, except when the two cancel
      completely (product -1), where the first argument is kept. */
  function Cumulative(ci: real, cj: real): (r: real)
    ensures ci >= 0.0 && cj >= 0.0 ==> 1.0 - r == (1.0 - ci) * (1.0 - cj)
    ensures (ci < 0.0 || cj < 0.0) && ci <= 0.0 && cj <= 0.0 ==> 1.0 + r == (1.0 + ci) * (1.0 + cj)
    ensures ci * cj < 0.0 && ci * cj != -1.0 ==> r * (1.0 - Min(ci, cj)) == ci + cj
    ensures ci * cj == -1.0 ==> r == ci
  {
    if ci >= 0.0 && cj >= 0.0 then ci + cj - ci * cj
    else if ci <= 0.0 && cj <= 0.0 then ci + cj + ci * cj
    else if ci * cj != 0.0 && ci * cj != -1.0 then
      assert Min(ci, cj) < 0.0;
      (ci + cj) / (1.0 - Min(ci, cj))
    else ci
  }

  /** 0 carries no evidence: combining with it changes nothing, on either side. */
  lemma CumulativeNeutral(c: real)
    ensures Cumulative(c, 0.0) == c
    ensures Cumulative(0.0, c) == c
  {
  }

  /** The order of evidence does not matter, except for the pair {1, -1}, where the
      first argument wins. */
  lemma CumulativeCommutes(a: real, b: real)
    ensures a * b != -1.0 ==> Cumulative(a, b) == Cumulative(b, a)
    ensures a * b == -1.0 ==> Cumulative(a, b) == a && Cumulative(b, a) == b
  {
  }

  /** The pair (1, -1) is the one place where the combination is not symmetric. */
  lemma CumulativeNotCommutativeAtExtremes()
    ensures Cumulative(1.0, -1.0) == 1.0
    ensures Cumulative(-1.0, 1.0) == -1.0
  {
  }

  lemma MulNonNegative(x: real, y: real)
    requires x >= 0.0 && y >= 0.0
    ensures x * y >= 0.0
  {
  }

  lemma DivWithin(n: real, d: real)
    requires d > 0.0 && -d <= n <= d
    ensures -1.0 <= n / d <= 1.0
  {
  }

  lemma ConfirmationsBounded(a: real, b: real)
    requires 0.0 <= a <= 1.0 && 0.0 <= b <= 1.0
    ensures a <= Cumulative(a, b) <= 1.0 && b <= Cumulative(a, b)
  {
    MulNonNegative(1.0 - a, 1.0 - b);
    MulNonNegative(1.0 - a, b);
    MulNonNegative(a, 1.0 - b);
  }

  lemma DisconfirmationsBounded(a: real, b: real)
    requires -1.0 <= a <= 0.0 && -1.0 <= b <= 0.0
    ensures -1.0 <= Cumulative(a, b) <= a && Cumulative(a, b) <= b
  {
    MulNonNegative(1.0 + a, 1.0 + b);
    MulNonNegative(1.0 + a, -b);
    MulNonNegative(-a, 1.0 + b);
  }

  lemma ConflictBounded(a: real, b: real)
    requires InUnit(a) && InUnit(b)
    requires a * b < 0.0
    ensures InUnit(Cumulative(a, b))
  {
    if a * b != -1.0 {
      DivWithin(a + b, 1.0 - Min(a, b));
    }
  }

  /** Certainties stay certainties: combining two values of [-1, 1] gives a value of
      [-1, 1]; two confirmations give a confirmation at least as strong as each and
      two disconfirmations a disconfirmation at least as strong as each. */
  lemma {:induction false} CumulativeBounded(a: real, b: real)
    requires InUnit(a) && InUnit(b)
    ensures InUnit(Cumulative(a, b))
    ensures a >= 0.0 && b >= 0.0 ==> Cumulative(a, b) >= a && Cumulative(a, b) >= b
    ensures a <= 0.0 && b <= 0.0 ==> Cumulative(a, b) <= a && Cumulative(a, b) <= b
  {
    if a >= 0.0 && b >= 0.0 {
      ConfirmationsBounded(a, b);
    } else if a <= 0.0 && b <= 0.0 {
      DisconfirmationsBounded(a, b);
    } else {
      assert a * b < 0.0;
      ConflictBounded(a, b);
    }
  }

  /** The cumulative certainty of a list: the first entry combined with each later
      entry in turn, 0 for the empty list (the body of `sim`). */
  function CumulativeFold(cs: seq<real>): (r: real) {
    if |cs| == 0 then 0.0 else FoldFrom(cs[0], cs[1..])
  }

  function FoldFrom(acc: real, cs: seq<real>): real
    decreases |cs|
  {
    if |cs| == 0 then acc else FoldFrom(Cumulative(acc, cs[0]), cs[1..])
  }

  lemma {:induction false} FoldFromBounded(acc: real, cs: seq<real>)
    requires InUnit(acc) && AllInUnit(cs)
    ensures InUnit(FoldFrom(acc, cs))
    decreases |cs|
  {
    if |cs| > 0 {
      CumulativeBounded(acc, cs[0]);
      assert AllInUnit(cs[1..]) by {
        forall i | 0 <= i < |cs[1..]| ensures InUnit(cs[1..][i]) {
          assert cs[1..][i] == cs[i + 1];
        }
      }
      FoldFromBounded(Cumulative(acc, cs[0]), cs[1..]);
    }
  }

  /** Folding confirmations never weakens: the result is at least the starting
      value and at least every folded entry. */
  lemma {:induction false} FoldFromConfirms(acc: real, cs: seq<real>)
    requires InUnit(acc) && AllInUnit(cs)
    requires acc >= 0.0 && forall i :: 0 <= i < |cs| ==> cs[i] >= 0.0
    ensures FoldFrom(acc, cs) >= acc
    ensures forall i :: 0 <= i < |cs| ==> FoldFrom(acc, cs) >= cs[i]
    decreases |cs|
  {
    if |cs| > 0 {
      var next := Cumulative(acc, cs[0]);
      CumulativeBounded(acc, cs[0]);
      assert AllInUnit(cs[1..]) by {
        forall i | 0 <= i < |cs[1..]| ensures InUnit(cs[1..][i]) {
          assert cs[1..][i] == cs[i + 1];
        }
      }
      assert forall i :: 0 <= i < |cs[1..]| ==> cs[1..][i] >= 0.0 by {
        forall i | 0 <= i < |cs[1..]| ensures cs[1..][i] >= 0.0 {
          assert cs[1..][i] == cs[i + 1];
        }
      }
      FoldFromConfirms(next, cs[1..]);
      forall i | 0 <= i < |cs| ensures FoldFrom(acc, cs) >= cs[i] {
        if i > 0 {
          assert cs[i] == cs[1..][i - 1];
        }
      }
    }
  }

  /** The cumulative certainty of certainties is a certainty, and that of
      confirmations is at least each of them. */
  lemma CumulativeFoldBounded(cs: seq<real>)
    requires AllInUnit(cs)
    ensures InUnit(CumulativeFold(cs))
    ensures (forall i :: 0 <= i < |cs| ==> cs[i] >= 0.0) ==>
              forall i :: 0 <= i < |cs| ==> CumulativeFold(cs) >= cs[i]
  {
    if |cs| > 0 {
      assert AllInUnit(cs[1..]) by {
        forall i | 0 <= i < |cs[1..]| ensures InUnit(cs[1..][i]) {
          assert cs[1..][i] == cs[i + 1];
        }
      }
      FoldFromBounded(cs[0], cs[1..]);
      if forall i :: 0 <= i < |cs| ==> cs[i] >= 0.0 {
        assert forall i :: 0 <= i < |cs[1..]| ==> cs[1..][i] >= 0.0 by {
          forall i | 0 <= i < |cs[1..]| ensures cs[1..][i] >= 0.0 {
            assert cs[1..][i] == cs[i + 1];
          }
        }
        FoldFromConfirms(cs[0], cs[1..]);
        forall i | 0 <= i < |cs| ensures CumulativeFold(cs) >= cs[i] {
          if i > 0 {
            assert cs[i] == cs[1..][i - 1];
          }
        }
      }
    }
  }

  /** getMinCF: the smallest certainty of a list, starting from MAX_CERTAINTY, so
      that the empty list gives 1. */
  function MinCf(cs: seq<real>): (r: real)
    ensures r <= MaxCertainty
    ensures forall i :: 0 <= i < |cs| ==> r <= cs[i]
    ensures r == MaxCertainty || exists i :: 0 <= i < |cs| && r == cs[i]
    decreases |cs|
  {
    if |cs| == 0 then MaxCertainty
    else
      var rest := MinCf(cs[1..]);
      assert forall i :: 1 <= i < |cs| ==> rest <= cs[i] by {
        forall i | 1 <= i < |cs| ensures rest <= cs[i] {
          assert cs[i] == cs[1..][i - 1];
        }
      }
      assert rest == MaxCertainty || exists i :: 0 <= i < |cs| && rest == cs[i] by {
        if rest != MaxCertainty {
          var j :| 0 <= j < |cs[1..]| && rest == cs[1..][j];
          assert rest == cs[j + 1];
        }
      }
      if cs[0] < rest then cs[0] else rest
  }
}
