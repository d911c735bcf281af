/** The conditional operators and time quantifiers of ALSV(FD) formulae
    (heart/alsvfd/Formulae.java), with their textual forms. */
module Operators {
  import opened Errors

  datatype Op = EQ | NEQ | IN | NOTIN | SUBSET | SUPSET | SIM | NOTSIM | LT | GT | LTE | GTE

  datatype Quantifier = MAX | MIN | EXACTLY

  /** The operators in declaration order, which is the order `fromString` tries them. */
  const AllOps: seq<Op> := [EQ, NEQ, IN, NOTIN, SUBSET, SUPSET, SIM, NOTSIM, LT, GT, LTE, GTE]

  const AllQuantifiers: seq<Quantifier> := [MAX, MIN, EXACTLY]

  function OpText(op: Op): string {
    match op
    case EQ => "eq"
    case NEQ => "neq"
    case IN => "in"
    case NOTIN => "notin"
    case SUBSET => "subset"
    case SUPSET => "supset"
    case SIM => "sim"
    case NOTSIM => "notsim"
    case LT => "lt"
    case GT => "gt"
    case LTE => "lte"
    case GTE => "gte"
  }

  function QuantifierText(q: Quantifier): string {
    match q
    case MAX => "max"
    case MIN => "min"
    case EXACTLY => "exactly"
  }

  /** Case folding as String.equalsIgnoreCase applies it when the other side is
      a text of lower-case ASCII letters other than k, as every operator and
      quantifier text is: an upper-case ASCII letter matches its lower-case
      letter, the dotless i (U+0131, upper case I) and the dotted capital I
      (U+0130, lower case i) match i, and the long s (U+017F, upper case S)
      matches s. */
  function Lower(c: char): char {
    if 'A' <= c <= 'Z' then (c as int + 32) as char
    else if c == '\U{131}' || c == '\U{130}' then 'i'
    else if c == '\U{17F}' then 's'
    else c
  }

  function LowerText(s: string): (r: string)
    ensures |r| == |s|
    ensures forall i :: 0 <= i < |s| ==> r[i] == Lower(s[i])
  {
    if |s| == 0 then "" else [Lower(s[0])] + LowerText(s[1..])
  }

  /** String.equalsIgnoreCase against an operator or quantifier text. */
  predicate EqualsIgnoreCase(a: string, b: string) {
    LowerText(a) == LowerText(b)
  }

  predicate IsLowerText(s: string) {
    forall i :: 0 <= i < |s| ==> Lower(s[i]) == s[i]
  }

  lemma LowerTextOfLower(s: string)
    requires IsLowerText(s)
    ensures LowerText(s) == s
  {
  }

  lemma OpTextIsLower(op: Op)
    ensures IsLowerText(OpText(op))
    ensures LowerText(OpText(op)) == OpText(op)
  {
    LowerLetters(OpText(op));
    LowerTextOfLower(OpText(op));
  }

  /** A text of lower-case ASCII letters folds to itself. */
  lemma LowerLetters(s: string)
    requires forall i :: 0 <= i < |s| ==> 'a' <= s[i] <= 'z'
    ensures IsLowerText(s)
  {
  }

  lemma AllOpsComplete(op: Op)
    ensures op in AllOps
  {
  }

  /** The first operator of `ops` whose text matches `text` ignoring case. */
  function FindOp(text: string, ops: seq<Op>): (r: Option<Op>)
    ensures r.Some? ==> r.value in ops && EqualsIgnoreCase(text, OpText(r.value))
    ensures r.None? <==> forall i :: 0 <= i < |ops| ==> !EqualsIgnoreCase(text, OpText(ops[i]))
  {
    if |ops| == 0 then None
    else if EqualsIgnoreCase(text, OpText(ops[0])) then Some(ops[0])
    else FindOp(text, ops[1..])
  }

  /** ConditionalOperator.fromString: `None` stands for Java's null, both as input and as result. */
  function OpFromString(text: Option<string>): (r: Option<Op>)
    ensures text.None? ==> r.None?
    ensures r.Some? ==> text.Some? && EqualsIgnoreCase(text.value, OpText(r.value))
    ensures text.Some? && r.None? ==> forall op: Op :: !EqualsIgnoreCase(text.value, OpText(op))
  {
    match text
    case None => None
    case Some(t) =>
      var r := FindOp(t, AllOps);
      assert r.None? ==> forall op: Op :: !EqualsIgnoreCase(t, OpText(op)) by {
        forall op: Op | r.None? ensures !EqualsIgnoreCase(t, OpText(op)) {
          AllOpsComplete(op);
          var i :| 0 <= i < |AllOps| && AllOps[i] == op;
        }
      }
      r
  }

  /** A left inverse of `OpText`, used to show that the operator texts are distinct. */
  function OpOfText(s: string): Option<Op> {
    if s == "eq" then Some(EQ) else if s == "neq" then Some(NEQ)
    else if s == "in" then Some(IN) else if s == "notin" then Some(NOTIN)
    else if s == "subset" then Some(SUBSET) else if s == "supset" then Some(SUPSET)
    else if s == "sim" then Some(SIM) else if s == "notsim" then Some(NOTSIM)
    else if s == "lt" then Some(LT) else if s == "gt" then Some(GT)
    else if s == "lte" then Some(LTE) else if s == "gte" then Some(GTE)
    else None
  }

  lemma OpTextInjective(a: Op, b: Op)
    requires OpText(a) == OpText(b)
    ensures a == b
  {
    assert OpOfText(OpText(a)) == Some(a) by { match a case _ => }
    assert OpOfText(OpText(b)) == Some(b) by { match b case _ => }
  }

  /** fromString(op.getText()) == op for every operator, and any spelling that
      differs from the text only in letter case parses to the same operator. */
  lemma OpRoundTrip(op: Op, text: string)
    requires EqualsIgnoreCase(text, OpText(op))
    ensures OpFromString(Some(text)) == Some(op)
    ensures OpFromString(Some(OpText(op))) == Some(op)
  {
    var r := OpFromString(Some(text));
    assert r.Some?;
    OpTextIsLower(op);
    OpTextIsLower(r.value);
    assert OpText(r.value) == OpText(op);
    OpTextInjective(r.value, op);
    var r2 := OpFromString(Some(OpText(op)));
    assert r2.Some?;
    OpTextIsLower(r2.value);
    assert OpText(r2.value) == OpText(op);
    OpTextInjective(r2.value, op);
  }

  function FindQuantifier(text: string, qs: seq<Quantifier>): (r: Option<Quantifier>)
    ensures r.Some? ==> r.value in qs && EqualsIgnoreCase(text, QuantifierText(r.value))
    ensures r.None? <==> forall i :: 0 <= i < |qs| ==> !EqualsIgnoreCase(text, QuantifierText(qs[i]))
  {
    if |qs| == 0 then None
    else if EqualsIgnoreCase(text, QuantifierText(qs[0])) then Some(qs[0])
    else FindQuantifier(text, qs[1..])
  }

  lemma AllQuantifiersComplete(q: Quantifier)
    ensures q in AllQuantifiers
  {
  }

  /** TimeBasedParameter.Quantifier.fromString. */
  function QuantifierFromString(text: Option<string>): (r: Option<Quantifier>)
    ensures text.None? ==> r.None?
    ensures r.Some? ==> text.Some? && EqualsIgnoreCase(text.value, QuantifierText(r.value))
    ensures text.Some? && r.None? ==> forall q: Quantifier :: !EqualsIgnoreCase(text.value, QuantifierText(q))
  {
    match text
    case None => None
    case Some(t) =>
      var r := FindQuantifier(t, AllQuantifiers);
      assert r.None? ==> forall q: Quantifier :: !EqualsIgnoreCase(t, QuantifierText(q)) by {
        forall q: Quantifier | r.None? ensures !EqualsIgnoreCase(t, QuantifierText(q)) {
          AllQuantifiersComplete(q);
          var i :| 0 <= i < |AllQuantifiers| && AllQuantifiers[i] == q;
        }
      }
      r
  }

  function QuantifierOfText(s: string): Option<Quantifier> {
    if s == "max" then Some(MAX) else if s == "min" then Some(MIN)
    else if s == "exactly" then Some(EXACTLY) else None
  }

  lemma QuantifierTextInjective(a: Quantifier, b: Quantifier)
    requires QuantifierText(a) == QuantifierText(b)
    ensures a == b
  {
    assert QuantifierOfText(QuantifierText(a)) == Some(a) by { match a case _ => }
    assert QuantifierOfText(QuantifierText(b)) == Some(b) by { match b case _ => }
  }

  lemma QuantifierTextIsLower(q: Quantifier)
    ensures LowerText(QuantifierText(q)) == QuantifierText(q)
  {
    assert IsLowerText(QuantifierText(q));
    LowerTextOfLower(QuantifierText(q));
  }

  lemma QuantifierRoundTrip(q: Quantifier, text: string)
    requires EqualsIgnoreCase(text, QuantifierText(q))
    ensures QuantifierFromString(Some(text)) == Some(q)
  {
    var r := QuantifierFromString(Some(text));
    assert r.Some?;
    QuantifierTextIsLower(q);
    QuantifierTextIsLower(r.value);
    assert QuantifierText(r.value) == QuantifierText(q);
    QuantifierTextInjective(r.value, q);
  }

  /** The letters that equalsIgnoreCase folds into i select operators too:
      "\U{131}n" (dotless i) and "\U{130}N" (dotted capital I) are `in`. */
  lemma DottedAndDotlessISelectIn()
    ensures OpFromString(Some("\U{131}n")) == Some(IN)
    ensures OpFromString(Some("\U{130}N")) == Some(IN)
  {
    FoldedOp("\U{131}n", IN);
    FoldedOp("\U{130}N", IN);
  }

  /** And the long s folds into s: "\U{17F}im" is `sim`. */
  lemma LongSSelectsSim()
    ensures OpFromString(Some("\U{17F}im")) == Some(SIM)
  {
    FoldedOp("\U{17F}im", SIM);
  }

  /** And quantifiers: "m\U{131}n" is `min`. */
  lemma DotlessISelectsMin()
    ensures QuantifierFromString(Some("m\U{131}n")) == Some(MIN)
  {
    FoldsTo("m\U{131}n", "min");
    FoldsTo("min", "min");
    QuantifierRoundTrip(MIN, "m\U{131}n");
  }

  /** A text that folds letter by letter into an operator's text selects it. */
  lemma FoldedOp(s: string, op: Op)
    requires |s| == |OpText(op)| && forall i :: 0 <= i < |s| ==> Lower(s[i]) == OpText(op)[i]
    ensures OpFromString(Some(s)) == Some(op)
  {
    FoldsTo(s, OpText(op));
    OpTextIsLower(op);
    OpRoundTrip(op, s);
  }

  lemma FoldsTo(s: string, t: string)
    requires |s| == |t| && forall i :: 0 <= i < |s| ==> Lower(s[i]) == t[i]
    ensures LowerText(s) == t
  {
  }
}
