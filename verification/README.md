# HeaRTDroid inference core in Dafny

A model of the core of HeaRTDroid, a rule engine for XTT2 knowledge bases. An
XTT2 model is a set of attribute types, attributes, decision tables and rules. A
table's rules read the attributes of its precondition and write those of its
conclusion.

The model covers:

- **Value algebra.** The ALSV(FD) operators of numeric values: equality,
  ordering, and membership in sets and ranges.
- **Operator texts.** The conditional operators and time quantifiers, and how
  their texts parse.
- **Relative time.** Relative timestamps and periods, and how a period is
  printed.
- **Working memory.** The attribute registry and its write path with domain
  coercion. Candidate values are collected while time is locked. It also keeps
  the history log and snapshots, and looks up historical states and windows.
- **Condition evaluators.** The crisp evaluator, giving 1 or 0, and the
  certainty-factor evaluator. This covers the combination rule for certainty
  factors, set similarity, and evaluation over a time range.
- **Ambiguity resolvers.** They settle several values written to one attribute
  in a cycle. For disjunctive conclusions they choose which admitted rules fire.
  The two conflict-set policies (FireAll and LastWin) are part of this.
- **The inference cycle.** Locking time, firing each table on the stack, then
  resolving, unlocking and logging. A decision's execution is part of the cycle.
- **Initial table stacks.** The fixed-order mode and the goal-driven mode, whose
  search follows the producers of each table.
- **The model builder.** Registries of incomplete types, attributes, tables and
  rules, and the staged build with its consistency checks.
- **Parser support.** The parser's source text, with line and column numbers.
- **Annotations** of model elements.

### Modelling choices

- Java exceptions become the `Result` datatype of the `Errors` module. The
  exception types map onto constructors: `UnknownValue`, `NotInTheDomain`,
  `UnsupportedOperation`, `AttributeNotRegistered`, `ModelBuilding` (for
  `BuilderException` and `ModelBuildingException`), `IndexOutOfBounds`,
  `NoSuchElement`, `NullPointer` and `ClassCast`. `IllegalArgument` stands for
  the reflective failures a decision swallows, and for the periods the
  state-count window refuses (see Findings).
- Java's `int` and `long` are the subset types `Int` and `Long` of the `Widths`
  module. Where the window code adds, negates or casts them, the wrap-around is
  written out (`ToLong`, `ToInt`).
- Certainty factors and numbers are `real`.
- The working memory is an immutable datatype. Every mutating method becomes a
  function from memory to memory.
- A chain of writes that a failure can end (setCurrentState, a rule's
  decisions, the inference cycle) returns a `Run`: the memory reached, with the
  failure that escaped. Changes made before the failure, the registration of the
  attribute whose write failed included, are kept, as the mutable source keeps
  them.
- The wall clock is a parameter.
- Code the model cannot see is a function-typed parameter: the domain checks of
  non-numeric values, a rule's condition evaluation, a decision's expression, and
  the type, attribute, table, rule and expression builders.
- A Java `HashMap`'s iteration order is unspecified. Here it is modelled as
  insertion order. A new key goes to the end; a replaced key keeps its place.

## Model

Source paths are relative to the repository root.

| member | source | states |
|---|---|---|
| Values.FirstAttributeWith | heartdroid/src/main/java/heart/xtt/XTTModel.java:71-84 | getAttributeById and getAttributeByName, with the identifier or the name as `field`: null exactly when no attribute carries the key; otherwise an attribute of the list carrying it, and no earlier attribute carries it |
| Numeric.Precheck | heartdroid/src/main/java/heart/alsvfd/SimpleNumeric.java:284-291 | checkForExceptions passes exactly when the operand is not Null, passes the domain check and is not Any. Null gives UnknownValue first, then a rejected value gives NotInTheDomain, then Any gives UnsupportedOperation |
| Numeric.Compare | heartdroid/src/main/java/heart/alsvfd/SimpleNumeric.java:110-129 | a precheck failure is the result. Otherwise it succeeds exactly for a number or an ordered symbol, answering the operator on the number and the operand's value or order number. Any other operand is UnsupportedOperation |
| Numeric.Eq | heartdroid/src/main/java/heart/alsvfd/SimpleNumeric.java:64-73 | Null is unequal without failing, and an admitted Any is equal. An Any the domain rejects is NotInTheDomain. Anything else is the EQ comparison |
| Numeric.Neq | heartdroid/src/main/java/heart/alsvfd/SimpleNumeric.java:75-84 | Null always differs and an admitted Any never does. An Any the domain rejects is NotInTheDomain. Anything else is the NEQ comparison |
| Numeric.EqNeqDual | heartdroid/src/main/java/heart/alsvfd/SimpleNumeric.java:64-84 | neq fails exactly when eq fails, with the same error; otherwise it answers the negation of eq |
| Numeric.OrderingConsistent | heartdroid/src/main/java/heart/alsvfd/SimpleNumeric.java:86-129 | all four orderings fail with UnknownValue on Null, and lt/gt fail with UnsupportedOperation on an admitted Any. Whenever lt succeeds, exactly one of lt, eq, gt holds, with lte = lt or eq and gte = gt or eq |
| Numeric.In | heartdroid/src/main/java/heart/alsvfd/SimpleNumeric.java:131-186 | `in` reports precheck failures, and fails with UnsupportedOperation on an operand that is neither a set nor a range (its answer is given by Numeric.InMatchesMember) |
| Numeric.InMatchesMember | heartdroid/src/main/java/heart/alsvfd/SimpleNumeric.java:143-186 | on a well-formed set or range that the attribute's domain check admits, together with every element and bound inside it, `in` never fails. Values outside the set need not pass the check. It equals a reference membership: a scalar element is equal, a nested set or range contains the number, or the number lies strictly between the range bounds or on an inclusive bound |
| Numeric.InItemsMatchMember | heartdroid/src/main/java/heart/alsvfd/SimpleNumeric.java:146-162 | the loop over a set's elements, stopping at the first hit, answers the reference membership of the element list whenever the domain check admits every element |
| Numeric.NotIn | heartdroid/src/main/java/heart/alsvfd/SimpleNumeric.java:137-141 | notin fails exactly when `in` fails, with the same error; otherwise it is the negation of `in` |
| Numeric.InTheDomain | heartdroid/src/main/java/heart/alsvfd/SimpleNumeric.java:268-272 | on a well-formed domain, isInTheDomain succeeds with the reference membership of the number in the domain |
| Numeric.Factorial | heartdroid/src/main/java/heart/alsvfd/SimpleNumeric.java:217-227 | a number with a fractional part is UnsupportedOperation. A whole number below 1 gives 1; otherwise the result is the product 1·2·…·n. The receiver's certainty factor is kept |
| Operators.FindOp | heartdroid/src/main/java/heart/alsvfd/Formulae.java:62-66 | the search over the operators: the result is an operator of the list whose text equals the input ignoring case, and there is none exactly when no operator's text matches |
| Operators.OpFromString | heartdroid/src/main/java/heart/alsvfd/Formulae.java:60-69 | ConditionalOperator.fromString: null gives null. A result's text matches the input ignoring case. Null comes back for a string only when no operator matches it |
| Operators.OpTextInjective | heartdroid/src/main/java/heart/alsvfd/Formulae.java:44-48 | no two operators share a text |
| Operators.OpTextIsLower | heartdroid/src/main/java/heart/alsvfd/Formulae.java:44-48 | every operator text is lower case |
| Operators.OpRoundTrip | heartdroid/src/main/java/heart/alsvfd/Formulae.java:43-69 | fromString(getText()) is the operator, and so is fromString of any spelling that equalsIgnoreCase matches with the text |
| Operators.FindQuantifier | heartdroid/src/main/java/heart/alsvfd/Formulae.java:90-94 | the search over the quantifiers: a match ignoring case, none exactly when nothing matches |
| Operators.QuantifierFromString | heartdroid/src/main/java/heart/alsvfd/Formulae.java:88-97 | Quantifier.fromString: null gives null. A result's text matches the input ignoring case. Null comes back for a string only when no quantifier matches it |
| Operators.QuantifierTextInjective | heartdroid/src/main/java/heart/alsvfd/Formulae.java:75-77 | no two quantifiers share a text |
| Operators.QuantifierTextIsLower | heartdroid/src/main/java/heart/alsvfd/Formulae.java:75-77 | every quantifier text is lower case |
| Operators.QuantifierRoundTrip | heartdroid/src/main/java/heart/alsvfd/Formulae.java:74-97 | any spelling that equalsIgnoreCase matches with a quantifier's text parses back to that quantifier |
| Operators.FoldedOp | heartdroid/src/main/java/heart/alsvfd/Formulae.java:60-69 | any text whose letters fold one by one to an operator's text under equalsIgnoreCase (ASCII case, dotless and dotted i, long s) selects that operator |
| Operators.DottedAndDotlessISelectIn | heartdroid/src/main/java/heart/alsvfd/Formulae.java:60-69 | fromString of "ın" and of "İN" is IN, since equalsIgnoreCase folds both letters into i |
| Operators.LongSSelectsSim | heartdroid/src/main/java/heart/alsvfd/Formulae.java:60-69 | fromString of "ſim" is SIM, since equalsIgnoreCase folds the long s into s |
| Operators.DotlessISelectsMin | heartdroid/src/main/java/heart/alsvfd/Formulae.java:88-97 | Quantifier.fromString of "mın" is MIN |
| RelativeTime.UnitsAreMultiples | heartdroid/src/main/java/heart/RelativeTimestamp.java:34-36 | a minute is 60 seconds and an hour 60 minutes, in milliseconds |
| RelativeTime.MakePeriod | heartdroid/src/main/java/heart/RelativeTimePeriod.java:46-50 | both ends take the given offsets and the one unit; the step is kept |
| RelativeTime.UnitOf | heartdroid/src/main/java/heart/RelativeTimePeriod.java:70-87 | the divisor and suffix follow the magnitude of `from`: below a second "ms", below a minute "s", below an hour "m", otherwise "h". Long.MIN_VALUE, whose long negation is itself, gives "ms" |
| RelativeTime.Describe | heartdroid/src/main/java/heart/RelativeTimePeriod.java:65-90 | a state-count period prints both offsets as longs with no unit. A millisecond period prints both ends as doubles, with a suffix among ms, s, m, h |
| RelativeTime.DescribeScales | heartdroid/src/main/java/heart/RelativeTimePeriod.java:70-87 | with unit s or m, `from` shows between −60 (exclusive) and −1 units, and with unit h at most −1. With ms both offsets show unchanged; otherwise `to` times the unit's milliseconds is its offset. A `from` of Long.MIN_VALUE shows in ms |
| RelativeTime.LongText | heartdroid/src/main/java/heart/RelativeTimePeriod.java:67-68 | Long.toString is non-empty and starts with '-' exactly for negative numbers |
| RelativeTime.LongTextRoundTrip | heartdroid/src/main/java/heart/RelativeTimePeriod.java:67-68 | the printed number reads back as the number |
| RelativeTime.StateCountText | heartdroid/src/main/java/heart/RelativeTimePeriod.java:89 | a state-count period prints as `from`, the empty unit, " to ", `to` |
| Formulae.Evaluate | heartdroid/src/main/java/heart/alsvfd/Formulae.java:135-217 | without a time parameter, the operator's scalar evaluation. Under the crisp evaluator the answer is 0 or 1 without a time range, and ±1 with one. A time range never fails with AttributeNotRegistered. Any period is accepted |
| Formulae.TimeRangeAppliesTheOperator | heartdroid/src/main/java/heart/alsvfd/Formulae.java:138-210 | once its window is read, a crisp time-based condition is 1 exactly when the share of window points meeting the quantifier is reached. Each point is evaluated with the same operator in a memory holding only that point |
| Formulae.Build | heartdroid/src/main/java/heart/alsvfd/Formulae.java:281-291 | a missing attribute, operator or value is a builder error. The build succeeds exactly when both sides build; a left-side failure is the result. The formula keeps the operator, the time parameter and the built operands |
| CfAlgebra.Cumulative | heartdroid/src/main/java/heart/uncertainty/CertaintyFactorsEvaluator.java:563-572 | calculateCumulative: two non-negative factors combine so that 1−r = (1−a)(1−b), two non-positive ones so that 1+r = (1+a)(1+b), and factors of opposite signs to (a+b)/(1−min(a,b)); a pair whose product is −1 keeps the first factor |
| CfAlgebra.CumulativeNeutral | heartdroid/src/main/java/heart/uncertainty/CertaintyFactorsEvaluator.java:563-572 | 0 is neutral on both sides |
| CfAlgebra.CumulativeCommutes | heartdroid/src/main/java/heart/uncertainty/CertaintyFactorsEvaluator.java:563-572 | the combination is symmetric for all certainties except the pair {1, −1} |
| CfAlgebra.CumulativeNotCommutativeAtExtremes | heartdroid/src/main/java/heart/uncertainty/CertaintyFactorsEvaluator.java:568-571 | (1, −1) gives 1 and (−1, 1) gives −1 |
| CfAlgebra.CumulativeBounded | heartdroid/src/main/java/heart/uncertainty/CertaintyFactorsEvaluator.java:563-572 | inputs in [−1, 1] give a result in [−1, 1]. Two confirmations give one at least as strong as each, and likewise for two disconfirmations |
| CfAlgebra.FoldFromConfirms | heartdroid/src/main/java/heart/uncertainty/CertaintyFactorsEvaluator.java:550-558 | folding confirmations never weakens: the result is at least the start and every folded entry |
| CfAlgebra.CumulativeFoldBounded | heartdroid/src/main/java/heart/uncertainty/CertaintyFactorsEvaluator.java:550-558 | the fold of certainties, the body of `sim`, is a certainty; that of confirmations is at least each entry |
| CfAlgebra.MinCf | heartdroid/src/main/java/heart/uncertainty/CertaintyFactorsEvaluator.java:574-582 | getMinCF: at most 1 and at most every entry, equal to 1 or to some entry; 1 for the empty list |
| Sorting.Insert | heartdroid/src/main/java/heart/uncertainty/CertaintyFactorsEvaluator.java:345 | inserting keeps every element and adds one: the result is a permutation of the list plus the new entry |
| Sorting.InsertDescending | heartdroid/src/main/java/heart/uncertainty/CertaintyFactorsEvaluator.java:345 | inserting into a descending list keeps it descending |
| Sorting.SortDesc | heartdroid/src/main/java/heart/uncertainty/CertaintyFactorsEvaluator.java:345 | Collections.sort with reverseOrder: the result is descending and a permutation of the input |
| Sorting.SortDescSorted | heartdroid/src/main/java/heart/uncertainty/CertaintyFactorsEvaluator.java:345 | a descending list sorts to itself |
| Sorting.DescendingSigns | heartdroid/src/main/java/heart/uncertainty/CertaintyFactorsEvaluator.java:345-346 | in a descending list no negative entry comes before a non-negative one |
| Evaluators.NumberAgainstNull | heartdroid/src/main/java/heart/alsvfd/SimpleNumeric.java:64-84 | a number against Null: eq is false and neq true. The orderings and membership fail with UnknownValue |
| Evaluators.AlsvScalar | heartdroid/src/main/java/heart/uncertainty/ALSVEvaluator.java:47-154 | the answer is 1 or 0 and is 1 exactly when the crisp operator holds. It succeeds exactly when both sides and the operator succeed; otherwise the operator's failure propagates |
| CfEvaluator.CfScalar | heartdroid/src/main/java/heart/uncertainty/CertaintyFactorsEvaluator.java:51-75 | a Null left side against a non-Null right side gives 0, and so does an operator failing with UnknownValue. No other UnknownValue escapes |
| CfEvaluator.UncertainTrueValue | heartdroid/src/main/java/heart/uncertainty/CertaintyFactorsEvaluator.java:456-538 | against Null or Any the answer is ±1 by the crisp truth. A single value gives its own certainty, negated when the condition fails. UnknownValue never escapes |
| CfEvaluator.Items | heartdroid/src/main/java/heart/uncertainty/CertaintyFactorsEvaluator.java:488 | the cast to a set succeeds exactly for sets, giving their elements, and otherwise fails with ClassCast |
| CfEvaluator.Sim | heartdroid/src/main/java/heart/uncertainty/CertaintyFactorsEvaluator.java:540-561 | sim is 0 when the intersection is unknown. Otherwise it is the cumulative fold of the intersection's certainties, 0 when empty |
| CfEvaluator.CopyCf | heartdroid/src/main/java/heart/uncertainty/CertaintyFactorsEvaluator.java:587-591 | every element equal to the left element takes its certainty factor; the others are unchanged |
| CfEvaluator.CopyCfsKeepsElements | heartdroid/src/main/java/heart/uncertainty/CertaintyFactorsEvaluator.java:584-607 | copying keeps each element's payload and timestamp. Its certainty is its own or that of some left-set element |
| CfEvaluator.Complement | heartdroid/src/main/java/heart/uncertainty/CertaintyFactorsEvaluator.java:584-594 | getComplement yields a set value |
| CfEvaluator.Difference | heartdroid/src/main/java/heart/uncertainty/CertaintyFactorsEvaluator.java:596-607 | getDifference yields a set value |
| CfEvaluator.SetCertainties | heartdroid/src/main/java/heart/uncertainty/CertaintyFactorsEvaluator.java:472-518 | a holding set SIM is the fold of the intersection's certainties. A holding EQ or SUBSET is the least certainty of the left set, and a failing NEQ its negation |
| CfEvaluator.NotSimHoldsIsZero | heartdroid/src/main/java/heart/uncertainty/CertaintyFactorsEvaluator.java:479-484 | a holding NOTSIM on a set is 0 whenever it succeeds: the computed similarity is discarded |
| CfEvaluator.NonSetLeftSideFails | heartdroid/src/main/java/heart/uncertainty/CertaintyFactorsEvaluator.java:486-488 | a holding EQ with a range or Any on the left fails with ClassCast |
| CfEvaluator.ScalarCertaintySign | heartdroid/src/main/java/heart/uncertainty/CertaintyFactorsEvaluator.java:466-469 | for a confirmed single value, the certainty is above the threshold exactly when the crisp answer holds |
| TimeRanges.HistoricalValues | heartdroid/src/main/java/heart/WorkingMemory.java:340-348 | the window is read from the history plus the current state. State counts go through the state-count window and milliseconds through the time walk. Since that log is never empty, it fails only by refusing a period whose loops never end |
| TimeRanges.PointMemoryHoldsOnlyThePoint | heartdroid/src/main/java/heart/uncertainty/ALSVEvaluator.java:164-167 | a fresh memory with the written value registers only the condition's attribute. It reads that attribute as the value the write accepted, and fails exactly when the write is refused |
| TimeRanges.PointCertainties | heartdroid/src/main/java/heart/uncertainty/ALSVEvaluator.java:163-172 | one certainty per window value, each the operator evaluated in that value's point memory. A failure comes from some point's write, never AttributeNotRegistered |
| TimeRanges.Positives | heartdroid/src/main/java/heart/uncertainty/ALSVEvaluator.java:168-170 | the count of evaluations above the threshold: 0 exactly when none is above, and all exactly when all are |
| TimeRanges.PercentageBounds | heartdroid/src/main/java/heart/uncertainty/ALSVEvaluator.java:173-175 | the satisfied share is in [0, 1] and is 1 when every point is satisfied |
| TimeRanges.AlsvTimeRange | heartdroid/src/main/java/heart/uncertainty/ALSVEvaluator.java:156-205 | the crisp time range answers 1 or −1, and never fails with AttributeNotRegistered. A refused window is its failure |
| TimeRanges.AlsvTimeRangeCounts | heartdroid/src/main/java/heart/uncertainty/ALSVEvaluator.java:177-195 | when the window is read and every point evaluates, the answer is 1 exactly when the share meets the quantifier. `min 0%` and `max 100%` always hold |
| TimeRanges.PivotIsFloor | heartdroid/src/main/java/heart/uncertainty/CertaintyFactorsEvaluator.java:346 | round(n·p+0.5)−1 is ⌊n·p⌋. It lies inside a non-empty list for 0 ≤ p < 1, and one past the end for p = 1 or an empty list |
| TimeRanges.Quantified | heartdroid/src/main/java/heart/uncertainty/CertaintyFactorsEvaluator.java:348-421 | the quantifier branches only fail by reading outside the list |
| TimeRanges.CfTimeRange | heartdroid/src/main/java/heart/uncertainty/CertaintyFactorsEvaluator.java:331-431 | the certainty-factor time range never fails with AttributeNotRegistered. A refused window is its failure |
| TimeRanges.FoldUpIsFold | heartdroid/src/main/java/heart/uncertainty/CertaintyFactorsEvaluator.java:352-356 | the upward loop is the cumulative fold of the run of non-negative entries that follows the pivot |
| TimeRanges.MinConfirmed | heartdroid/src/main/java/heart/uncertainty/CertaintyFactorsEvaluator.java:349-357 | MIN with a positive pivot entry gives a certainty at least the pivot entry and every confirmation in the run after it |
| TimeRanges.CfTimeRangeEdges | heartdroid/src/main/java/heart/uncertainty/CertaintyFactorsEvaluator.java:346-391 | for an empty window MIN and EXACTLY read out of range and MAX gives −1. With p = 1, MIN and EXACTLY read one past the end |
| TimeRanges.CfQuantifierZeroAndLast | heartdroid/src/main/java/heart/uncertainty/CertaintyFactorsEvaluator.java:358-359 | a zero pivot entry makes MIN 0; a positive last pivot entry makes EXACTLY fall through to −1 |
| TimeRanges.CfTimeRangeSorts | heartdroid/src/main/java/heart/uncertainty/CertaintyFactorsEvaluator.java:345 | the list the quantifiers read is descending and a permutation of the points' certainties; a list already descending is left as it is |
| Conflicts.FireAllOf | heartdroid/src/main/java/heart/uncertainty/ConflictSetFireAll.java:11-20 | every entry, in order, with the same length |
| Conflicts.LastWinOf | heartdroid/src/main/java/heart/uncertainty/ConflictSetLastWin.java:13-17 | one entry, the last; an empty set fails with NoSuchElement |
| Conflicts.Resolve | heartdroid/src/main/java/heart/inference/InferenceAlgorithm.java:187-188 | the policy FireAll selects the whole set and LastWin its last entry |
| Conflicts.ResolveSelects | heartdroid/src/main/java/heart/inference/InferenceAlgorithm.java:179-189 | on a non-empty set both policies succeed with a non-empty selection of the set's own entries that includes the last entry |
| Ambiguity.LastCandidate | heartdroid/src/main/java/heart/uncertainty/DefaultAmbiguityResolver.java:24-30 | Null for no candidates, otherwise the last candidate |
| Ambiguity.LastCandidateIsCandidate | heartdroid/src/main/java/heart/uncertainty/DefaultAmbiguityResolver.java:24-30 | the default resolution is one of the candidates, never a merged value, unless there is none |
| Ambiguity.RegisterMerges | heartdroid/src/main/java/heart/uncertainty/CertaintyFactorsAmbiguityResolver.java:38-60 | the register holds one entry per distinct candidate payload. Each entry's certainty is the cumulative fold, in order, of that payload's candidate certainties. Its timestamp is no later than any of its candidates' (the exact value is stated by Ambiguity.RegisterTimestamps) |
| Ambiguity.FindKey | heartdroid/src/main/java/heart/uncertainty/CertaintyFactorsAmbiguityResolver.java:46 | the register position holding the payload, none exactly when no entry holds it |
| Ambiguity.EnterExisting | heartdroid/src/main/java/heart/uncertainty/CertaintyFactorsAmbiguityResolver.java:46-56 | a candidate whose payload is already registered combines its certainty with that entry's and takes the running least timestamp; the register still merges all candidates so far |
| Ambiguity.EnterFresh | heartdroid/src/main/java/heart/uncertainty/CertaintyFactorsAmbiguityResolver.java:57-59 | a candidate with a new payload is registered as itself; the register still merges all candidates so far |
| Ambiguity.MinTsBelow | heartdroid/src/main/java/heart/uncertainty/CertaintyFactorsAmbiguityResolver.java:41-45 | the running timestamp is the least of the first candidate's and every candidate's: no later than any of them, and equal to one of them |
| Ambiguity.RegisterTimestamps | heartdroid/src/main/java/heart/uncertainty/CertaintyFactorsAmbiguityResolver.java:41-59 | an entry's timestamp is read at the last candidate carrying its payload. A payload carried once keeps that candidate's own timestamp. A payload carried more than once takes the running least timestamp, from the first candidate up to and including that last one. So [x@5, y@3, x@7] gives x the timestamp 3 |
| Ambiguity.StampedExisting | heartdroid/src/main/java/heart/uncertainty/CertaintyFactorsAmbiguityResolver.java:41-56 | merging a candidate into its payload's entry stamps the entry with the running least timestamp, and every other entry keeps its stamp |
| Ambiguity.StampedFresh | heartdroid/src/main/java/heart/uncertainty/CertaintyFactorsAmbiguityResolver.java:57-59 | a candidate with a new payload keeps its own timestamp, and every other entry keeps its stamp |
| Ambiguity.Best | heartdroid/src/main/java/heart/uncertainty/CertaintyFactorsAmbiguityResolver.java:63-71 | the chosen entry is in the register and at least as certain as every entry |
| Ambiguity.MostCertain | heartdroid/src/main/java/heart/uncertainty/CertaintyFactorsAmbiguityResolver.java:34-73 | no candidates give Null and one candidate gives itself. Otherwise the result's payload is a candidate's, with the combined certainty of its candidates. No other payload's combination exceeds it. Its timestamp is exact: that of its payload's last candidate if no earlier candidate carries the payload, otherwise the running least timestamp from the first candidate up to that last one |
| Disjunctive.Admit | heartdroid/src/main/java/heart/uncertainty/CertaintyFactorsAmbiguityResolver.java:105-117 | corrected group update: a more certain rule replaces the group, an equally certain one joins it once, and a less certain one is dropped |
| Disjunctive.AdmitAsWrittenOnUniform | heartdroid/src/main/java/heart/uncertainty/CertaintyFactorsAmbiguityResolver.java:105-117 | on a group of equally certain rules the update as written agrees with the corrected one, except on a tie: there the new rule is appended once per rule already in the group |
| Disjunctive.TiedRulesFireTwice | heartdroid/src/main/java/heart/uncertainty/CertaintyFactorsAmbiguityResolver.java:105-132 | three equally certain rules with one outcome, grouped as written and fired under FireAll, fire the third rule twice |
| Disjunctive.TiedRulesDuplicated | heartdroid/src/main/java/heart/uncertainty/CertaintyFactorsAmbiguityResolver.java:105-117 | two rules of certainty 0.5 and a third tied with them: as written the third is appended twice, corrected once |
| Disjunctive.AdmitEachUniform | heartdroid/src/main/java/heart/uncertainty/CertaintyFactorsAmbiguityResolver.java:107-116 | the loop over a uniform group as written: a more certain rule leaves only itself, a less certain one is dropped, and a tied one is appended once per existing rule |
| Disjunctive.GroupsAsWrittenJoin | heartdroid/src/main/java/heart/uncertainty/CertaintyFactorsAmbiguityResolver.java:105-117 | as written, a rule whose outcome already has a group goes through the as-written update of that group |
| Disjunctive.Groups | heartdroid/src/main/java/heart/uncertainty/CertaintyFactorsAmbiguityResolver.java:97-124 | the grouping with the corrected update holds one group per distinct outcome, containing exactly the most certain rules of that outcome in conflict-set order |
| Disjunctive.FindGroup | heartdroid/src/main/java/heart/uncertainty/CertaintyFactorsAmbiguityResolver.java:105 | the group of an outcome, none exactly when no group has that outcome |
| Disjunctive.GroupStep | heartdroid/src/main/java/heart/uncertainty/CertaintyFactorsAmbiguityResolver.java:97-124 | one conflict-set entry keeps the grouping exact: one group per outcome, holding that outcome's most certain rules |
| Disjunctive.GroupExisting | heartdroid/src/main/java/heart/uncertainty/CertaintyFactorsAmbiguityResolver.java:105-117 | a rule of an outcome already grouped, admitted with the corrected update, keeps the grouping exact |
| Disjunctive.GroupFresh | heartdroid/src/main/java/heart/uncertainty/CertaintyFactorsAmbiguityResolver.java:118-122 | a rule of a new outcome opens a group of its own and keeps the grouping exact |
| Disjunctive.DistinctKeysCount | heartdroid/src/main/java/heart/uncertainty/CertaintyFactorsAmbiguityResolver.java:97-124 | groups with distinct outcomes are as many as their outcomes |
| Disjunctive.TopCf | heartdroid/src/main/java/heart/uncertainty/CertaintyFactorsAmbiguityResolver.java:105-117 | the top certainty of an outcome is at least every rule's certainty with that outcome and is attained by one of them |
| Disjunctive.TopsAboveTop | heartdroid/src/main/java/heart/uncertainty/CertaintyFactorsAmbiguityResolver.java:109-112 | no rule reaches a certainty above every rule of the outcome |
| Disjunctive.TopsUniform | heartdroid/src/main/java/heart/uncertainty/CertaintyFactorsAmbiguityResolver.java:113-114 | the most certain rules of an outcome all share one certainty |
| Disjunctive.TopsNonEmpty | heartdroid/src/main/java/heart/uncertainty/CertaintyFactorsAmbiguityResolver.java:105-117 | every outcome of the conflict set has at least one most certain rule |
| Disjunctive.TopsContains | heartdroid/src/main/java/heart/uncertainty/CertaintyFactorsAmbiguityResolver.java:113-114 | every rule of the outcome at the top certainty is among its most certain rules |
| Disjunctive.TopsFrom | heartdroid/src/main/java/heart/uncertainty/CertaintyFactorsAmbiguityResolver.java:105-117 | every most certain rule of an outcome comes from the conflict set, with that outcome and certainty |
| Disjunctive.ResolveDisjunctive | heartdroid/src/main/java/heart/uncertainty/DefaultAmbiguityResolver.java:41-44 | corrected as in the second finding, since the certainty-factor branch groups through the corrected Disjunctive.Admit: the default resolver applies the policy to the whole conflict set; the certainty-factor resolver applies it to each outcome group |
| Disjunctive.ResolveGroupsSelectsTops | heartdroid/src/main/java/heart/uncertainty/CertaintyFactorsAmbiguityResolver.java:126-132 | no group makes a policy fail. Every selected rule is among the most certain of its outcome, and LastWin keeps one per outcome |
| Disjunctive.CfDisjunctiveSelectsMostCertain | heartdroid/src/main/java/heart/uncertainty/CertaintyFactorsAmbiguityResolver.java:94-133 | the certainty-factor resolver fires, per outcome, only rules of the highest certainty for it. Under LastWin it fires exactly one per outcome |
| Disjunctive.DefaultIgnoresCertainties | heartdroid/src/main/java/heart/uncertainty/DefaultAmbiguityResolver.java:41-44 | two conflict sets listing the same rules resolve alike whatever their certainties |
| Memory.InDomain | heartdroid/src/main/java/heart/alsvfd/SimpleNumeric.java:268-272 | a number's domain test, on a well-formed domain, is the reference membership |
| Memory.Coerce | heartdroid/src/main/java/heart/WorkingMemory.java:692-730 | Null is stored as is, a value outside the domain is NotInTheDomain, and an undecidable one becomes Null. A stored non-Null value passed the domain test; it is the value itself, or its conversion between number and ordered symbol |
| Memory.Store | heartdroid/src/main/java/heart/WorkingMemory.java:732-736 | unlocked, the value overwrites the committed one. Locked, a Null clears the candidates and is committed, and any other value joins the candidates |
| Memory.Commit | heartdroid/src/main/java/heart/WorkingMemory.java:742-750 | resolving then clearing leaves no candidate and keeps the attribute |
| Memory.SettleUnobservable | heartdroid/src/main/java/heart/WorkingMemory.java:634-635 | the resolution a read performs changes no later read, store or commit, and is idempotent |
| Memory.ReadAfterStore | heartdroid/src/main/java/heart/WorkingMemory.java:732-759 | after an unlocked write with nothing pending, the read is the new value; pending candidates still win. A locked Null reads as itself, and a locked value is resolved with the earlier candidates |
| Memory.Register | heartdroid/src/main/java/heart/WorkingMemory.java:168-176 | the attribute is registered afterwards. An existing entry is kept as it was; a new one holds Null |
| Memory.RegisterIdempotent | heartdroid/src/main/java/heart/WorkingMemory.java:168-176 | registering twice is registering once, and a fresh registration reads Null |
| Memory.RegisterAll | heartdroid/src/main/java/heart/WorkingMemory.java:196-200 | every model attribute is registered, existing entries are untouched, and no other name appears |
| Memory.Unregister | heartdroid/src/main/java/heart/WorkingMemory.java:209-211 | the name's entry is gone, others are unchanged, and the name reads Null |
| Memory.UnregisterAll | heartdroid/src/main/java/heart/WorkingMemory.java:219-223 | every model attribute is unregistered; every other entry stays as it was |
| Memory.AttributeOf | heartdroid/src/main/java/heart/WorkingMemory.java:225-227 | an unregistered name fails with NullPointer; otherwise the registered attribute |
| Memory.GetValue | heartdroid/src/main/java/heart/WorkingMemory.java:236-243 | an unregistered name reads Null |
| Memory.Write | heartdroid/src/main/java/heart/WorkingMemory.java:430-437 | an unregistered name is AttributeNotRegistered and a refused value fails with the coercion's error. Otherwise only that entry changes, by storing the coerced value |
| Memory.WriteIsLocal | heartdroid/src/main/java/heart/WorkingMemory.java:430-437 | a write changes no other attribute's read and keeps the keys, history, snapshots, lock and resolver |
| Memory.WriteThenRead | heartdroid/src/main/java/heart/WorkingMemory.java:692-736 | Null is always accepted. An accepted write, made unlocked with nothing pending, reads back as the coerced value |
| Memory.WriteAttribute | heartdroid/src/main/java/heart/WorkingMemory.java:451-456 | corrected setAttributeValue(attribute, value, autoregister): with autoregistration the attribute is registered whatever the write does, and a refused value leaves it registered and reading as before; the write succeeds exactly when the domain accepts the value. Without autoregistration an unregistered attribute fails with AttributeNotRegistered. Only entries change, none is dropped, and UnknownValue never escapes |
| Memory.WriteAttributeDiscrepancy | heartdroid/src/main/java/heart/WorkingMemory.java:451-456 | as written, the call fails with NullPointer exactly where the corrected one reports AttributeNotRegistered; elsewhere they agree |
| Memory.StateValue | heartdroid/src/main/java/heart/WorkingMemory.java:279-283 | a state's value for an attribute, Null when it has none |
| Memory.SetCurrentState | heartdroid/src/main/java/heart/WorkingMemory.java:125-130 | corrected as in the first finding, since it writes through the corrected setAttributeValue: without autoregistration an unregistered first attribute fails with AttributeNotRegistered (the source throws NullPointerException). A failing first write ends the walk with exactly the memory that write leaves, its registration included. With autoregistration the first attribute is registered in every outcome, and every model attribute when the walk gets through. Lock, history and resolver are kept in every outcome, and UnknownValue never escapes |
| Memory.SetCurrentStateSplits | heartdroid/src/main/java/heart/WorkingMemory.java:125-130 | writing the attributes one at a time: walking a list is walking its first k attributes, then the rest from the memory that reached, unless the first part already failed |
| Memory.SetCurrentStateStops | heartdroid/src/main/java/heart/WorkingMemory.java:125-130 | when the first k attributes are written and attribute k is refused, the walk ends with the memory that refused write leaves. With autoregistration attributes 0 to k are then registered |
| Memory.RefusedSecondValue | heartdroid/src/main/java/heart/WorkingMemory.java:125-130 | two fresh attributes, the first value accepted and the second refused as outside its domain: the walk escapes with NotInTheDomain, the first value is stored, and the second attribute is registered holding Null |
| Memory.CurrentState | heartdroid/src/main/java/heart/WorkingMemory.java:138-144 | the state has exactly the registered names, each with its read value, stamped now |
| Memory.CurrentStateOf | heartdroid/src/main/java/heart/WorkingMemory.java:152-160 | the state has exactly the model's attribute names, each with its read value (Null when unregistered) |
| Memory.ResolveAll | heartdroid/src/main/java/heart/WorkingMemory.java:464-469 | every entry is left without candidates and keeps its attribute; keys, history, snapshots, lock and resolver are kept |
| Memory.ResolveAllKeepsReads | heartdroid/src/main/java/heart/WorkingMemory.java:464-469 | resolving changes no read and is idempotent |
| Memory.Append | heartdroid/src/main/java/heart/WorkingMemory.java:537-540 | the new state ends the log, and the log never grows beyond MAX_HISTORY_SIZE. The oldest state is evicted only when the log is full |
| Memory.AppendKeepsSuffix | heartdroid/src/main/java/heart/WorkingMemory.java:534-541 | one append to a bounded suffix of the log keeps it a bounded suffix of the longer log |
| Memory.AppendAllIsSuffix | heartdroid/src/main/java/heart/WorkingMemory.java:534-541 | the log is always the most recent suffix of everything appended |
| Memory.RecordLog | heartdroid/src/main/java/heart/WorkingMemory.java:534-541 | the current state is appended to the log; nothing else changes |
| Memory.MakeSnapshot | heartdroid/src/main/java/heart/WorkingMemory.java:509-515 | the current state is stored under the name, replacing an earlier one, and logged |
| Memory.Snapshot | heartdroid/src/main/java/heart/WorkingMemory.java:523-525 | the snapshot of that name exactly when one exists |
| Memory.LockTime | heartdroid/src/main/java/heart/WorkingMemory.java:576-579 | locked, frozen at the wall clock of the call, entries kept |
| Memory.UnlockTime | heartdroid/src/main/java/heart/WorkingMemory.java:581-583 | unlocked, everything else kept |
| Memory.LockFreezesTime | heartdroid/src/main/java/heart/WorkingMemory.java:564-583 | while locked, now is the lock time whatever the wall clock, and a write does not move it. After unlocking, now is the wall clock again |
| Memory.SetResolver | heartdroid/src/main/java/heart/WorkingMemory.java:484-492 | the resolver is replaced; entries and lock are kept |
| Memory.FirstAtOrAfter | heartdroid/src/main/java/heart/WorkingMemory.java:306-316 | the first state at or after a time, none exactly when every state is earlier |
| Memory.StartPosition | heartdroid/src/main/java/heart/WorkingMemory.java:318-321 | the position read is inside the log. A negative long sum offset + size reads position 0, or fails with NoSuchElement on an empty log. An offset in [−size, 0) reads size + offset, and an offset in [0, MaxInt − size] fails with IndexOutOfBounds. Otherwise the position is size + offset taken as a 32-bit int, and it fails exactly when that is outside the log |
| Memory.StartPositionWraps | heartdroid/src/main/java/heart/WorkingMemory.java:319-320 | the offset 2^32 − 1 reads the last state, 2^32 reads past the end, and the largest long wraps the sum and reads the first state |
| Memory.StateAtCount | heartdroid/src/main/java/heart/WorkingMemory.java:318-321 | succeeds exactly when the start position does, with the state at that position. An offset in [−size, 0) gives the state that many from the end, and an earlier offset the first state |
| Memory.StateAtTime | heartdroid/src/main/java/heart/WorkingMemory.java:304-317 | the first state at or after the long sum now + offset, or an empty state when there is none |
| Memory.FindHistoricalState | heartdroid/src/main/java/heart/WorkingMemory.java:301-324 | dispatch on the unit to the two lookups |
| Memory.FindHistoricalValue | heartdroid/src/main/java/heart/WorkingMemory.java:279-283 | succeeds exactly when the state is found, then the attribute's value there |
| Memory.PadStep | heartdroid/src/main/java/heart/WorkingMemory.java:398-400 | one step of the padding counter is exact, or wraps below Long.MIN_VALUE to a number that is not negative |
| Memory.PadCountCovers | heartdroid/src/main/java/heart/WorkingMemory.java:398-402 | with a positive step the padding is the number of steps needed to cover the missing states, none when none is missing. With a negative step it is the number of steps down to Long.MIN_VALUE plus the one that wraps |
| Memory.NextIndex | heartdroid/src/main/java/heart/WorkingMemory.java:408 | `index += step` adds the long step and narrows to int: the same as adding the step's own int value with int wrap-around |
| Memory.NextIndexMoves | heartdroid/src/main/java/heart/WorkingMemory.java:406-408 | from a sampled index, a step whose int value is positive moves up or wraps to a negative index; a negative one moves down by that much |
| Memory.SamplesAt | heartdroid/src/main/java/heart/WorkingMemory.java:406-411 | the samples are the states at index, index + step, index + 2·step, … in int arithmetic, while in the log and the period |
| Memory.SamplesUnitStep | heartdroid/src/main/java/heart/WorkingMemory.java:406-411 | with step 1 the samples are the consecutive states up to the first one outside the log or the period |
| Memory.SamplesBackStep | heartdroid/src/main/java/heart/WorkingMemory.java:406-411 | with step −1 the samples are the states from the index back to the first, newest first |
| Memory.WindowOverStateCount | heartdroid/src/main/java/heart/WorkingMemory.java:394-417 | an out-of-range start gives no values, and an empty log fails with NoSuchElement. It refuses with IllegalArgument exactly the periods whose loops never end. Otherwise the window is one Null per step of the padding counter, then the samples from the start state. A start offset in [0, MaxInt − size] gives no values |
| Memory.WindowWalksBack | heartdroid/src/main/java/heart/WorkingMemory.java:394-417 | the window from −n to 0 with step −1 is the values of the n-th last state back to the first, newest first, with no padding |
| Memory.PadLoopAgrees | heartdroid/src/main/java/heart/WorkingMemory.java:398-402 | the padding loop as written never ends with step 0 from a negative start. When it ends it adds PadCount Nulls, and it ends once the fuel covers them |
| Memory.SampleLoopAgrees | heartdroid/src/main/java/heart/WorkingMemory.java:406-411 | the sampling loop as written never ends when the step's int value is 0 and the first index is sampled. When it ends it gives Samples, and it ends once the fuel covers them |
| Memory.WindowAsWrittenAgrees | heartdroid/src/main/java/heart/WorkingMemory.java:394-417 | the window as written never ends on the periods the corrected window refuses. When it ends it equals the corrected window, and on every other period it ends once the fuel covers the result |
| Memory.ZeroStepNeverEnds | heartdroid/src/main/java/heart/WorkingMemory.java:398-411 | with four states, the period from −2 to 0 with step 0 samples forever and the period from −5 to 0 with step 0 pads forever; the corrected window refuses both |
| Memory.WindowOfLastStates | heartdroid/src/main/java/heart/WorkingMemory.java:394-417 | the window from −n to 0 with step 1 is the attribute's values in the last n states, oldest first |
| Memory.WindowPadsBeforeHistory | heartdroid/src/main/java/heart/WorkingMemory.java:398-411 | a window reaching before the log pads one Null per missing state, then yields every state |
| Widths.ToLong | heartdroid/src/main/java/heart/WorkingMemory.java:398-400 | long arithmetic: a result in the long range is exact, and any result differs from the exact one by a multiple of 2^64 |
| Widths.ToInt | heartdroid/src/main/java/heart/WorkingMemory.java:320 | the (int) cast and int arithmetic: a value in the int range is kept, and any result differs from the exact one by a multiple of 2^32 |
| Widths.ToIntOfSum | heartdroid/src/main/java/heart/WorkingMemory.java:320 | casting an operand to int before an int addition gives the int of the exact sum |
| Widths.ToIntOfLong | heartdroid/src/main/java/heart/WorkingMemory.java:408 | narrowing a long sum to int is narrowing the exact sum |
| Widths.NegateLong | heartdroid/src/main/java/heart/RelativeTimePeriod.java:71 | long negation is exact except at Long.MIN_VALUE, whose negation is itself |
| Rules.Execute | heartdroid/src/main/java/heart/xtt/Decision.java:68-93 | the written value carries the rule's certainty (as a copy; see Left out) and is written with autoregistration. The memory is the one the write leaves, so a refused value leaves the attribute registered. SecurityException, IllegalArgument and AttributeNotRegistered become `false`; other failures propagate, and an execution that reports a write never escapes |
| Rules.ExecuteWritesItsAttribute | heartdroid/src/main/java/heart/xtt/Decision.java:68-93 | execution touches only the decision's attribute, which is registered as soon as the expression evaluates, even when the value is refused. Only the domain check can make the write fail, and a refused write leaves the attribute registered and reading as before |
| Rules.ExecuteSetsCertainty | heartdroid/src/main/java/heart/xtt/Decision.java:70-72 | an execution that reports a write had an evaluated expression whose value the domain accepted. The attribute reads back the value with the rule's certainty while unlocked; while locked it joins the candidates |
| Rules.ExecuteDecisions | heartdroid/src/main/java/heart/inference/InferenceAlgorithm.java:189-191 | a rule's decisions run in order with the rule's certainty. A failure that escapes is never one Decision.execute catches. A failing first decision escapes with the memory its execution leaves, so the attribute it registered stays registered |
| Rules.ExecuteDecisionsFramed | heartdroid/src/main/java/heart/inference/InferenceAlgorithm.java:189-191 | executing decisions changes only entries and drops none. The first decision's attribute is registered once its expression evaluates, whatever happens afterwards |
| Rules.BuildDecision | heartdroid/src/main/java/heart/xtt/Decision.java:105-121 | a missing part or an unknown attribute name is a builder error; otherwise the decision writes that attribute |
| Inference.ResolverOf | heartdroid/src/main/java/heart/uncertainty/ALSVEvaluator.java:223-225 | the crisp evaluator uses the default resolver and the certainty-factor evaluator the certainty-factor one (CertaintyFactorsEvaluator.java:627-630) |
| Inference.PreExecute | heartdroid/src/main/java/heart/inference/InferenceAlgorithm.java:92-94 | time is locked at the wall clock; entries and history are kept |
| Inference.PostExecute | heartdroid/src/main/java/heart/inference/InferenceAlgorithm.java:101-105 | unlocked, no candidate pending, and the resolved state appended to the log |
| Inference.PostExecuteLogsResolvedValues | heartdroid/src/main/java/heart/inference/InferenceAlgorithm.java:101-105 | reads are unchanged. The logged state carries the wall clock and every registered attribute's resolved value |
| Inference.ConflictSet | heartdroid/src/main/java/heart/inference/InferenceAlgorithm.java:153-175 | only admitted rules, in rule order, and every passing rule. An unknown value skips a rule; any other failure is some rule's condition failure |
| Inference.Weighted | heartdroid/src/main/java/heart/inference/InferenceAlgorithm.java:165-169 | a passing rule enters the conflict set with its condition's certainty weighted by the rule's certainty factor, above the threshold |
| Inference.Outcome | heartdroid/src/main/java/heart/uncertainty/CertaintyFactorsAmbiguityResolver.java:99-102 | the decisions' values without certainty or timestamp, in order, or the first failing expression's error |
| Inference.WithOutcomes | heartdroid/src/main/java/heart/uncertainty/CertaintyFactorsAmbiguityResolver.java:98-102 | every conflict-set entry is paired, in order, with the outcome of its rule's decisions |
| Inference.Select | heartdroid/src/main/java/heart/inference/InferenceAlgorithm.java:187-188 | corrected as in the second finding, since the certainty-factor resolver groups through the corrected Disjunctive.Admit: the selection only holds conflict-set entries. It is the policy itself under the crisp evaluator, and non-empty for a non-empty set there. Under the certainty-factor evaluator a decision that fails to evaluate fails the selection with its error; otherwise the selection is the certainty-factor resolution, under the policy, of the entries keyed by their outcomes |
| Inference.RunRules | heartdroid/src/main/java/heart/inference/InferenceAlgorithm.java:150-210 | corrected as in the second finding, since it selects through Inference.Select: NotInTheDomain never escapes. When it comes from the conditions the table ends quietly with the memory unchanged; when it comes from a fired decision the table ends quietly with the memory the firing reached, so what was written and registered stays. Any other failure of the conditions or the firing escapes |
| Inference.RunRulesFramed | heartdroid/src/main/java/heart/inference/InferenceAlgorithm.java:150-210 | firing changes only entries, never drops one, and changes nothing when no rule is admitted |
| Inference.FireFramed | heartdroid/src/main/java/heart/inference/InferenceAlgorithm.java:189-200 | firing the selected rules changes only entries and drops none |
| Inference.OnlyAdmittedRulesFire | heartdroid/src/main/java/heart/inference/InferenceAlgorithm.java:165-191 | every executed rule passed the threshold after weighting. Crisp with FireAll executes every admitted rule in order |
| Inference.Loop | heartdroid/src/main/java/heart/inference/InferenceAlgorithm.java:253-263 | NotInTheDomain never escapes the loop |
| Inference.LoopSplits | heartdroid/src/main/java/heart/inference/InferenceAlgorithm.java:253-263 | the upper part of the stack fires entirely before the lower part |
| Inference.LoopFramed | heartdroid/src/main/java/heart/inference/InferenceAlgorithm.java:253-263 | the loop only changes entries; in particular time stays locked |
| Inference.Start | heartdroid/src/main/java/heart/inference/InferenceAlgorithm.java:246-271 | a failing initial stack escapes before the `try`. Otherwise no interrupting failure escapes. A failing initial state skips the loop, and the memory it reached, with earlier writes and the failing attribute's registration, is post-executed and logged |
| Inference.StartEndsUnlocked | heartdroid/src/main/java/heart/inference/InferenceAlgorithm.java:246-271 | once the stack is built, in every outcome: the cycle ends unlocked with no candidate, the resolver installed and one more state logged. When the first k initial attributes are written, attributes 0 to k are registered, including the failing one; all of them are registered when the initial state is written in full. A failing stack leaves time locked and the log as it was |
| Inference.RefusedInitialValueIsLogged | heartdroid/src/main/java/heart/inference/InferenceAlgorithm.java:249-270 | two fresh attributes, the first value accepted and the second refused as outside its domain: the inference ends quietly, both are registered, and the logged state holds the first value and Null for the second |
| Ordering.FixedForAttributes | heartdroid/src/main/java/heart/inference/FixedOrderInference.java:36-41 | always UnsupportedOperation |
| Ordering.Named | heartdroid/src/main/java/heart/inference/FixedOrderInference.java:47-51 | the positions of the tables carrying the name, in model order |
| Ordering.PushNamed | heartdroid/src/main/java/heart/inference/FixedOrderInference.java:47-51 | every table of that name is pushed, in model order |
| Ordering.FixedForTables | heartdroid/src/main/java/heart/inference/FixedOrderInference.java:43-54 | the names are walked last to first, so the tables fire in the listed order, the tables of one name last-defined first |
| Ordering.FiringOrderConcat | heartdroid/src/main/java/heart/inference/FixedOrderInference.java:46 | two name lists fire one after the other, so a repeated name fires again |
| Ordering.FiringOrderOfOneName | heartdroid/src/main/java/heart/inference/FixedOrderInference.java:47-50 | an unknown name contributes nothing; a name carried by one table fires it alone |
| Ordering.Producers | heartdroid/src/main/java/heart/inference/GoalDrivenInference.java:97-105 | exactly the tables, in model order, concluding the attribute |
| Ordering.ResolveTable | heartdroid/src/main/java/heart/inference/GoalDrivenInference.java:107-114 | the first table of that name, none when no table carries it |
| Ordering.Without | heartdroid/src/main/java/heart/inference/GoalDrivenInference.java:81 | removeAll: the elements not in the second list, in order |
| Ordering.NeighboursOf | heartdroid/src/main/java/heart/inference/GoalDrivenInference.java:78-83 | the producers of the precondition attributes, each once |
| Ordering.Enqueue | heartdroid/src/main/java/heart/inference/GoalDrivenInference.java:85-90 | only tables neither grey nor visited are pushed and made grey |
| Ordering.EnqueueOne | heartdroid/src/main/java/heart/inference/GoalDrivenInference.java:85-90 | a single neighbour neither grey nor visited is made grey and pushed |
| Ordering.Neighbours | heartdroid/src/main/java/heart/inference/GoalDrivenInference.java:78-83 | the neighbours of a table are exactly the tables concluding one of its precondition attributes, each once |
| Ordering.FeedsShares | heartdroid/src/main/java/heart/inference/GoalDrivenInference.java:78-83 | a table feeds a precondition exactly when they share an attribute |
| Ordering.Step | heartdroid/src/main/java/heart/inference/GoalDrivenInference.java:76-92 | one round keeps positions in range and makes progress |
| Ordering.StepShape | heartdroid/src/main/java/heart/inference/GoalDrivenInference.java:76-90 | after one round the queue is the new neighbours, each a producer of the popped table and neither grey nor visited, in front of the rest of the queue |
| Ordering.StepToOne | heartdroid/src/main/java/heart/inference/GoalDrivenInference.java:76-90 | a table with a single fresh neighbour leaves only that neighbour queued |
| Ordering.StepToNone | heartdroid/src/main/java/heart/inference/GoalDrivenInference.java:76-90 | a table with no neighbours leaves the queue empty |
| Ordering.Dive | heartdroid/src/main/java/heart/inference/GoalDrivenInference.java:72-95 | the grey set only grows and stays within the model's tables, and the visits extend the earlier ones by at least every queued table |
| Ordering.DiveInRange | heartdroid/src/main/java/heart/inference/GoalDrivenInference.java:72-95 | the dive visits only model tables |
| Ordering.DiveChains | heartdroid/src/main/java/heart/inference/GoalDrivenInference.java:72-95 | every table the dive visits after the first produces something for a table visited before it |
| Ordering.DiveAvoidsGrey | heartdroid/src/main/java/heart/inference/GoalDrivenInference.java:86-89 | a table grey before the dive, and not queued, is never visited by it |
| Ordering.DiveFromOne | heartdroid/src/main/java/heart/inference/GoalDrivenInference.java:76-91 | diving from one table is visiting it, then diving from its fresh neighbours |
| Ordering.BFSDive | heartdroid/src/main/java/heart/inference/GoalDrivenInference.java:72-95 | the starter is visited first, and only model tables are visited |
| Ordering.BFSDiveOrder | heartdroid/src/main/java/heart/inference/GoalDrivenInference.java:72-95 | every table visited after the starter produces something for a table visited earlier, and was not grey before |
| Ordering.FromStarters | heartdroid/src/main/java/heart/inference/GoalDrivenInference.java:56-70 | every starter is visited, only model tables are visited, and the grey set only grows within the model's tables |
| Ordering.FirstStarterFiresFirst | heartdroid/src/main/java/heart/inference/GoalDrivenInference.java:56-70 | the first starter's branch fires first, deepest producer first and the starter last |
| Ordering.PushResolved | heartdroid/src/main/java/heart/inference/GoalDrivenInference.java:43-54 | only model tables end up on the stack |
| Ordering.PushResolvedReverses | heartdroid/src/main/java/heart/inference/GoalDrivenInference.java:46-51 | the stack is the resolved tables, last resolving name first, in front of the given starters; names no table carries are skipped |
| Ordering.GoalStarters | heartdroid/src/main/java/heart/inference/GoalDrivenInference.java:32-37 | a table is a starter exactly when it concludes an attribute that some goal names; a goal naming no model attribute contributes none |
| Ordering.GoalForAttributes | heartdroid/src/main/java/heart/inference/GoalDrivenInference.java:31-41 | the goal-attribute stack holds only model tables (its order is stated by Ordering.FirstGoalProducerFiresFirst) |
| Ordering.FirstGoalProducerFiresFirst | heartdroid/src/main/java/heart/inference/GoalDrivenInference.java:31-41 | for any model and goals: when some table concludes a goal attribute, the branch below the first such table fires first, deepest producer first, and ends with that table |
| Ordering.GoalForTables | heartdroid/src/main/java/heart/inference/GoalDrivenInference.java:43-54 | the goal-table stack holds only model tables (its order is stated by Ordering.LastGoalTableFiresFirst) |
| Ordering.LastGoalTableFiresFirst | heartdroid/src/main/java/heart/inference/GoalDrivenInference.java:47-61 | the last resolving goal name's branch fires first, its own table last; with goals [X, Y], Y's branch fires before X |
| Ordering.PathDive | heartdroid/src/main/java/heart/inference/GoalDrivenInference.java:72-95 | on a producer path 0 → 1 → 2 the dive from 0 visits 0, 1, 2 |
| Ordering.PathDiveLast | heartdroid/src/main/java/heart/inference/GoalDrivenInference.java:72-95 | a queued table without neighbours is visited and ends the dive: 0, 1 then 2 |
| Ordering.PathDiveTail | heartdroid/src/main/java/heart/inference/GoalDrivenInference.java:72-95 | on the path 1 → 2, a dive with 0 visited and 1 queued visits 0, 1, 2 |
| Ordering.ChainNeighbours | heartdroid/src/main/java/heart/inference/GoalDrivenInference.java:78-83 | in the chain A ← B ← C each table's only neighbour is the next one, and only A concludes the goal |
| Ordering.ChainFiresProducersFirst | heartdroid/src/main/java/heart/inference/GoalDrivenInference.java:64-69 | for the chain A ← B ← C and goal a, the firing order is C, B, A |
| ModelBuilder.KeysOf | heartdroid/src/main/java/heart/xtt/XTTModel.java:377-390 | the keys of an attribute are its name and its abbreviation, each once |
| Registries.Put | heartdroid/src/main/java/heart/xtt/XTTModel.java:369-406 | HashMap.put: the key maps to the value, a new key is iterated last and a replaced key keeps its place |
| Registries.Remove | heartdroid/src/main/java/heart/xtt/XTTModel.java:408-472 | HashMap.remove: the key is gone and the rest keep their order; an absent key changes nothing |
| Registries.PutThenRemove | heartdroid/src/main/java/heart/xtt/XTTModel.java:369-413 | putting a new key and removing it restores the registry, order included |
| Registries.RemovePutSwap | heartdroid/src/main/java/heart/xtt/XTTModel.java:369-413 | removing a key commutes with putting another, new key |
| ModelBuilder.AddUnder | heartdroid/src/main/java/heart/xtt/XTTModel.java:369-406 | fails with a builder error, leaving the registry, exactly when some key is taken; otherwise the element is under each key |
| ModelBuilder.AddType | heartdroid/src/main/java/heart/xtt/XTTModel.java:369-376 | fails exactly on a registered name; otherwise registered under the name, all else kept |
| ModelBuilder.AddAttribute | heartdroid/src/main/java/heart/xtt/XTTModel.java:377-390 | fails exactly when the name or abbreviation is taken; otherwise registered under both, all else kept |
| ModelBuilder.AddTable | heartdroid/src/main/java/heart/xtt/XTTModel.java:399-406 | fails exactly on a registered name; otherwise registered |
| ModelBuilder.AddRule | heartdroid/src/main/java/heart/xtt/XTTModel.java:391-398 | fails exactly on a registered name; otherwise registered |
| ModelRemovals.RemoveTypeNamed | heartdroid/src/main/java/heart/xtt/XTTModel.java:408-413 | the key is gone; an absent name changes nothing |
| ModelRemovals.RemoveTableNamed | heartdroid/src/main/java/heart/xtt/XTTModel.java:467-472 | the key is gone; an absent name changes nothing |
| ModelRemovals.RemoveRuleNamed | heartdroid/src/main/java/heart/xtt/XTTModel.java:450-465 | the key is gone; an absent name changes nothing |
| ModelRemovals.RemoveAttributeNamed | heartdroid/src/main/java/heart/xtt/XTTModel.java:435-443 | the name and the builder's abbreviation are removed; an absent name changes nothing |
| ModelRemovals.RemoveAttributeAbbreviatedAsWritten | heartdroid/src/main/java/heart/xtt/XTTModel.java:444-446 | as written: only the abbreviation key is removed |
| ModelRemovals.RemoveAttributeAbbreviated | heartdroid/src/main/java/heart/xtt/XTTModel.java:444-446 | corrected: both keys of the attribute under the abbreviation are removed |
| ModelRemovals.AbbreviatedRemovalKeepsName | heartdroid/src/main/java/heart/xtt/XTTModel.java:444-446 | removing `temperature` by `t` as written leaves `temperature` registered; corrected, it does not |
| ModelRemovals.AddThenRemoveAttribute | heartdroid/src/main/java/heart/xtt/XTTModel.java:377-443 | adding an attribute and removing it by name restores the builder |
| ModelRemovals.AddThenRemoveAbbreviated | heartdroid/src/main/java/heart/xtt/XTTModel.java:377-446 | adding an abbreviated attribute and removing it by abbreviation (corrected) restores the builder |
| ModelRemovals.FirstKeyWithId | heartdroid/src/main/java/heart/xtt/XTTModel.java:421-427 | the first key in iteration order whose builder has the id, none exactly when no builder has it |
| ModelRemovals.RemoveAttributeWithId | heartdroid/src/main/java/heart/xtt/XTTModel.java:418-433 | only that first key is removed; nothing changes when no builder has the id |
| ModelSetters.AddAll | heartdroid/src/main/java/heart/xtt/XTTModel.java:330-357 | the registry stays valid, and a failure is a builder error |
| ModelSetters.AddAllSucceeds | heartdroid/src/main/java/heart/xtt/XTTModel.java:330-357 | the set methods succeed exactly when no key repeats and none is taken |
| ModelSetters.AddAllKeys | heartdroid/src/main/java/heart/xtt/XTTModel.java:330-357 | on success the keys are the old keys plus exactly the items' keys |
| ModelSetters.AddAllRegisters | heartdroid/src/main/java/heart/xtt/XTTModel.java:330-357 | on success every item is under each of its keys |
| ModelSetters.SetTypes | heartdroid/src/main/java/heart/xtt/XTTModel.java:330-336 | succeeds exactly when no name repeats; then holds exactly the given types |
| ModelSetters.SetTables | heartdroid/src/main/java/heart/xtt/XTTModel.java:351-357 | succeeds exactly when no name repeats; then holds exactly the given tables |
| ModelSetters.SetRules | heartdroid/src/main/java/heart/xtt/XTTModel.java:344-350 | succeeds exactly when no name repeats; then holds exactly the given rules |
| ModelSetters.SetAttributes | heartdroid/src/main/java/heart/xtt/XTTModel.java:337-343 | succeeds exactly when no name or abbreviation repeats; then every attribute is under its keys |
| ModelSetters.AddAllAttributes | heartdroid/src/main/java/heart/xtt/XTTModel.java:337-343 | when no key repeats, every given attribute is registered under its name and its abbreviation |
| ModelBuild.BuildTypes | heartdroid/src/main/java/heart/xtt/XTTModel.java:191-199 | succeeds exactly when every type builds, keeping each under its key |
| ModelBuild.BuildAttributes | heartdroid/src/main/java/heart/xtt/XTTModel.java:201-218 | succeeds exactly when every attribute's type is defined and it builds; an undefined type is a builder error |
| ModelBuild.BuildAttributesKeys | heartdroid/src/main/java/heart/xtt/XTTModel.java:212-216 | attributes are stored only under their own keys, each under its keys unless a later one replaces it |
| ModelBuild.BuildTables | heartdroid/src/main/java/heart/xtt/XTTModel.java:220-244 | succeeds exactly when every table uses only defined attributes |
| ModelBuild.BuildTablesKeys | heartdroid/src/main/java/heart/xtt/XTTModel.java:220-244 | the keys are the earlier ones plus each table builder's name |
| ModelBuild.BuildTablesResolve | heartdroid/src/main/java/heart/xtt/XTTModel.java:224-241 | a builder not repeated later is built into the table it stands for |
| ModelBuild.BuildTablesKeep | heartdroid/src/main/java/heart/xtt/XTTModel.java:220-244 | a table built earlier whose name no builder reuses is kept as it was |
| ModelBuild.Lookup | heartdroid/src/main/java/heart/xtt/XTTModel.java:226-238 | the attributes a table names, in order, from the built attributes |
| ModelBuild.TableOf | heartdroid/src/main/java/heart/xtt/XTTModel.java:224-241 | the built table takes the builder's name and the named attributes, and has no rules |
| ModelBuild.BuildTablesUse | heartdroid/src/main/java/heart/xtt/XTTModel.java:220-244 | every table is under its own name, uses only model attributes, and has no rules yet |
| ModelBuild.BuildRules | heartdroid/src/main/java/heart/xtt/XTTModel.java:246-313 | on success every rule's scheme names a table and no builder's name was already built; a first rule naming no table, or whose name is already built, is a builder error; the table registry stays valid |
| ModelBuild.BuildRulesAppends | heartdroid/src/main/java/heart/xtt/XTTModel.java:252-296 | on success every rule builds, and each table ends with the rules it had followed by the rules of its own builders in builder order, and nothing else |
| ModelBuild.BuildRulesNamesFresh | heartdroid/src/main/java/heart/xtt/XTTModel.java:260-262 | on success no builder carries the name of a rule an earlier builder built, so a repeated rule name fails the build |
| ModelBuild.BuildRulesGrow | heartdroid/src/main/java/heart/xtt/XTTModel.java:253-297 | tables keep names and attributes and only gain rules |
| ModelBuild.BuildRulesFit | heartdroid/src/main/java/heart/xtt/XTTModel.java:281-292 | every added rule writes only its table's conclusion and reads only its precondition |
| ModelBuild.Dedup | heartdroid/src/main/java/heart/xtt/XTTModel.java:185 | each attribute once, at its first occurrence |
| ModelBuild.InOrder | heartdroid/src/main/java/heart/xtt/XTTModel.java:184 | the built types in the registry's iteration order |
| ModelBuild.Build | heartdroid/src/main/java/heart/xtt/XTTModel.java:165-189 | never NotInTheDomain; a stage's builder error is the result; on success the types are the registered ones, built, in key order |
| ModelBuild.BuildRejectsUndefinedType | heartdroid/src/main/java/heart/xtt/XTTModel.java:204-210 | an attribute of an undefined type fails the build |
| ModelBuild.BuildIsConsistent | heartdroid/src/main/java/heart/xtt/XTTModel.java:201-297 | a built model has distinct attributes, tables using only its attributes, and rules fitting their tables |
| ModelBuild.BuildPlacesEveryRule | heartdroid/src/main/java/heart/xtt/XTTModel.java:296 | every registered rule's scheme names a table of the built model |
| SourceText.End | heartdroid/src/main/java/heart/parser/hmr/runtime/SourceStream.java:129-130 | every position below end reads a character and end itself does not |
| SourceText.CharAt | heartdroid/src/main/java/heart/parser/hmr/runtime/SourceStream.java:135-136 | the character at p exactly when 0 ≤ p < end, else IndexOutOfBounds |
| SourceText.Slice | heartdroid/src/main/java/heart/parser/hmr/runtime/SourceStream.java:141-142 | succeeds exactly when 0 ≤ p ≤ q ≤ end, with the q − p characters from p |
| SourceText.SliceOfOne | heartdroid/src/main/java/heart/parser/hmr/runtime/SourceStream.java:135-142 | a one-character slice is the character at its start |
| SourceText.SlicesJoin | heartdroid/src/main/java/heart/parser/hmr/runtime/SourceStream.java:141-142 | adjacent slices concatenate to the slice over both |
| SourceText.NextNewline | heartdroid/src/main/java/heart/parser/hmr/runtime/SourceStream.java:156 | the first newline at or after the start, or −1 when there is none |
| SourceText.NoNewlineBetween | heartdroid/src/main/java/heart/parser/hmr/runtime/SourceStream.java:150-162 | two positions with no newline between them are on the same line, after the same newline |
| SourceText.Where | heartdroid/src/main/java/heart/parser/hmr/runtime/SourceStream.java:148-163 | the line is 1 + the newlines before p and the column p − the last newline before p (or −1); both at least 1 |
| Annotations.DefinesAttribute | heartdroid/src/main/java/heart/xtt/annotation/Annotation.java:20-22 | NullPointer without a type; otherwise true exactly when the type is Attribute or there is a value entry |
| Annotations.DefinesRelation | heartdroid/src/main/java/heart/xtt/annotation/Annotation.java:24-26 | NullPointer without a type; otherwise true exactly when the type is Relation or there is a subject entry |
| Annotations.AttributeValue | heartdroid/src/main/java/heart/xtt/annotation/Annotation.java:28-33 | a value only when the annotation defines an attribute; with a type, exactly the value entry |
| Annotations.RelationSubject | heartdroid/src/main/java/heart/xtt/annotation/Annotation.java:43-48 | a subject only when the annotation defines a relation; with a type, exactly the subject entry |
| Annotations.Name | heartdroid/src/main/java/heart/xtt/annotation/Annotation.java:35-41 | the name entry when present, otherwise the type |
| Annotations.Get | heartdroid/src/main/java/heart/xtt/annotation/Annotation.java:30 | the entry under a key, null exactly when there is none |
| Annotations.NewBuilder | heartdroid/src/main/java/heart/xtt/annotation/Annotation.java:58-60 | a new builder has no entries and no type |
| Annotations.AddAll | heartdroid/src/main/java/heart/xtt/annotation/Annotation.java:78-81 | adding entries keeps the type |
| Annotations.AddEntry | heartdroid/src/main/java/heart/xtt/annotation/Annotation.java:78-81 | the key maps to the value and every other key is unchanged |
| Annotations.SetKind | heartdroid/src/main/java/heart/xtt/annotation/Annotation.java:87-90 | the type is set, entries kept |
| Annotations.Build | heartdroid/src/main/java/heart/xtt/annotation/Annotation.java:62-67 | the annotation has the builder's entries and type (as a copy; see Left out) |
| Annotations.AddAllEntries | heartdroid/src/main/java/heart/xtt/annotation/Annotation.java:78-81 | adding in order keeps the last value per key, and keys never given keep their entries |
| Annotations.AddAllLast | heartdroid/src/main/java/heart/xtt/annotation/Annotation.java:78-81 | an entry that no later entry with the same key follows is the one read back |
| Annotations.AddAllUntouched | heartdroid/src/main/java/heart/xtt/annotation/Annotation.java:78-81 | a key never given keeps the builder's earlier entry |
| Annotations.AddAllKeys | heartdroid/src/main/java/heart/xtt/annotation/Annotation.java:78-81 | the keys afterwards are exactly the builder's keys plus the given ones |
| Annotations.BuiltAnnotationReadsBack | heartdroid/src/main/java/heart/xtt/annotation/Annotation.java:20-67 | a built annotation reads back the last entry per key and is named by its name entry or its type. It defines an attribute exactly when the type is Attribute or a value was given |

## Left out

- The callback refresh in AVEntry.getValue (reflection on a class name) is left out. A read resolves pending candidates and returns the committed value.
- The millisecond sampling walk of findHistoricalValuesOverTime is left out. It uses the wall clock and caught IndexOutOfBounds for control flow, so it is a parameter (`overTime`) of the window functions.
- Wall-clock reads (System.currentTimeMillis) are parameters. The empty State a failed time lookup returns carries timestamp 0.
- Memory.WindowOverStateCount: on a period whose loops never end in the source, it fails with IllegalArgument (see Findings). TimeRanges.HistoricalValues, the two time ranges and Formulae.Evaluate pass that failure on.
- Memory.PadCount: a negative step with padding to do adds about 2^63 / |step| Nulls. Running out of memory on the way is not modelled.
- Lists holding more than 2^31 − 1 states are not modelled where positions are compared as ints, because LinkedList.size() cannot report them. The contracts that need the bound state it (`|states| <= MaxInt`).
- SourceText.Where: requires 0 ≤ p ≤ end. Outside that range the source's loop never returns. The string formatting ("line … col. …") is left out; line and column are returned as numbers.
- The SourceStream constructor and streamToString (stream I/O, charset decoding) are left out.
- Rule.java and Table.java are not part of this model. A rule's condition evaluation is a parameter. Rule.execute is its decisions run in order, and Table.addRule is an append.
- Expressions and their builders (ExpressionInterface, AttributeExpressionBuilder, Valat) are parameters. So are the domain checks of non-numeric values, SimpleSymbolic.findInTheDomain, and set intersect/except.
- SetValue equality and hashing are replaced by a value list that drops certainty and timestamp (the outcome of a rule).
- StatisticalExpression, UnaryExpression and ProbabilityEvaluator are left out: floating-point statistics, transcendental operations and unimplemented stubs.
- Float rounding is left out: certainty factors and numbers are exact reals.
- CfEvaluator.Complement: states only that the result is a set, because the complement itself comes from the set algebra, which is a parameter.
- CfEvaluator.Difference: states only that the result is a set, for the same reason.
- TimeRanges.CfTimeRange: its contract states only the error it never raises. The quantifier arithmetic is stated by TimeRanges.MinConfirmed, TimeRanges.CfTimeRangeEdges and TimeRanges.CfQuantifierZeroAndLast.
- Ordering.GoalForTables: its contract states only that the stack holds model tables; the order is stated by Ordering.LastGoalTableFiresFirst.
- Ordering.GoalForAttributes: its contract states only that the stack holds model tables; the order is stated by Ordering.FirstGoalProducerFiresFirst for all inputs, on top of Ordering.FirstStarterFiresFirst.
- ModelRemovals.RemoveAttributeWithId: removes only the first key carrying the id, as the source does, so an attribute registered under a name and an abbreviation keeps its other key. The model keeps this behaviour as written, because the code does not show which behaviour was intended.
- Numeric.Factorial: does not model the double overflow of large factorials.
- Rule and table links and token passing are left out (unimplemented in the source).
- The null key of an attribute without an abbreviation (buildAttributes stores it under `null`) is left out, because no lookup by name reaches it.
- Hash iteration order is modelled as insertion order. The CF resolver's tie-break therefore picks the latest maximal entry, and the attribute HashSet keeps first occurrences.
- Builder.copy, the getters, setVersion/setSource and Annotation.toString/setEntries are left out as plumbing.
- Null entries of an annotation builder are left out.
- Rules.Execute: in the source the rule's certainty is set in place on the object the decision's expression returns (Decision.java:71), and that same object is stored (WorkingMemory.java:716, 719). For a `valat` decision this object is taken from the history (Valat.java:47, WorkingMemory.java:281 and 550; the history copy is shallow). So the execution also rewrites the certainty of that value in the logged states and in any attribute holding it, and later certainty-factor time ranges read the rewritten certainty. The model writes a copy carrying the certainty and leaves every other holder unchanged, because object identity and aliasing are not modelled.
- Annotations.Build: in the source the built annotation keeps the builder's own entry map (Annotation.java:64), so an addEntry on the builder after build also changes the annotation. The model copies the entries, because object identity and aliasing are not modelled.
- The Type, Attribute, Table, Rule and Formula builders' own checks are parameters; BuilderException becomes ModelBuilding.
- HeaRT.java, the demos, the command-line front end and the test harness files are left out.
- The warnings printed through Debug are left out.

## Findings

| source | as written | input that shows it | evidently intended | confidence | as-written member | corrected member |
|---|---|---|---|---|---|---|
| heartdroid/src/main/java/heart/WorkingMemory.java:451-456 | without autoregistration, the entry of an unregistered attribute is null and is dereferenced | setAttributeValue(attr, v, false) with `attr` not registered throws NullPointerException | throw the declared AttributeNotRegisteredException, as the by-name overload at lines 430-437 does | medium, not executed | Memory.WriteAttributeDiscrepancy | Memory.WriteAttribute, Memory.SetCurrentState |
| heartdroid/src/main/java/heart/uncertainty/CertaintyFactorsAmbiguityResolver.java:105-117 | a rule tied with a group is appended once per existing entry of the group | three rules with one outcome and certainty 0.5 under FireAll: the third rule fires twice | a tied rule joins its group once | high, not executed | Disjunctive.TiedRulesFireTwice | Disjunctive.Admit, Disjunctive.ResolveDisjunctive, Inference.Select |
| heartdroid/src/main/java/heart/WorkingMemory.java:398-411 | the padding counter never moves with a step of 0. The int sampling index never moves with a step that is a multiple of 2^32, 0 included. Either loop then never ends | four states, the period from −2 to 0 with step 0: the state at position 2 is sampled forever | refuse such a period with IllegalArgumentException | medium, not executed | Memory.WindowAsWritten, Memory.ZeroStepNeverEnds | Memory.WindowOverStateCount |
| heartdroid/src/main/java/heart/xtt/XTTModel.java:444-446 | removing by abbreviation removes only the abbreviation key | attribute `temperature` abbreviated `t`, removed by `t`: `temperature` stays registered | both keys of the attribute are removed | high, not executed | ModelRemovals.AbbreviatedRemovalKeepsName | ModelRemovals.RemoveAttributeAbbreviated |
