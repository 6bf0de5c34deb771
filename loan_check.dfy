/**
 * One loan-status check of the page (Bank.py:62-150): the record found for
 * the entered name, if any, is prepared, scored by the classifier and
 * explained. The store lookup and the classifier are inputs: `found` is what
 * the store returned, `predict` the trained model's prediction.
 */
module LoanCheck {
  import opened Wrappers
  import opened Customer
  import opened Reconciler
  import opened Rationale

  /** The result of one check. */
  datatype Decision =
    | NotFound
    | Stopped(error: PrepError)
    | Decided(outcome: Outcome, explanation: Explanation)

  /**
   * What one check yields: not found when the store has no record; stopped,
   * with no outcome, when a category is unseen; otherwise the outcome the
   * prediction on the prepared vector gives, with its explanation.
   */
  function Decide(found: Option<Record>, enc: EncoderTable, expected: seq<string>, predict: FeatureVector -> int): (d: Decision)
    requires found.Some? ==> ExistingLoans in found.value
    requires found.Some? && Prepare(found.value, enc, expected).Ok? ==> Explainable(found.value)
    ensures d.NotFound? <==> found.None?
    ensures found.Some? ==> (d.Stopped? <==> exists i :: 0 <= i < |Categorical| && Unknown(found.value, enc, Categorical[i]))
    ensures d.Stopped? ==> found.Some? && d.error.column in Categorical && Unknown(found.value, enc, d.error.column)
    ensures d.Decided? ==> found.Some? && Prepare(found.value, enc, expected).Ok?
                           && (d.outcome == Approved <==> predict(Prepare(found.value, enc, expected).value) == 1)
                           && d.explanation == Explain(found.value, d.outcome)
  {
    match found
    case None => NotFound
    case Some(c) =>
      match Prepare(c, enc, expected)
      case Err(e) => Stopped(e)
      case Ok(v) =>
        var o := OutcomeOf(predict(v));
        Decided(o, Explain(c, o))
  }

  /**
   * The check as the page runs it: prepare the features, predict, map the
   * prediction to a status, build the rejection list, then show the list
   * the status selects.
   */
  method CheckLoanStatus(found: Option<Record>, enc: EncoderTable, expected: seq<string>, predict: FeatureVector -> int)
    returns (d: Decision)
    requires found.Some? ==> ExistingLoans in found.value
    requires found.Some? && Prepare(found.value, enc, expected).Ok? ==> Explainable(found.value)
    ensures d == Decide(found, enc, expected, predict)
  {
    if found.None? {
      return NotFound;
    }
    var customer := found.value;
    var prepared := PrepareFeatures(customer, enc, expected);
    if prepared.Err? {
      return Stopped(prepared.error);
    }
    var prediction := predict(prepared.value);
    var status := OutcomeOf(prediction);
    var reasons := RejectionReasons(customer);
    if status == Approved {
      d := Decided(status, ApprovalNotes(ApprovalReasons(customer)));
    } else {
      d := Decided(status, RejectionNotes(reasons));
    }
  }
}

/** What a check promises end to end. */
module LoanCheckProperties {
  import opened Wrappers
  import opened Customer
  import opened Reconciler
  import opened ReconcilerProperties
  import opened Rationale
  import opened RationaleProperties
  import opened LoanCheck

  /**
   * An employment type the encoder has never seen stops the check with no
   * outcome, whatever the rule fields hold; when gender and income source
   * are known, the error names the employment type and its value.
   */
  lemma UnseenEmploymentTypeStops(c: Record, enc: EncoderTable, expected: seq<string>, predict: FeatureVector -> int)
    requires ExistingLoans in c
    requires Unknown(c, enc, EmploymentType)
    ensures Prepare(c, enc, expected).Err?
    ensures Decide(Some(c), enc, expected, predict).Stopped?
    ensures !Unknown(c, enc, "Gender") && !Unknown(c, enc, "Income_Source") ==>
              Decide(Some(c), enc, expected, predict) == Stopped(UnknownCategory(EmploymentType, c[EmploymentType]))
  {
    assert Categorical[2] == EmploymentType;
    if !Unknown(c, enc, "Gender") && !Unknown(c, enc, "Income_Source") {
      UnknownCategoryAborts(c, enc, expected, 2);
    }
  }

  /** The identifying fields of a record change neither the outcome nor its explanation. */
  lemma IdentifyingFieldsDoNotAffectDecision(c1: Record, c2: Record, enc: EncoderTable, expected: seq<string>,
                                             predict: FeatureVector -> int)
    requires ExistingLoans in c1
    requires Prepare(c1, enc, expected).Ok? ==> Explainable(c1)
    requires c1 - Dropped == c2 - Dropped
    ensures ExistingLoans in c2
    ensures Prepare(c2, enc, expected).Ok? ==> Explainable(c2)
    ensures Decide(Some(c1), enc, expected, predict) == Decide(Some(c2), enc, expected, predict)
  {
    IdentifyingFieldsIgnored(c1, c2, enc, expected);
    if Prepare(c1, enc, expected).Ok? {
      var rest := c1 - Dropped;
      assert CibilScore in rest && BankBalance in rest && LoanAmountRequested in rest;
      assert ExistingLoans in rest && EmploymentType in rest;
      assert forall f :: f in rest ==> c1[f] == rest[f] && c2[f] == (c2 - Dropped)[f];
      assert Explainable(c2);
      assert forall x :: Fires(x, c1) == Fires(x, c2);
      TriggeredIsFilter(RuleCount, c1);
      TriggeredIsFilter(RuleCount, c2);
      OrderedByElements(Triggered(RuleCount, c1), Triggered(RuleCount, c2));
    }
  }

  /**
   * A customer with a CIBIL score of 700, a balance of 100000, no existing
   * loans, 50000 requested and full-time employment is scored on a vector
   * whose Existing_Loans is 0 and whose identifying features are 0, and an
   * approval shows all four approval reasons.
   */
  lemma ApprovedScenario(enc: EncoderTable, expected: seq<string>, predict: FeatureVector -> int)
    requires EmploymentType !in enc || "Full-time" in enc[EmploymentType]
    ensures var c := map[CibilScore := Num(700), BankBalance := Num(100000), ExistingLoans := Str("No"),
                         LoanAmountRequested := Num(50000), EmploymentType := Str("Full-time")];
            && Explainable(c)
            && Prepare(c, enc, expected).Ok?
            && (forall i :: 0 <= i < |expected| && (expected[i] == ExistingLoans || expected[i] in Dropped) ==>
                  Prepare(c, enc, expected).value[i].1 == Num(0))
            && Decide(Some(c), enc, expected, predict).Decided?
            && (Decide(Some(c), enc, expected, predict).outcome == Approved ==>
                  Decide(Some(c), enc, expected, predict).explanation
                  == ApprovalNotes([HighCibilScore, GoodBankBalance, NoExistingLoans, StableEmployment]))
  {
    var c := map[CibilScore := Num(700), BankBalance := Num(100000), ExistingLoans := Str("No"),
                 LoanAmountRequested := Num(50000), EmploymentType := Str("Full-time")];
    assert Explainable(c);
    assert !UnstableJob(c);
    assert "Gender" !in c && "Income_Source" !in c;
    assert !Unknown(c, enc, EmploymentType);
  }

  /**
   * A customer with a CIBIL score of 600, a balance of 20000, existing
   * loans, 60000 requested and no employment is scored, and a rejection
   * shows all five rejection reasons in rule order.
   */
  lemma RejectedScenario(enc: EncoderTable, expected: seq<string>, predict: FeatureVector -> int)
    requires EmploymentType !in enc || "Unemployed" in enc[EmploymentType]
    ensures var c := map[CibilScore := Num(600), BankBalance := Num(20000), ExistingLoans := Str("Yes"),
                         LoanAmountRequested := Num(60000), EmploymentType := Str("Unemployed")];
            && Explainable(c)
            && Decide(Some(c), enc, expected, predict).Decided?
            && (Decide(Some(c), enc, expected, predict).outcome == Rejected ==>
                  Decide(Some(c), enc, expected, predict).explanation
                  == RejectionNotes([LowCibilScore, LowBankBalance, HasExistingLoans, HighLoanToBalance, UnstableEmployment]))
  {
    var c := map[CibilScore := Num(600), BankBalance := Num(20000), ExistingLoans := Str("Yes"),
                 LoanAmountRequested := Num(60000), EmploymentType := Str("Unemployed")];
    assert Explainable(c);
    assert UnstableJob(c);
    assert "Gender" !in c && "Income_Source" !in c;
    assert !Unknown(c, enc, EmploymentType);
    UnfavourableRecordHasAllRejections(c);
  }
}
