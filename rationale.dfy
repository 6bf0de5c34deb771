/**
 * The decision and its explanation (Bank.py:116-144): the classifier's
 * prediction decides the outcome, and two fixed rule lists, evaluated on the
 * raw record and independently of the prediction, give the reasons shown.
 */
module Rationale {
  import opened Customer

  datatype Outcome = Approved | Rejected

  /** Only a prediction of 1 approves the loan (Bank.py:116). */
  function OutcomeOf(prediction: int): (o: Outcome)
    ensures o == Approved <==> prediction == 1
    ensures o == Rejected <==> prediction != 1
  {
    if prediction == 1 then Approved else Rejected
  }

  /** The rejection rules, declared in the order they are evaluated. */
  datatype RejectionReason = LowCibilScore | LowBankBalance | HasExistingLoans | HighLoanToBalance | UnstableEmployment

  /** The approval rules, declared in the order they are shown. */
  datatype ApprovalReason = HighCibilScore | GoodBankBalance | NoExistingLoans | StableEmployment

  /**
   * The fields the rules read are present, and the amounts and the score
   * are whole numbers (the page compares them with integers).
   */
  predicate Explainable(c: Record)
  {
    && CibilScore in c && c[CibilScore].Num?
    && BankBalance in c && c[BankBalance].Num?
    && LoanAmountRequested in c && c[LoanAmountRequested].Num?
    && ExistingLoans in c
    && EmploymentType in c
  }

  function Cibil(c: Record): int
    requires Explainable(c)
  {
    c[CibilScore].n
  }

  function Balance(c: Record): int
    requires Explainable(c)
  {
    c[BankBalance].n
  }

  function Requested(c: Record): int
    requires Explainable(c)
  {
    c[LoanAmountRequested].n
  }

  /** Employment counted as unstable: unemployed or on contract. */
  predicate UnstableJob(c: Record)
    requires Explainable(c)
  {
    c[EmploymentType] in [Str("Unemployed"), Str("Contract")]
  }

  /** When each rejection rule fires on a record (Bank.py:120-129). */
  predicate Fires(r: RejectionReason, c: Record)
    requires Explainable(c)
  {
    match r
    case LowCibilScore => Cibil(c) < 650
    case LowBankBalance => Balance(c) < 50000
    case HasExistingLoans => c[ExistingLoans] == Str("Yes")
    case HighLoanToBalance => Requested(c) > Balance(c) * 2
    case UnstableEmployment => UnstableJob(c)
  }

  /** When each approval rule holds of a record (Bank.py:135-138). */
  predicate Holds(a: ApprovalReason, c: Record)
    requires Explainable(c)
  {
    match a
    case HighCibilScore => Cibil(c) >= 650
    case GoodBankBalance => Balance(c) >= 50000
    case NoExistingLoans => c[ExistingLoans] == Str("No")
    case StableEmployment => !UnstableJob(c)
  }

  /** The number of rejection rules. */
  const RuleCount: nat := 5

  /** The rejection rule evaluated `k`-th, counting from 0 (Bank.py:120-129). */
  function RuleAt(k: nat): RejectionReason
    requires k < RuleCount
  {
    if k == 0 then LowCibilScore
    else if k == 1 then LowBankBalance
    else if k == 2 then HasExistingLoans
    else if k == 3 then HighLoanToBalance
    else UnstableEmployment
  }

  /** The position of a rejection rule in evaluation order. */
  function RejectionRank(r: RejectionReason): nat
  {
    match r
    case LowCibilScore => 0
    case LowBankBalance => 1
    case HasExistingLoans => 2
    case HighLoanToBalance => 3
    case UnstableEmployment => 4
  }

  /** `RuleAt` and `RejectionRank` list the same rule order: each undoes the other. */
  lemma RuleOrderAgrees(k: nat, r: RejectionReason)
    ensures k < RuleCount ==> RejectionRank(RuleAt(k)) == k
    ensures RejectionRank(r) < RuleCount && RuleAt(RejectionRank(r)) == r
  {
  }

  /** The position of an approval rule in display order. */
  function ApprovalRank(a: ApprovalReason): nat
  {
    match a
    case HighCibilScore => 0
    case GoodBankBalance => 1
    case NoExistingLoans => 2
    case StableEmployment => 3
  }

  /** Each reason appears at most once, and in rule order. */
  predicate RejectionOrdered(rs: seq<RejectionReason>)
  {
    forall i, j :: 0 <= i < j < |rs| ==> RejectionRank(rs[i]) < RejectionRank(rs[j])
  }

  predicate ApprovalOrdered(rs: seq<ApprovalReason>)
  {
    forall i, j :: 0 <= i < j < |rs| ==> ApprovalRank(rs[i]) < ApprovalRank(rs[j])
  }

  /** The rejection list once the first `k` rules have been evaluated: those of them that fire, in rule order. */
  function Triggered(k: nat, c: Record): seq<RejectionReason>
    requires k <= RuleCount
    requires Explainable(c)
  {
    if k == 0 then []
    else Triggered(k - 1, c) + (if Fires(RuleAt(k - 1), c) then [RuleAt(k - 1)] else [])
  }

  /**
   * `Triggered(k, c)` is the filter of the first `k` rules by the record:
   * a reason is in it exactly when its rule is among the first `k` and
   * fires, each at most once and in rule order.
   */
  lemma {:induction false} TriggeredIsFilter(k: nat, c: Record)
    requires k <= RuleCount
    requires Explainable(c)
    ensures forall x :: x in Triggered(k, c) <==> RejectionRank(x) < k && Fires(x, c)
    ensures RejectionOrdered(Triggered(k, c))
    ensures |Triggered(k, c)| <= k
  {
    if k > 0 {
      TriggeredIsFilter(k - 1, c);
      var before := Triggered(k - 1, c);
      var r := RuleAt(k - 1);
      assert RejectionRank(r) == k - 1;
      forall x ensures x == r <==> RejectionRank(x) == k - 1 {
      }
      if Fires(r, c) {
        var after := before + [r];
        assert forall i :: 0 <= i < |before| ==> after[i] == before[i] && before[i] in before;
        assert forall x :: x in after <==> x in before || x == r;
      }
    }
  }

  /** A reason list kept in rule order, without repeats, is determined by which reasons it holds. */
  lemma {:induction false} OrderedByElements(a: seq<RejectionReason>, b: seq<RejectionReason>)
    requires RejectionOrdered(a) && RejectionOrdered(b)
    requires forall x :: x in a <==> x in b
    ensures a == b
    decreases |a|
  {
    assert a != [] ==> a[0] in b;
    assert b != [] ==> b[0] in a;
    if a != [] && b != [] {
      HeadIsLeast(a, b[0]);
      HeadIsLeast(b, a[0]);
      assert a[0] == b[0];
      TailOrdered(a);
      TailOrdered(b);
      OrderedByElements(a[1..], b[1..]);
      assert a == [a[0]] + a[1..];
      assert b == [b[0]] + b[1..];
    }
  }

  /** The first reason of an ordered list has the lowest rank in it. */
  lemma HeadIsLeast(a: seq<RejectionReason>, x: RejectionReason)
    requires RejectionOrdered(a) && x in a
    ensures RejectionRank(a[0]) <= RejectionRank(x)
  {
    var i :| 0 <= i < |a| && a[i] == x;
    if i > 0 {
      assert RejectionRank(a[0]) < RejectionRank(a[i]);
    }
  }

  /** Dropping the first reason of an ordered list leaves an ordered list without it. */
  lemma TailOrdered(a: seq<RejectionReason>)
    requires RejectionOrdered(a) && a != []
    ensures RejectionOrdered(a[1..])
    ensures forall x :: x in a <==> x == a[0] || x in a[1..]
    ensures a[0] !in a[1..]
  {
    assert a == [a[0]] + a[1..];
  }

  /**
   * The rejection list the page builds (Bank.py:119-129): one append per
   * rule that fires, in rule order.
   */
  method RejectionReasons(c: Record) returns (reasons: seq<RejectionReason>)
    requires Explainable(c)
    ensures reasons == Triggered(RuleCount, c)
  {
    reasons := [];
    if Cibil(c) < 650 {
      reasons := reasons + [LowCibilScore];
    }
    assert reasons == Triggered(1, c);
    if Balance(c) < 50000 {
      reasons := reasons + [LowBankBalance];
    }
    assert reasons == Triggered(2, c);
    if c[ExistingLoans] == Str("Yes") {
      reasons := reasons + [HasExistingLoans];
    }
    assert reasons == Triggered(3, c);
    if Requested(c) > Balance(c) * 2 {
      reasons := reasons + [HighLoanToBalance];
    }
    assert reasons == Triggered(4, c);
    if UnstableJob(c) {
      reasons := reasons + [UnstableEmployment];
    }
  }

  /** The approval lines the page shows (Bank.py:135-138): each one whose rule holds, in order. */
  function ApprovalReasons(c: Record): (rs: seq<ApprovalReason>)
    requires Explainable(c)
    ensures forall a :: a in rs <==> Holds(a, c)
    ensures ApprovalOrdered(rs)
    ensures |rs| <= 4
  {
    (if Cibil(c) >= 650 then [HighCibilScore] else [])
    + (if Balance(c) >= 50000 then [GoodBankBalance] else [])
    + (if c[ExistingLoans] == Str("No") then [NoExistingLoans] else [])
    + (if !UnstableJob(c) then [StableEmployment] else [])
  }

  /** What the page shows under the outcome. */
  datatype Explanation = ApprovalNotes(approvals: seq<ApprovalReason>) | RejectionNotes(rejections: seq<RejectionReason>)

  /**
   * Approved shows only approval reasons, Rejected only the rejection list
   * (Bank.py:132-144); the outcome picks the list and nothing else.
   */
  function Explain(c: Record, o: Outcome): (e: Explanation)
    requires Explainable(c)
    ensures e.ApprovalNotes? <==> o == Approved
    ensures e.ApprovalNotes? ==> forall a :: a in e.approvals <==> Holds(a, c)
    ensures e.RejectionNotes? ==> forall x :: x in e.rejections <==> Fires(x, c)
    ensures e.RejectionNotes? ==> RejectionOrdered(e.rejections)
  {
    TriggeredIsFilter(RuleCount, c);
    if o == Approved then ApprovalNotes(ApprovalReasons(c)) else RejectionNotes(Triggered(RuleCount, c))
  }
}

/** What the two rule lists promise about each other. */
module RationaleProperties {
  import opened Customer
  import opened Rationale

  /**
   * For the CIBIL score, the balance and the employment type exactly one of
   * the rejection rule and its approval counterpart fires.
   */
  lemma ComplementaryRules(c: Record)
    requires Explainable(c)
    ensures (LowCibilScore in Triggered(RuleCount, c)) != (HighCibilScore in ApprovalReasons(c))
    ensures (LowBankBalance in Triggered(RuleCount, c)) != (GoodBankBalance in ApprovalReasons(c))
    ensures (UnstableEmployment in Triggered(RuleCount, c)) != (StableEmployment in ApprovalReasons(c))
  {
    TriggeredIsFilter(RuleCount, c);
  }

  /**
   * "Yes" fires the existing-loans rejection, "No" the approval, and any
   * other value neither.
   */
  lemma ExistingLoansRules(c: Record)
    requires Explainable(c)
    ensures HasExistingLoans in Triggered(RuleCount, c) <==> c[ExistingLoans] == Str("Yes")
    ensures NoExistingLoans in ApprovalReasons(c) <==> c[ExistingLoans] == Str("No")
    ensures c[ExistingLoans] != Str("Yes") && c[ExistingLoans] != Str("No") ==>
              HasExistingLoans !in Triggered(RuleCount, c) && NoExistingLoans !in ApprovalReasons(c)
  {
    TriggeredIsFilter(RuleCount, c);
  }

  /** A record that passes every approval rule gets all four approval reasons, in order. */
  lemma FavourableRecordHasAllApprovals(c: Record)
    requires Explainable(c)
    requires Cibil(c) >= 650 && Balance(c) >= 50000 && c[ExistingLoans] == Str("No") && !UnstableJob(c)
    ensures ApprovalReasons(c) == [HighCibilScore, GoodBankBalance, NoExistingLoans, StableEmployment]
  {
  }

  /**
   * A record that fails every rule gets all five rejection reasons, in
   * order, and no approval reason at all: were the classifier to approve
   * it, the explanation shown would be empty.
   */
  lemma UnfavourableRecordHasAllRejections(c: Record)
    requires Explainable(c)
    requires Cibil(c) < 650 && Balance(c) < 50000 && c[ExistingLoans] == Str("Yes")
    requires Requested(c) > Balance(c) * 2 && UnstableJob(c)
    ensures Triggered(RuleCount, c) == [LowCibilScore, LowBankBalance, HasExistingLoans, HighLoanToBalance, UnstableEmployment]
    ensures ApprovalReasons(c) == []
    ensures Explain(c, Approved) == ApprovalNotes([])
  {
    assert Triggered(1, c) == [LowCibilScore];
    assert Triggered(2, c) == [LowCibilScore, LowBankBalance];
    assert Triggered(3, c) == [LowCibilScore, LowBankBalance, HasExistingLoans];
    assert Triggered(4, c) == [LowCibilScore, LowBankBalance, HasExistingLoans, HighLoanToBalance];
  }
}
