/**
 * The customer record as the loan-approval page receives it from the
 * customer store: a loosely typed mapping from field name to a value that is
 * either text or a whole number.
 */
module Customer {

  /** One field of a stored customer document. */
  datatype Value = Str(text: string) | Num(n: int)

  /** A customer document, keyed by field name. */
  type Record = map<string, Value>

  /** The identifying and non-predictive fields removed before prediction (Bank.py:87-89). */
  const Dropped: set<string> :=
    {"Customer_ID", "Name", "Phone_Number", "Email", "Address", "City", "State", "Pincode", "Loan_Status"}

  /** The columns that go through a trained label encoder, in the order they are processed (Bank.py:92). */
  const Categorical: seq<string> := ["Gender", "Income_Source", "Employment_Type"]

  const ExistingLoans: string := "Existing_Loans"
  const CibilScore: string := "CIBIL_Score"
  const BankBalance: string := "Bank_Balance"
  const LoanAmountRequested: string := "Loan_Amount_Requested"
  const EmploymentType: string := "Employment_Type"

  /** Decimal digits of a natural number, most significant first. */
  function Digits(n: nat): (s: string)
    ensures |s| >= 1
    ensures forall i :: 0 <= i < |s| ==> '0' <= s[i] <= '9'
  {
    if n < 10 then [(n as char) + '0'] else Digits(n / 10) + [(n % 10) as char + '0']
  }

  /** The number a string of decimal digits denotes, most significant digit first. */
  function DecimalValue(s: string): int
  {
    if s == [] then 0 else DecimalValue(s[..|s| - 1]) * 10 + (s[|s| - 1] as int - '0' as int)
  }

  /** The integer a decimal numeral denotes, with an optional leading minus sign (Python's int). */
  function IntegerValue(s: string): int
  {
    if |s| > 0 && s[0] == '-' then -DecimalValue(s[1..]) else DecimalValue(s)
  }

  /** Reading back the digits of `n` gives `n`. */
  lemma {:induction false} DigitsRoundTrip(n: nat)
    ensures DecimalValue(Digits(n)) == n
  {
    if n >= 10 {
      DigitsRoundTrip(n / 10);
      var s := Digits(n);
      assert s[..|s| - 1] == Digits(n / 10);
    }
  }

  /**
   * The text a value converts to (Python's str), as handed to a label
   * encoder: text is passed unchanged, and an integer becomes a numeral
   * that reads back as that integer.
   */
  function Text(v: Value): (t: string)
    ensures v.Str? ==> t == v.text
    ensures v.Num? ==> IntegerValue(t) == v.n
  {
    match v
    case Str(s) => s
    case Num(n) =>
      if n < 0 then
        DigitsRoundTrip(-n);
        assert ("-" + Digits(-n))[1..] == Digits(-n);
        "-" + Digits(-n)
      else
        DigitsRoundTrip(n);
        Digits(n)
  }

  /**
   * Distinct integers convert to distinct texts, so an integer category
   * matches at most one numeric encoder class; an integer and the text of
   * its numeral convert alike.
   */
  lemma IntegerTexts(m: int, n: int)
    ensures Text(Num(m)) == Text(Num(n)) ==> m == n
    ensures Text(Num(m)) == Text(Str(Text(Num(m))))
  {
  }
}
