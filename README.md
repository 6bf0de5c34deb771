# Bank loan approval: feature preparation and decision rationale

A Dafny model of the core of a Streamlit loan-approval page. A bank clerk enters
a customer name. The page fetches that customer's record from a document store
and turns it into the feature row a trained classifier expects. It asks the
classifier for a prediction, maps the prediction to Approved or Rejected, and
shows the reasons that go with that status.

The model covers four pieces:

- **Customer** (`customer.dfy`): the record as a map from field name to a text
  or integer `Value`. It also holds the fixed column lists (identifying columns,
  categorical columns) and `Text`, the `str(...)` conversion applied to a value
  before it is handed to a label encoder. `Text` is proved to keep text as it
  is and to turn an integer into a numeral that reads back as that integer.
- **Reconciler** (`reconciler.dfy`): feature preparation, written as the
  imperative method `PrepareFeatures` over a mutable column map. It drops the
  identifying columns and binarizes `Existing_Loans` in single statements. It
  runs the page's three steps that loop as methods of their own: the
  categorical encoding loop, the fill of every missing expected feature with
  0, and the projection onto the expected features. `PrepareFeatures` is proved equal to
  `Prepare`, a per-feature reference definition. The lemmas in
  `ReconcilerProperties` state what every prepared vector satisfies.
- **Rationale** (`rationale.dfy`): the outcome mapping, the five rejection
  rules, the four approval rules and the choice of which list is shown. The
  reasons are enum tags, not display strings. `RejectionReasons` is the page's
  sequence of appends. It is proved equal to `Triggered`, the list of firing
  rules built one rule at a time. A lemma states that this list holds exactly
  the rules that fire, in rule order.
- **LoanCheck** (`loan_check.dfy`): one check from start to finish. The store
  result is an `Option<Record>` input. The classifier is a function parameter
  `predict`.

`wrappers.dfy` holds the `Option` and `Result` datatypes.

## Model

| member | source | states |
|---|---|---|
| Customer.DigitsRoundTrip | Bank.py:96 | the decimal digits `str` writes for a natural number read back as that number |
| Customer.Text | Bank.py:96 | `str` of a text value is that text, and `str` of an integer is a numeral whose value, read back with its sign, is that integer |
| Customer.IntegerTexts | Bank.py:96 | distinct integers convert to distinct texts, and an integer converts to the same text as the text of its numeral, so both match the same encoder class |
| Reconciler.FirstUnknownIsFirst | Bank.py:93-99 | the search for an unseen category finds nothing exactly when no listed column is present, has an encoder and holds an unseen category; otherwise it finds the first such column in processing order, with its raw value |
| Reconciler.Prepare | Bank.py:84-112 | fails exactly when some categorical column holds an unseen category, naming a present, unknown categorical column and its raw value; otherwise one entry per expected feature, in the expected order, with no other columns |
| Reconciler.EncodeCategoricals | Bank.py:92-101 | stops with the first unseen category of the column list; otherwise every listed column becomes its encoder's code, or 0 when the column or its encoder is missing, and every other column is unchanged |
| Reconciler.FillMissing | Bank.py:106-109 | the columns become the old columns plus every expected feature; old columns keep their values and the added ones hold 0 |
| Reconciler.Project | Bank.py:111-112 | the result lists exactly the expected features, in order, each with its column's value |
| Reconciler.PrepareFeatures | Bank.py:84-112 | the step-by-step preparation on a mutable column map yields exactly `Prepare`'s result, error or vector |
| ReconcilerProperties.IdentifyingFieldsIgnored | Bank.py:86-89 | two records that differ only in Customer_ID, Name, Phone_Number, Email, Address, City, State, Pincode or Loan_Status prepare to the same result |
| ReconcilerProperties.DroppedFeatureIsZero | Bank.py:87-109 | an expected feature that names an identifying field holds only the filled-in 0 |
| ReconcilerProperties.ExistingLoansBinarized | Bank.py:103-104 | Existing_Loans is 1 exactly when the record holds "Yes", and 0 exactly otherwise |
| ReconcilerProperties.KnownCategoryEncoded | Bank.py:93-96 | a present categorical column with an encoder is a known category in a successful preparation, and holds that encoder's code |
| ReconcilerProperties.MissingCategoryIsZero | Bank.py:93-101 | a categorical column missing from the record, or without an encoder, holds 0 |
| ReconcilerProperties.UnknownCategoryAborts | Bank.py:93-99 | an unseen category, with every earlier categorical column known, makes preparation fail with an error naming that column and value |
| ReconcilerProperties.OtherFieldsPassThrough | Bank.py:84-112 | an expected field that is not identifying, not categorical and not Existing_Loans keeps the record's raw value |
| ReconcilerProperties.MissingFeatureIsZero | Bank.py:106-109 | an expected feature absent from the record, other than Existing_Loans, holds 0 |
| Rationale.OutcomeOf | Bank.py:116 | Approved exactly when the prediction is 1, Rejected for every other prediction |
| Rationale.RuleOrderAgrees | Bank.py:119-129 | the rule at each position and the position of each rule describe the same order of the five rejection rules |
| Rationale.TriggeredIsFilter | Bank.py:119-129 | after the first k rules, a reason is listed exactly when it is one of those k rules and fires on the record; the list keeps rule order without repeats and is never longer than k |
| Rationale.OrderedByElements | Bank.py:119-129 | two reason lists in rule order without repeats that hold the same reasons are equal |
| Rationale.RejectionReasons | Bank.py:119-129 | the five appends yield exactly `Triggered` over all five rules, so the list holds exactly the rejection rules that fire, in rule order, at most five |
| Rationale.ApprovalReasons | Bank.py:135-138 | an approval reason is shown exactly when its rule holds, in rule order, at most four |
| Rationale.Explain | Bank.py:132-144 | Approved shows only approval reasons, exactly those that hold; Rejected shows only rejection reasons, exactly those that fire, in rule order |
| RationaleProperties.ComplementaryRules | Bank.py:120-138 | for the CIBIL score, the bank balance and the employment type, exactly one of the rejection rule and its approval counterpart fires |
| RationaleProperties.ExistingLoansRules | Bank.py:124-137 | "Yes" fires the existing-loans rejection, "No" fires the approval, and any other value fires neither |
| RationaleProperties.FavourableRecordHasAllApprovals | Bank.py:135-138 | CIBIL >= 650, balance >= 50000, Existing_Loans "No" and stable employment give all four approval reasons in order |
| RationaleProperties.UnfavourableRecordHasAllRejections | Bank.py:119-138 | a record failing all five rules gets all five rejection reasons in order and no approval reason, so an approval by the classifier is shown with an empty explanation |
| LoanCheck.Decide | Bank.py:62-150 | not found exactly when the store returned nothing; stopped, with no outcome, exactly when a categorical value is unseen; otherwise the outcome follows the prediction on the prepared vector and comes with its explanation; the rule fields are required only of a record whose preparation succeeds |
| LoanCheck.CheckLoanStatus | Bank.py:62-150 | running the page's steps in order (prepare, predict, map the status, build the rejection list, pick the list to show) yields exactly `Decide`'s result |
| LoanCheckProperties.UnseenEmploymentTypeStops | Bank.py:92-99 | for every record with Existing_Loans, whatever its rule fields hold, an unseen employment type makes preparation fail and stops the check with no outcome; with gender and income source known, the error names Employment_Type and its value |
| LoanCheckProperties.IdentifyingFieldsDoNotAffectDecision | Bank.py:84-144 | records that differ only in identifying fields are accepted alike and get the same decision: both stop with the same error, or both get the same outcome and the same explanation |
| LoanCheckProperties.ApprovedScenario | Bank.py:84-138 | the customer with CIBIL 700, balance 100000, no loans, 50000 requested and full-time employment is scored on a vector with Existing_Loans 0 and identifying features 0, and an approval shows all four approval reasons |
| LoanCheckProperties.RejectedScenario | Bank.py:119-144 | the customer with CIBIL 600, balance 20000, existing loans, 60000 requested and no employment is scored, and a rejection shows all five rejection reasons in order |

## Left out

- The MongoDB connection and the lookup by name (Bank.py:11-13, 63) are external I/O. The lookup's result is the `found: Option<Record>` input of `LoanCheck.Decide`.
- Loading the classifier and the encoders with joblib, and the check that their files exist (Bank.py:16-24), are file I/O. The encoder table and the expected feature names are parameters.
- `model.predict` (Bank.py:115) is an opaque trained model. It is the function parameter `predict`. A failing prediction (for example a text value in a passed-through column) is not modelled.
- The code does not check the expected-feature list. It reads `model.feature_names_in_` once at start-up (Bank.py:27), and the model takes that list as the parameter `expected`.
- Logging, the `save_log_file` rename, the scheduled job and the shutdown hook (Bank.py:30-52, 147, 153-154) are file-system and background-thread plumbing.
- All Streamlit rendering, including the emoji and currency display strings (Bank.py:55-81, 133-144), is UI. Reasons are enum tags. An approval line whose rule does not hold is rendered as an empty string; the model leaves it out of the list.
- Lines 70-81 read Name, Age, Gender, Phone_Number, City, State, Pincode, Bank_Balance, CIBIL_Score, Existing_Loans, Loan_Amount_Requested and Loan_Tenure_Months for display. They raise KeyError when one of these is absent, before preparation starts. That display step is not modelled. Feature preparation is modelled on its own, for any record, so its missing-column defaults are stated for every column.
- Pandas dtype coercion and floating-point amounts are not modelled. Amounts and scores are integers, and other fields are text or integers. `Text` models `str(...)` only for text and integers.
- Reading `Existing_Loans` raises KeyError when the record lacks it (Bank.py:79 and 104). Here its presence is a precondition of `Prepare`, `PrepareFeatures`, `Decide` and `CheckLoanStatus`.
- The rationale reads CIBIL_Score, Bank_Balance, Existing_Loans, Loan_Amount_Requested and Employment_Type (Bank.py:120-128), and compares the amounts as numbers. `Rationale.Explainable` states that these fields are present and the amounts are integers. `Decide` and `CheckLoanStatus` require it only of a record whose preparation succeeds. A record that stops on an unseen category never reaches those lines and needs no such field. A prepared record that lacks them would make the source raise KeyError or TypeError, and the model does not describe that crash.
- Checks are independent and hold no state, so calling `Decide` twice on the same inputs gives the same result by construction. No separate idempotence statement is made.
