/**
 * Feature preparation: turning one customer record into the feature vector
 * the trained classifier expects (Bank.py:84-112).
 */
module Reconciler {
  import opened Wrappers
  import opened Customer

  /** Per categorical column, the trained category encoder: category text to numeric code. */
  type EncoderTable = map<string, map<string, int>>

  /** The prepared input row: feature names with their values, in the classifier's order. */
  type FeatureVector = seq<(string, Value)>

  /** Why preparation stopped. */
  datatype PrepError = UnknownCategory(column: string, value: Value)

  /** The column is present, has an encoder, and its value is not one of that encoder's categories. */
  predicate Unknown(c: Record, enc: EncoderTable, col: string)
  {
    col in c && col in enc && Text(c[col]) !in enc[col]
  }

  /**
   * The first column of `cols` whose value its encoder has never seen,
   * with that value.
   */
  function FirstUnknown(c: Record, enc: EncoderTable, cols: seq<string>): Option<(string, Value)>
  {
    if cols == [] then None
    else
      var earlier := FirstUnknown(c, enc, cols[..|cols| - 1]);
      if earlier.Some? then earlier
      else if Unknown(c, enc, cols[|cols| - 1]) then Some((cols[|cols| - 1], c[cols[|cols| - 1]]))
      else None
  }

  /**
   * `FirstUnknown` finds nothing exactly when no column of `cols` is
   * unknown; otherwise it finds an unknown column with no unknown column
   * before it, together with that column's value.
   */
  lemma {:induction false} FirstUnknownIsFirst(c: Record, enc: EncoderTable, cols: seq<string>)
    ensures FirstUnknown(c, enc, cols).None? <==> forall i :: 0 <= i < |cols| ==> !Unknown(c, enc, cols[i])
    ensures FirstUnknown(c, enc, cols).Some? ==>
              exists i :: 0 <= i < |cols| && cols[i] == FirstUnknown(c, enc, cols).value.0 && Unknown(c, enc, cols[i])
                          && forall j :: 0 <= j < i ==> !Unknown(c, enc, cols[j])
    ensures FirstUnknown(c, enc, cols).Some? ==>
              FirstUnknown(c, enc, cols).value.0 in c && FirstUnknown(c, enc, cols).value.1 == c[FirstUnknown(c, enc, cols).value.0]
  {
    if cols != [] {
      var init := cols[..|cols| - 1];
      FirstUnknownIsFirst(c, enc, init);
      assert forall i :: 0 <= i < |init| ==> init[i] == cols[i];
      var r := FirstUnknown(c, enc, cols);
      if r.Some? && FirstUnknown(c, enc, init).None? {
        assert cols[|cols| - 1] == r.value.0;
      }
    }
  }

  /** Once some prefix of `cols` holds an unknown column, the columns after it do not change the answer. */
  lemma {:induction false} FirstUnknownPrefix(c: Record, enc: EncoderTable, cols: seq<string>, n: nat)
    requires n <= |cols|
    requires FirstUnknown(c, enc, cols[..n]).Some?
    ensures FirstUnknown(c, enc, cols) == FirstUnknown(c, enc, cols[..n])
    decreases |cols| - n
  {
    if n < |cols| {
      var shorter := cols[..|cols| - 1];
      assert shorter[..n] == cols[..n];
      FirstUnknownPrefix(c, enc, shorter, n);
      assert cols == cols[..|cols|];
    } else {
      assert cols[..n] == cols;
    }
  }

  /**
   * The code a categorical column contributes: its encoder's code when the
   * column is present, has an encoder and the value is known; 0 when the
   * column or its encoder is missing.
   */
  function CategoryCode(c: Record, enc: EncoderTable, col: string): int
  {
    if col in c && col in enc && Text(c[col]) in enc[col] then enc[col][Text(c[col])] else 0
  }

  /** The value feature `f` takes in the prepared vector, defined field by field. */
  function FeatureValue(c: Record, enc: EncoderTable, f: string): Value
    requires ExistingLoans in c
  {
    if f == ExistingLoans then Num(if c[ExistingLoans] == Str("Yes") then 1 else 0)
    else if f in Categorical then Num(CategoryCode(c, enc, f))
    else if f in c && f !in Dropped then c[f]
    else Num(0)
  }

  /**
   * What preparation produces: the unknown-category error for the first
   * offending categorical column, or else one entry per expected feature,
   * in the expected order and with nothing else.
   */
  function Prepare(c: Record, enc: EncoderTable, expected: seq<string>): (r: Result<FeatureVector, PrepError>)
    requires ExistingLoans in c
    ensures r.Err? <==> exists i :: 0 <= i < |Categorical| && Unknown(c, enc, Categorical[i])
    ensures r.Err? ==> r.error.column in Categorical && Unknown(c, enc, r.error.column)
                       && r.error.value == c[r.error.column]
    ensures r.Ok? ==> |r.value| == |expected| && forall i :: 0 <= i < |expected| ==> r.value[i].0 == expected[i]
  {
    FirstUnknownIsFirst(c, enc, Categorical);
    match FirstUnknown(c, enc, Categorical)
    case Some(bad) => Err(UnknownCategory(bad.0, bad.1))
    case None => Ok(seq(|expected|, i requires 0 <= i < |expected| => (expected[i], FeatureValue(c, enc, expected[i]))))
  }

  /** Two records that agree on whether each of `cols` is unknown, and on its value, have the same first unknown column. */
  lemma {:induction false} FirstUnknownAgrees(c1: Record, c2: Record, enc: EncoderTable, cols: seq<string>)
    requires forall i :: 0 <= i < |cols| ==> Unknown(c1, enc, cols[i]) == Unknown(c2, enc, cols[i])
    requires forall i :: 0 <= i < |cols| && Unknown(c1, enc, cols[i]) ==> cols[i] in c2 && c1[cols[i]] == c2[cols[i]]
    ensures FirstUnknown(c1, enc, cols) == FirstUnknown(c2, enc, cols)
  {
    if cols != [] {
      FirstUnknownAgrees(c1, c2, enc, cols[..|cols| - 1]);
    }
  }

  /** No column is listed twice. */
  predicate Distinct(cols: seq<string>)
  {
    forall i, j :: 0 <= i < j < |cols| ==> cols[i] != cols[j]
  }

  /**
   * The state of the categorical loop once it has handled `cols[..i]`:
   * those columns hold their codes, and every other column is present and
   * valued exactly as in `frame`.
   */
  ghost predicate EncodedUpTo(frame: Record, encoders: EncoderTable, cols: seq<string>, i: nat, encoded: Record)
    requires i <= |cols|
  {
    && (forall k :: k in encoded <==> k in frame || k in cols[..i])
    && (forall k :: k in encoded && k !in cols[..i] ==> encoded[k] == frame[k])
    && (forall j :: 0 <= j < i ==> encoded[cols[j]] == Num(CategoryCode(frame, encoders, cols[j])))
  }

  /**
   * One turn of the categorical loop: the next column still holds its value
   * from `frame`, and writing its code keeps `EncodedUpTo` one column further.
   */
  lemma EncodeStep(frame: Record, encoders: EncoderTable, cols: seq<string>, i: nat, encoded: Record)
    requires Distinct(cols) && i < |cols|
    requires EncodedUpTo(frame, encoders, cols, i, encoded)
    ensures cols[i] in encoded <==> cols[i] in frame
    ensures cols[i] in encoded ==> encoded[cols[i]] == frame[cols[i]]
    ensures EncodedUpTo(frame, encoders, cols, i + 1, encoded[cols[i] := Num(CategoryCode(frame, encoders, cols[i]))])
  {
    assert cols[..i + 1] == cols[..i] + [cols[i]];
    assert cols[i] !in cols[..i];
  }

  /** Once the loop has handled every column of `cols`, the columns are those of `frame` and `cols`, the listed ones holding their codes. */
  lemma EncodedAll(frame: Record, encoders: EncoderTable, cols: seq<string>, encoded: Record)
    requires EncodedUpTo(frame, encoders, cols, |cols|, encoded)
    ensures forall k :: k in encoded <==> k in frame || k in cols
    ensures forall k :: k in encoded ==>
              encoded[k] == if k in cols then Num(CategoryCode(frame, encoders, k)) else frame[k]
  {
    assert cols[..|cols|] == cols;
    forall k | k in encoded && k in cols
      ensures encoded[k] == Num(CategoryCode(frame, encoders, k))
    {
      var j :| 0 <= j < |cols| && cols[j] == k;
    }
  }

  /** When no column of `cols[..i]` holds an unseen category and `cols[i]` does, `cols[i]` is the first one of `cols`. */
  lemma StopsAt(frame: Record, encoders: EncoderTable, cols: seq<string>, i: nat)
    requires i < |cols|
    requires forall j :: 0 <= j < i ==> !Unknown(frame, encoders, cols[j])
    requires Unknown(frame, encoders, cols[i])
    ensures FirstUnknown(frame, encoders, cols) == Some((cols[i], frame[cols[i]]))
  {
    FirstUnknownIsFirst(frame, encoders, cols[..i]);
    assert cols[..i + 1][..i] == cols[..i];
    FirstUnknownPrefix(frame, encoders, cols, i + 1);
  }

  /**
   * The categorical loop of the page (Bank.py:92-101), over the columns
   * `cols`: each one that is present and has an encoder is replaced by its
   * code, and stops the preparation on an unseen category; any other is set
   * to 0. All other columns are left alone.
   */
  method EncodeCategoricals(frame: Record, encoders: EncoderTable, cols: seq<string>) returns (r: Result<Record, PrepError>)
    requires Distinct(cols)
    ensures r.Err? <==> FirstUnknown(frame, encoders, cols).Some?
    ensures r.Err? ==> r.error == UnknownCategory(FirstUnknown(frame, encoders, cols).value.0,
                                                  FirstUnknown(frame, encoders, cols).value.1)
    ensures r.Ok? ==> forall k :: k in r.value <==> k in frame || k in cols
    ensures r.Ok? ==> forall k :: k in r.value ==>
                        r.value[k] == if k in cols then Num(CategoryCode(frame, encoders, k)) else frame[k]
  {
    var encoded := frame;
    var i := 0;
    while i < |cols|
      invariant 0 <= i <= |cols|
      invariant forall j :: 0 <= j < i ==> !Unknown(frame, encoders, cols[j])
      invariant EncodedUpTo(frame, encoders, cols, i, encoded)
    {
      var col := cols[i];
      EncodeStep(frame, encoders, cols, i, encoded);
      if col in encoded && col in encoders {
        var category := Text(encoded[col]);
        if category !in encoders[col] {
          StopsAt(frame, encoders, cols, i);
          return Err(UnknownCategory(col, encoded[col]));
        }
        encoded := encoded[col := Num(encoders[col][category])];
      } else {
        encoded := encoded[col := Num(0)];
      }
      assert !Unknown(frame, encoders, col);
      i := i + 1;
    }
    FirstUnknownIsFirst(frame, encoders, cols);
    EncodedAll(frame, encoders, cols, encoded);
    r := Ok(encoded);
  }

  /** The fill loop of the page (Bank.py:107-109): every expected feature not yet a column becomes a column holding 0. */
  method FillMissing(frame: Record, expected: seq<string>) returns (filled: Record)
    ensures forall f :: f in filled <==> f in frame || f in expected
    ensures forall f :: f in filled ==> filled[f] == if f in frame then frame[f] else Num(0)
  {
    filled := frame;
    var j := 0;
    while j < |expected|
      invariant 0 <= j <= |expected|
      invariant forall f :: f in filled <==> f in frame || f in expected[..j]
      invariant forall f :: f in filled ==> filled[f] == if f in frame then frame[f] else Num(0)
    {
      assert expected[..j + 1] == expected[..j] + [expected[j]];
      if expected[j] !in filled {
        filled := filled[expected[j] := Num(0)];
      }
      j := j + 1;
    }
    assert expected[..j] == expected;
  }

  /** The reordering of the page (Bank.py:112): exactly the expected columns, in the expected order. */
  method Project(frame: Record, expected: seq<string>) returns (v: FeatureVector)
    requires forall i :: 0 <= i < |expected| ==> expected[i] in frame
    ensures |v| == |expected|
    ensures forall i :: 0 <= i < |expected| ==> v[i] == (expected[i], frame[expected[i]])
  {
    v := [];
    var k := 0;
    while k < |expected|
      invariant 0 <= k <= |expected|
      invariant |v| == k
      invariant forall m :: 0 <= m < k ==> v[m] == (expected[m], frame[expected[m]])
    {
      v := v + [(expected[k], frame[expected[k]])];
      k := k + 1;
    }
  }

  /**
   * The preparation steps of the page, in order, on a mutable column map:
   * drop the identifying columns, encode the categorical columns, binarize
   * Existing_Loans, fill every missing expected feature with 0, then project
   * onto the expected features in their order (Bank.py:84-112).
   */
  method PrepareFeatures(customer: Record, encoders: EncoderTable, expected: seq<string>)
    returns (r: Result<FeatureVector, PrepError>)
    requires ExistingLoans in customer
    ensures r == Prepare(customer, encoders, expected)
  {
    var frame := customer - Dropped;
    FirstUnknownAgrees(frame, customer, encoders, Categorical);

    var encoded := EncodeCategoricals(frame, encoders, Categorical);
    if encoded.Err? {
      return Err(encoded.error);
    }
    frame := encoded.value;

    frame := frame[ExistingLoans := Num(if customer[ExistingLoans] == Str("Yes") then 1 else 0)];
    assert forall f :: f in frame ==> frame[f] == FeatureValue(customer, encoders, f);
    assert forall f :: f !in frame ==> FeatureValue(customer, encoders, f) == Num(0);

    frame := FillMissing(frame, expected);
    var vector := Project(frame, expected);
    assert vector == seq(|expected|, i requires 0 <= i < |expected| => (expected[i], FeatureValue(customer, encoders, expected[i])));
    r := Ok(vector);
  }
}

/** What feature preparation promises about every prepared vector. */
module ReconcilerProperties {
  import opened Wrappers
  import opened Customer
  import opened Reconciler

  /**
   * The identifying fields never influence preparation: two records that
   * differ only in those fields prepare to the same result.
   */
  lemma IdentifyingFieldsIgnored(c1: Record, c2: Record, enc: EncoderTable, expected: seq<string>)
    requires ExistingLoans in c1
    requires c1 - Dropped == c2 - Dropped
    ensures ExistingLoans in c2
    ensures Prepare(c1, enc, expected) == Prepare(c2, enc, expected)
  {
    assert ExistingLoans in c1 - Dropped;
    forall i | 0 <= i < |Categorical|
      ensures Unknown(c1, enc, Categorical[i]) == Unknown(c2, enc, Categorical[i])
      ensures Unknown(c1, enc, Categorical[i]) ==> Categorical[i] in c2 && c1[Categorical[i]] == c2[Categorical[i]]
    {
      var col := Categorical[i];
      assert col in c1 <==> col in c1 - Dropped;
      assert col in c2 <==> col in c2 - Dropped;
      assert col in c1 ==> c1[col] == (c1 - Dropped)[col];
    }
    FirstUnknownAgrees(c1, c2, enc, Categorical);
    forall f ensures FeatureValue(c1, enc, f) == FeatureValue(c2, enc, f) {
      if f !in Dropped {
        assert f in c1 <==> f in c1 - Dropped;
        assert f in c2 <==> f in c2 - Dropped;
        assert f in c1 ==> c1[f] == (c1 - Dropped)[f];
        assert f in c2 ==> c2[f] == (c2 - Dropped)[f];
      }
    }
    var r1, r2 := Prepare(c1, enc, expected), Prepare(c2, enc, expected);
    if r1.Ok? {
      assert r2.Ok?;
      forall i | 0 <= i < |expected| ensures r1.value[i] == r2.value[i] {
        assert r1.value[i] == (expected[i], FeatureValue(c1, enc, expected[i]));
        assert r2.value[i] == (expected[i], FeatureValue(c2, enc, expected[i]));
      }
      assert |r1.value| == |r2.value|;
      assert r1.value == r2.value;
    }
  }

  /** An expected feature that names an identifying field only ever holds the filled-in 0. */
  lemma DroppedFeatureIsZero(c: Record, enc: EncoderTable, expected: seq<string>, i: nat)
    requires ExistingLoans in c
    requires i < |expected| && expected[i] in Dropped
    requires Prepare(c, enc, expected).Ok?
    ensures Prepare(c, enc, expected).value[i].1 == Num(0)
  {
  }

  /** Existing_Loans is 1 exactly when the record says "Yes", and 0 for every other value. */
  lemma ExistingLoansBinarized(c: Record, enc: EncoderTable, expected: seq<string>, i: nat)
    requires ExistingLoans in c
    requires i < |expected| && expected[i] == ExistingLoans
    requires Prepare(c, enc, expected).Ok?
    ensures Prepare(c, enc, expected).value[i].1 == Num(1) <==> c[ExistingLoans] == Str("Yes")
    ensures Prepare(c, enc, expected).value[i].1 == Num(0) <==> c[ExistingLoans] != Str("Yes")
  {
  }

  /** A present categorical column with an encoder holds that encoder's code for its value. */
  lemma KnownCategoryEncoded(c: Record, enc: EncoderTable, expected: seq<string>, i: nat)
    requires ExistingLoans in c
    requires i < |expected| && expected[i] in Categorical && expected[i] in c && expected[i] in enc
    requires Prepare(c, enc, expected).Ok?
    ensures Text(c[expected[i]]) in enc[expected[i]]
    ensures Prepare(c, enc, expected).value[i].1 == Num(enc[expected[i]][Text(c[expected[i]])])
  {
    var k :| 0 <= k < |Categorical| && Categorical[k] == expected[i];
  }

  /** A categorical column missing from the record, or without an encoder, holds 0. */
  lemma MissingCategoryIsZero(c: Record, enc: EncoderTable, expected: seq<string>, i: nat)
    requires ExistingLoans in c
    requires i < |expected| && expected[i] in Categorical
    requires expected[i] !in c || expected[i] !in enc
    requires Prepare(c, enc, expected).Ok?
    ensures Prepare(c, enc, expected).value[i].1 == Num(0)
  {
  }

  /**
   * An unseen category stops preparation; the error names the first
   * categorical column, in processing order, whose value is unseen.
   */
  lemma UnknownCategoryAborts(c: Record, enc: EncoderTable, expected: seq<string>, n: nat)
    requires ExistingLoans in c
    requires n < |Categorical| && Unknown(c, enc, Categorical[n])
    requires forall j :: 0 <= j < n ==> !Unknown(c, enc, Categorical[j])
    ensures Prepare(c, enc, expected) == Err(UnknownCategory(Categorical[n], c[Categorical[n]]))
  {
    FirstUnknownIsFirst(c, enc, Categorical);
    var r := FirstUnknown(c, enc, Categorical);
    var k :| 0 <= k < |Categorical| && Categorical[k] == r.value.0 && Unknown(c, enc, Categorical[k])
             && forall j :: 0 <= j < k ==> !Unknown(c, enc, Categorical[j]);
    assert k == n;
  }

  /** Any other field the classifier expects passes through with its raw value. */
  lemma OtherFieldsPassThrough(c: Record, enc: EncoderTable, expected: seq<string>, i: nat)
    requires ExistingLoans in c
    requires i < |expected| && expected[i] in c
    requires expected[i] !in Dropped && expected[i] !in Categorical && expected[i] != ExistingLoans
    requires Prepare(c, enc, expected).Ok?
    ensures Prepare(c, enc, expected).value[i].1 == c[expected[i]]
  {
  }

  /** An expected feature absent from the record, other than Existing_Loans, is filled with 0. */
  lemma MissingFeatureIsZero(c: Record, enc: EncoderTable, expected: seq<string>, i: nat)
    requires ExistingLoans in c
    requires i < |expected| && expected[i] !in c && expected[i] != ExistingLoans
    requires Prepare(c, enc, expected).Ok?
    ensures Prepare(c, enc, expected).value[i].1 == Num(0)
  {
  }
}
