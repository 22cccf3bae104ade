/** What the encoder guarantees over the form's domain: the bounds of every
    column, that it is a bijection between form submissions and the box of
    valid rows (with the decoder as its inverse), and which inputs make it
    fail or collide. */
module EncoderProperties {
  import opened Encoder

  /** The rows the encoder produces from form submissions: each column
      within the range its widget allows. */
  predicate ValidRow(row: seq<int>) {
    && |row| == 8
    && 0 <= row[0] < |AgeBrackets|
    && 0 <= row[1] <= 1
    && 1 <= row[2] <= 20
    && 0 <= row[3] <= 50
    && 0 <= row[4] <= 10
    && 0 <= row[5] <= 10
    && 0 <= row[6] < |A1CChoices|
    && 0 <= row[7] < |GluChoices|
  }

  /** The inverse of the encoder: reads a valid row back as the form
      submission it came from. */
  function DecodeRow(row: seq<int>): (r: Option<RawInput>)
    ensures r.Some? <==> ValidRow(row)
    ensures r.Some? ==> InDomain(r.value)
  {
    if ValidRow(row) then
      Some(RawInput(
        AgeBrackets[row[0]],
        if row[1] == 1 then "Male" else "Female",
        row[2], row[3],
        A1CChoices[row[6]], GluChoices[row[7]],
        row[4], row[5]))
    else None
  }

  /** Each table sends the i-th choice of its list to i: age brackets to
      0..9, A1C results and glucose levels to 0..3. */
  lemma TableCodesArePositions()
    ensures forall i :: 0 <= i < |AgeBrackets| ==> AgeCode(AgeBrackets[i]) == Ok(i)
    ensures forall i :: 0 <= i < |A1CChoices| ==> A1CCode(A1CChoices[i]) == Ok(i)
    ensures forall i :: 0 <= i < |GluChoices| ==> GluCode(GluChoices[i]) == Ok(i)
  {
  }

  /** No two strings share a code in any of the three tables. */
  lemma TableCodesInjective(a: string, b: string)
    ensures AgeCode(a).Ok? && AgeCode(a) == AgeCode(b) ==> a == b
    ensures A1CCode(a).Ok? && A1CCode(a) == A1CCode(b) ==> a == b
    ensures GluCode(a).Ok? && GluCode(a) == GluCode(b) ==> a == b
  {
  }

  /** Every form submission encodes, and every column stays within its
      widget's range. */
  lemma EncodedRowInBounds(x: RawInput)
    requires InDomain(x)
    ensures ExpectedRow(x).Ok? && ValidRow(ExpectedRow(x).value)
  {
  }

  /** Decoding an encoded submission gives the submission back. */
  lemma DecodeEncode(x: RawInput)
    requires InDomain(x)
    ensures ExpectedRow(x).Ok? && DecodeRow(ExpectedRow(x).value) == Some(x)
  {
  }

  /** Encoding a decoded row gives the row back, so every valid row is
      reached. */
  lemma EncodeDecode(row: seq<int>)
    requires ValidRow(row)
    ensures DecodeRow(row).Some? && ExpectedRow(DecodeRow(row).value) == Ok(row)
  {
    var x := DecodeRow(row).value;
    AgeMapIsPositions();
    A1CMapIsPositions();
    GluMapIsPositions();
    PositionUnique(AgeBrackets, row[0]);
    PositionUnique(A1CChoices, row[6]);
    PositionUnique(GluChoices, row[7]);
    assert ExpectedRow(x).value == row;
  }

  /** Two different form submissions never give the same row. */
  lemma EncodingInjective(x: RawInput, y: RawInput)
    requires InDomain(x) && InDomain(y) && x != y
    ensures ExpectedRow(x) != ExpectedRow(y)
  {
    // The decoder is a left inverse on the form's domain.
    DecodeEncode(x);
    DecodeEncode(y);
  }

  /** Outside the form's domain the gender flag loses information: every
      gender other than "Male" encodes like "Female", and none fails. */
  lemma NonMaleGendersCollide(x: RawInput, g: string)
    requires g != "Male"
    ensures ExpectedRow(x.(gender := g)) == ExpectedRow(x.(gender := "Female"))
  {
  }

  /** Whether encoding succeeds depends only on the three looked-up fields:
      neither the gender nor the four counts can make it fail. */
  lemma OnlyLookupsFail(x: RawInput, y: RawInput)
    requires x.age == y.age && x.a1cResult == y.a1cResult && x.maxGluSerum == y.maxGluSerum
    ensures ExpectedRow(x).Ok? <==> ExpectedRow(y).Ok?
    ensures ExpectedRow(x).Err? ==> ExpectedRow(x) == ExpectedRow(y)
  {
  }

  /** Two runs of the encoder on the same input agree. */
  method EncodeTwice(data: RawInput) returns (first: Result<seq<seq<int>>>, second: Result<seq<seq<int>>>)
    ensures first == second
  {
    first := EncodeInputs(data);
    second := EncodeInputs(data);
  }

  /** The encoder tells any two different form submissions apart. */
  method EncodeDistinct(x: RawInput, y: RawInput) returns (rx: Result<seq<seq<int>>>, ry: Result<seq<seq<int>>>)
    requires InDomain(x) && InDomain(y) && x != y
    ensures rx.Ok? && ry.Ok? && |rx.value| == |ry.value| == 1 && rx.value[0] != ry.value[0]
  {
    rx := EncodeInputs(x);
    ry := EncodeInputs(y);
    EncodingInjective(x, y);
  }
}
