/** The feature encoder of the diabetes risk form: it turns the form's raw
    selections into the single 8-column numeric row that the classifier was
    trained on. Categorical fields are looked up in constant tables; a value
    missing from its table raises, which is modelled as an error result. */
module Encoder {

  /** The three lookup tables whose subscript can raise. */
  datatype Table = AgeTable | A1CTable | GluTable

  /** Python's KeyError from `table[key]`, tagged with the table it came from. */
  datatype EncodeError = KeyError(table: Table, key: string)

  datatype Result<+T> = Ok(value: T) | Err(error: EncodeError) {
    predicate IsFailure() { Err? }

    function PropagateFailure<U>(): Result<U>
      requires Err?
    {
      Err(error)
    }

    function Extract(): T
      requires Ok?
    {
      value
    }
  }

  datatype Option<+T> = None | Some(value: T)

  /** The eight keys of the input dictionary. */
  datatype Field =
    | Age | Gender | TimeInHospital | NumMedications
    | A1CResult | MaxGluSerum | NumberInpatient | NumberOutpatient

  /** One form submission: the input dictionary with its fields in the
      dictionary's own key order. Categorical values are free strings, so
      that values outside the form's choices can be expressed. */
  datatype RawInput = RawInput(
    age: string,
    gender: string,
    timeInHospital: int,
    numMedications: int,
    a1cResult: string,
    maxGluSerum: string,
    numberInpatient: int,
    numberOutpatient: int)

  // The closed choice lists the form offers.

  const AgeBrackets: seq<string> :=
    ["[0-10)", "[10-20)", "[20-30)", "[30-40)", "[40-50)",
     "[50-60)", "[60-70)", "[70-80)", "[80-90)", "[90-100)"]
  const GenderChoices: seq<string> := ["Male", "Female"]
  const A1CChoices: seq<string> := ["None", "Norm", ">7", ">8"]
  const GluChoices: seq<string> := ["None", "Norm", ">200", ">300"]

  /** Every value the form's widgets can produce. */
  predicate InDomain(x: RawInput) {
    && x.age in AgeBrackets
    && x.gender in GenderChoices
    && 1 <= x.timeInHospital <= 20
    && 0 <= x.numMedications <= 50
    && x.a1cResult in A1CChoices
    && x.maxGluSerum in GluChoices
    && 0 <= x.numberInpatient <= 10
    && 0 <= x.numberOutpatient <= 10
  }

  /** The order of the keys in the input dictionary. */
  const DictKeys: seq<Field> :=
    [Age, Gender, TimeInHospital, NumMedications,
     A1CResult, MaxGluSerum, NumberInpatient, NumberOutpatient]

  /** The order of the columns in the encoded row. */
  const Columns: seq<Field> :=
    [Age, Gender, TimeInHospital, NumMedications,
     NumberInpatient, NumberOutpatient, A1CResult, MaxGluSerum]

  /** The row carries every dictionary field exactly once, but not in the
      dictionary's order: the two visit counts come before A1C and glucose. */
  lemma ColumnsReorderDictKeys()
    ensures Distinct(Columns) && Distinct(DictKeys)
    ensures forall f: Field :: f in Columns && f in DictKeys
    ensures Columns == [DictKeys[0], DictKeys[1], DictKeys[2], DictKeys[3],
                        DictKeys[6], DictKeys[7], DictKeys[4], DictKeys[5]]
    ensures Columns != DictKeys
  {
    forall f: Field ensures f in Columns && f in DictKeys {
      match f
      case Age => assert Columns[0] == DictKeys[0] == f;
      case Gender => assert Columns[1] == DictKeys[1] == f;
      case TimeInHospital => assert Columns[2] == DictKeys[2] == f;
      case NumMedications => assert Columns[3] == DictKeys[3] == f;
      case A1CResult => assert Columns[6] == DictKeys[4] == f;
      case MaxGluSerum => assert Columns[7] == DictKeys[5] == f;
      case NumberInpatient => assert Columns[4] == DictKeys[6] == f;
      case NumberOutpatient => assert Columns[5] == DictKeys[7] == f;
    }
  }

  // The encoder's constant lookup tables.

  const AgeMap: map<string, int> :=
    map["[0-10)" := 0, "[10-20)" := 1, "[20-30)" := 2, "[30-40)" := 3, "[40-50)" := 4,
        "[50-60)" := 5, "[60-70)" := 6, "[70-80)" := 7, "[80-90)" := 8, "[90-100)" := 9]
  const A1CMap: map<string, int> := map["None" := 0, "Norm" := 1, ">7" := 2, ">8" := 3]
  const GluMap: map<string, int> := map["None" := 0, "Norm" := 1, ">200" := 2, ">300" := 3]

  /** A position at which `v` occurs in `s`; in a list without repeats,
      the only one. */
  ghost function Position<T>(s: seq<T>, v: T): (i: nat)
    requires v in s
    ensures i < |s| && s[i] == v
  {
    var i :| 0 <= i < |s| && s[i] == v; i
  }

  /** No element occurs twice. */
  predicate Distinct<T(==)>(s: seq<T>) {
    forall i, j :: 0 <= i < j < |s| ==> s[i] != s[j]
  }

  /** In a list without repeats, an element's position is determined. */
  lemma PositionUnique<T>(s: seq<T>, i: nat)
    requires Distinct(s) && i < |s|
    ensures Position(s, s[i]) == i
  {
  }

  /** A table that keys each element of a repeat-free list to its position
      answers a lookup exactly for the list's elements, with the position. */
  lemma LookupIsPosition<K>(m: map<K, int>, s: seq<K>, k: K)
    requires Distinct(s)
    requires m.Keys == set v | v in s
    requires forall i :: 0 <= i < |s| ==> m[s[i]] == i
    ensures k in m <==> k in s
    ensures k in m ==> m[k] == Position(s, k)
  {
  }

  /** The age table holds exactly the form's brackets, each keyed to its
      position. */
  lemma AgeMapIsPositions()
    ensures AgeMap.Keys == set b | b in AgeBrackets
    ensures forall i :: 0 <= i < |AgeBrackets| ==> AgeMap[AgeBrackets[i]] == i
    ensures Distinct(AgeBrackets)
  {
  }

  lemma A1CMapIsPositions()
    ensures A1CMap.Keys == set v | v in A1CChoices
    ensures forall i :: 0 <= i < |A1CChoices| ==> A1CMap[A1CChoices[i]] == i
    ensures Distinct(A1CChoices)
  {
  }

  lemma GluMapIsPositions()
    ensures GluMap.Keys == set v | v in GluChoices
    ensures forall i :: 0 <= i < |GluChoices| ==> GluMap[GluChoices[i]] == i
    ensures Distinct(GluChoices)
  {
  }

  /** The age lookup: a bracket encodes to its position among the form's
      brackets, and any other string raises. */
  function AgeCode(bracket: string): (r: Result<int>)
    ensures r.Ok? <==> bracket in AgeBrackets
    ensures r.Ok? ==> r.value == Position(AgeBrackets, bracket)
    ensures r.Err? ==> r.error == KeyError(AgeTable, bracket)
  {
    AgeMapIsPositions();
    LookupIsPosition(AgeMap, AgeBrackets, bracket);
    if bracket in AgeMap then Ok(AgeMap[bracket]) else Err(KeyError(AgeTable, bracket))
  }

  /** The gender flag: total on every string, 1 exactly for "Male". */
  function GenderFlag(gender: string): (b: int)
    ensures b == 1 <==> gender == "Male"
    ensures b == 0 <==> gender != "Male"
  {
    if gender == "Male" then 1 else 0
  }

  /** The A1C lookup: a result encodes to its position among the form's
      choices, and any other string raises. */
  function A1CCode(result: string): (r: Result<int>)
    ensures r.Ok? <==> result in A1CChoices
    ensures r.Ok? ==> r.value == Position(A1CChoices, result)
    ensures r.Err? ==> r.error == KeyError(A1CTable, result)
  {
    A1CMapIsPositions();
    LookupIsPosition(A1CMap, A1CChoices, result);
    if result in A1CMap then Ok(A1CMap[result]) else Err(KeyError(A1CTable, result))
  }

  /** The max-glucose-serum lookup, in the same way. */
  function GluCode(level: string): (r: Result<int>)
    ensures r.Ok? <==> level in GluChoices
    ensures r.Ok? ==> r.value == Position(GluChoices, level)
    ensures r.Err? ==> r.error == KeyError(GluTable, level)
  {
    GluMapIsPositions();
    LookupIsPosition(GluMap, GluChoices, level);
    if level in GluMap then Ok(GluMap[level]) else Err(KeyError(GluTable, level))
  }

  /** The three table lookups all succeed. */
  predicate Encodable(x: RawInput) {
    x.age in AgeBrackets && x.a1cResult in A1CChoices && x.maxGluSerum in GluChoices
  }

  /** The specification of the encoder: the expected row, in column order
      age, gender, the four counts, A1C, glucose, where every categorical
      value stands for its position in the form's choice list. The first
      lookup to fail, in the order age, A1C, glucose, decides the error. */
  ghost function ExpectedRow(x: RawInput): (r: Result<seq<int>>)
    ensures r.Ok? <==> Encodable(x)
    ensures r.Ok? ==> |r.value| == |Columns|
  {
    if x.age !in AgeBrackets then Err(KeyError(AgeTable, x.age))
    else if x.a1cResult !in A1CChoices then Err(KeyError(A1CTable, x.a1cResult))
    else if x.maxGluSerum !in GluChoices then Err(KeyError(GluTable, x.maxGluSerum))
    else Ok([
      Position(AgeBrackets, x.age), GenderFlag(x.gender),
      x.timeInHospital, x.numMedications, x.numberInpatient, x.numberOutpatient,
      Position(A1CChoices, x.a1cResult), Position(GluChoices, x.maxGluSerum)])
  }

  /** The code of one field on its own. */
  ghost function Code(x: RawInput, f: Field): int
    requires Encodable(x)
  {
    match f
    case Age => Position(AgeBrackets, x.age)
    case Gender => GenderFlag(x.gender)
    case TimeInHospital => x.timeInHospital
    case NumMedications => x.numMedications
    case A1CResult => Position(A1CChoices, x.a1cResult)
    case MaxGluSerum => Position(GluChoices, x.maxGluSerum)
    case NumberInpatient => x.numberInpatient
    case NumberOutpatient => x.numberOutpatient
  }

  /** Column `i` of the expected row holds the code of field `Columns[i]`. */
  lemma ColumnHoldsField(x: RawInput, i: nat)
    requires Encodable(x) && i < |Columns|
    ensures ExpectedRow(x).Ok? && ExpectedRow(x).value[i] == Code(x, Columns[i])
  {
  }

  /** The encoder itself: it appends one code per column to `encoded`, in
      the column order, and returns that list as a one-row matrix. A failed
      lookup aborts the encoding with its KeyError. */
  method EncodeInputs(data: RawInput) returns (r: Result<seq<seq<int>>>)
    ensures r.Ok? <==> Encodable(data)
    ensures r.Ok? ==> |r.value| == 1 && |r.value[0]| == 8
    ensures r.Ok? ==> r.value == [ExpectedRow(data).value]
    ensures r.Err? ==> r.error == ExpectedRow(data).error
    ensures data.age !in AgeBrackets ==> r == Err(KeyError(AgeTable, data.age))
    ensures data.age in AgeBrackets && data.a1cResult !in A1CChoices ==>
      r == Err(KeyError(A1CTable, data.a1cResult))
    ensures data.age in AgeBrackets && data.a1cResult in A1CChoices && data.maxGluSerum !in GluChoices ==>
      r == Err(KeyError(GluTable, data.maxGluSerum))
  {
    var encoded: seq<int> := [];

    var age :- AgeCode(data.age);
    encoded := encoded + [age];

    encoded := encoded + [GenderFlag(data.gender)];

    encoded := encoded + [data.timeInHospital];
    encoded := encoded + [data.numMedications];
    encoded := encoded + [data.numberInpatient];
    encoded := encoded + [data.numberOutpatient];

    var a1c :- A1CCode(data.a1cResult);
    encoded := encoded + [a1c];

    var glu :- GluCode(data.maxGluSerum);
    encoded := encoded + [glu];

    assert encoded == [age, GenderFlag(data.gender),
      data.timeInHospital, data.numMedications, data.numberInpatient, data.numberOutpatient,
      a1c, glu];

    return Ok([encoded]);
  }
}
