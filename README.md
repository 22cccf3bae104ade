# Diabetes risk form: the feature encoder

The application is a single-page form. It asks for an age bracket, a gender,
the days spent in hospital, the number of medications, an A1C test result, a
maximum glucose serum level and the numbers of inpatient and outpatient
visits. It feeds these to a pre-trained scaler and classifier and shows a
risk message. The only logic of its own is `encode_inputs`. That function
turns the form's selections into the single 8-column numeric row that the
classifier expects, and it is what this project models.

- `encoder.dfy`, module `Encoder`, holds the data model and the encoder:
  - `RawInput` is the input dictionary, with its fields in the dictionary's key order.
  - The form's choice lists and the encoder's three constant lookup tables are constants.
  - A dictionary subscript that raises `KeyError` is an `Err(KeyError(table, key))` result.
  - `EncodeInputs` builds the list `encoded` by eight appends, in the source's order.
    It aborts at the first failing lookup and returns the list as a one-row matrix.
  - `EncodeInputs` is proved against the specification function `ExpectedRow`.
    That function states the row from the form's choice lists: every categorical
    value stands for its position in its list.
- `properties.dfy`, module `EncoderProperties`, holds what follows for every input:
  - the column bounds;
  - a decoder `DecodeRow` with both round trips, so the encoding is a bijection
    between form submissions and the box of valid rows;
  - injectivity over the form's domain, and the gender collision outside it;
  - which fields can make encoding fail;
  - determinism.

Categorical values are modelled as arbitrary strings, not as an enumeration.
That way a value outside the form's choices can be written down, and the
model can say what happens to it. An age, A1C or glucose value outside its
table is an error. A gender outside `Male`/`Female` is silently encoded as 0.
The numeric fields are unbounded integers that pass through unchanged. The
slider ranges appear only in `InDomain`, the predicate for the values the
widgets can produce.

## Model

| member | source | states |
|---|---|---|
| `Encoder.AgeCode` | app.py:40-42 | The age lookup succeeds exactly for the ten brackets of the form. It gives the bracket's position in the form's list, so the code is in 0..9; any other string gives `KeyError` on the age table. |
| `Encoder.GenderFlag` | app.py:45 | The flag is 1 exactly when the gender is `"Male"` and 0 for every other string. It is total and never fails. |
| `Encoder.A1CCode` | app.py:54-55 | The A1C lookup succeeds exactly for `None`, `Norm`, `>7`, `>8` and gives the value's position, 0..3. Any other string gives `KeyError` on the A1C table. |
| `Encoder.GluCode` | app.py:58-59 | The glucose lookup succeeds exactly for `None`, `Norm`, `>200`, `>300` and gives the value's position, 0..3. Any other string gives `KeyError` on the glucose table. |
| `Encoder.AgeMapIsPositions` | app.py:40-41 | The age table's keys are exactly the bracket list of the form (app.py:14). Each bracket is keyed to its position, and no bracket is repeated. |
| `Encoder.A1CMapIsPositions` | app.py:54 | The A1C table's keys are exactly the form's A1C choices (app.py:18). Each choice is keyed to its position, with no repeats. |
| `Encoder.GluMapIsPositions` | app.py:58 | The glucose table's keys are exactly the form's glucose choices (app.py:19). Each choice is keyed to its position, with no repeats. |
| `Encoder.ExpectedRow` | app.py:36-61 | The specification of the encoder. The row exists exactly when the three lookups succeed, whatever the gender and counts, and then it has one entry per column. |
| `Encoder.ColumnHoldsField` | app.py:42-59 | Column `i` of the row holds the code of field `Columns[i]`. The columns are, in order: age, gender, time in hospital, medications, inpatient, outpatient, A1C, glucose. |
| `Encoder.ColumnsReorderDictKeys` | app.py:24-59 | The row carries every dictionary field exactly once. Its order differs from the dictionary's key order: the two visit counts move ahead of A1C and glucose. |
| `Encoder.EncodeInputs` | app.py:36-61 | Appending the eight codes gives a 1x8 matrix whose only row is `ExpectedRow`. It fails exactly when a lookup fails. The error is that of the first failing lookup: age, then A1C, then glucose. |
| `EncoderProperties.DecodeRow` | app.py:36-61 | The inverse of the encoder. It decodes exactly the rows within the column ranges, and only into submissions the form can produce. |
| `EncoderProperties.TableCodesArePositions` | app.py:40-59 | The i-th choice of each list encodes to i: `'[0-10)'`→0 … `'[90-100)'`→9, and `None`, `Norm`, `>7`/`>200`, `>8`/`>300` → 0, 1, 2, 3. |
| `EncoderProperties.TableCodesInjective` | app.py:40-59 | No two strings share a code in any of the three tables. |
| `EncoderProperties.EncodedRowInBounds` | app.py:14-21 | Every form submission encodes. Its row keeps age in 0..9, gender in 0..1, days in 1..20, medications in 0..50, the visit counts each in 0..10, and A1C and glucose each in 0..3. |
| `EncoderProperties.DecodeEncode` | app.py:36-61 | Decoding the row of any form submission gives that submission back. |
| `EncoderProperties.EncodeDecode` | app.py:36-61 | Encoding the decoding of any row within the column ranges gives that row back. So every such row is reached. |
| `EncoderProperties.EncodingInjective` | app.py:36-61 | Two different form submissions always give different rows. |
| `EncoderProperties.NonMaleGendersCollide` | app.py:45 | Outside the form's choices, every gender other than `"Male"` encodes exactly as `"Female"` does, including its success or failure. So injectivity needs the form's domain. |
| `EncoderProperties.OnlyLookupsFail` | app.py:42-59 | Whether encoding fails, and with which error, depends only on the age, A1C and glucose values. The gender and the four counts cannot make it fail. |
| `EncoderProperties.EncodeTwice` | app.py:36-61 | Two runs of the encoder on the same input give the same result. |
| `EncoderProperties.EncodeDistinct` | app.py:36-61 | For two different form submissions the encoder returns two one-row matrices whose rows differ. |

## Left out

- Loading the classifier and the scaler from disk (app.py:6-7) is left out because it is file I/O on opaque serialized objects.
- The page setup, widgets and rendering (app.py:9-21, app.py:64-78) are left out because they are UI plumbing. Only the widgets' choice lists and slider ranges are kept, as `InDomain`.
- Scaling and classification (app.py:66-68) are left out because they are calls into a fitted model that is not visible, with floating-point numerics.
- The probability text and the high-risk/low-risk message (app.py:68-78) are left out because they are float formatting and display.
- Building the input dictionary (app.py:24-33) is the `RawInput` record. A missing dictionary key cannot be expressed, because the record always has all eight fields.
- The conversion to a NumPy array and the reshape (app.py:61) are modelled as a one-row sequence of unbounded integers. The array's 64-bit element type is not modelled. Within the form's domain every entry is at most 50.
- Python's dynamic typing is not modelled: categorical values are strings and counts are integers.
- The `KeyError` of the source carries only the missing key. The model adds the table it came from.
- The encoder does no one-hot encoding and no reordering against the classifier's feature list, so neither is modelled. It fails on unknown age, A1C and glucose values, but not on an unknown gender.
