# BOM row walker

A Dafny model of the output-building part of `Process_BOM.py` in EPD-Generator.
The script reads a bill-of-materials table one row at a time. The role tag of
each row (column `Description 7`) is stripped and lower-cased, and the script
dispatches on it:

- `single` writes one output record. The component fields come from that row
  and the material fields are `''`. The cursor moves on by one row.
- `paired` writes one record. The component fields come from that row and the
  material fields from the next row. The cursor moves on by two rows, so the
  material row is consumed.
- `paired` as the last row prints a warning and moves on by one row.
- `skip` does nothing and moves on by one row.
- Any other tag prints a warning that quotes the tag and moves on by one row.

The mapping `columns_to_extract` decides which field goes where. Each output
label maps to a source column (`Description` or `Weight`) and a row offset
(0 for the current row, 1 for the next).

The model is in three modules:

- `Text` is the normalisation `str(...).strip().lower()`. Strip removes
  exactly the characters Python's `str.isspace` accepts. Lower maps ASCII
  capitals, and the Kelvin sign U+212A, which Python lower-cases to `k`. It
  leaves every other character alone. In Python, each other character either
  lower-cases to itself, as here, or to something other than a single ASCII
  letter (U+0130, for one, becomes `i` followed by U+0307). So comparing
  against `single`, `paired` and `skip` comes out as in Python.
- `BomWalk` is the specification. It has the rows, `columns_to_extract`, the
  records, and the walk as a recursive function `WalkFrom` of the cursor
  position. Its lemmas are about the cursor, the records and the warnings.
  Both the lemmas and the walk take the roles as a sequence `roles`. The
  script's own walk is `Walk(rows)`, which uses `Classify(rows)` for the
  roles.
- `ProcessBom` is the script's loop as imperative code:
  - `Build` is the `while` loop. Its cursor `i`, `output_rows` and the list
    of warnings are local variables.
  - `Visit` is one pass of the loop body.
  - `FillSingle` and `FillPaired` are the `for` loops over
    `columns_to_extract` that fill `data`.

  Each of them is proved against the `BomWalk` specification.

Cells are opaque strings and the model does no arithmetic on them. A record
is the `data` dictionary, kept as a sequence of label/value entries in
insertion order. The script prints its warnings; here they are values that
`Build` returns in order: `NoNextRow(i)` for a `paired` last row, and
`UnknownValue(tag, i)` for an unrecognised tag.

`Process_BOM.py` computes no weights, classifies no rows and divides nothing.
It reads the `Description 7` role and the `Weight` cell as given, copies the
next row's `Weight` into `Material Fraction`, and emits nothing for a `skip`
row.

## Model

| member | source | states |
|---|---|---|
| ProcessBom.Build | Process_BOM.py:25-60 | The loop's output rows and warnings are exactly those of the walk specification `Walk(rows)`, in order. Together there are at most as many of them as rows. Every output row has the four labels of `columns_to_extract`, in order. |
| ProcessBom.Visit | Process_BOM.py:28-60 | One pass with the cursor at `i` returns the record and the warning it produces, and the next cursor position, as the specification says the row at `i` does (`Emitted`, `Warned`, `Advance`). |
| ProcessBom.FillSingle | Process_BOM.py:32-37 | The `data` filled for a `single` row is `SingleRecord(row)`, so its labels are the four of `columns_to_extract`, in order. |
| ProcessBom.FillPaired | Process_BOM.py:45-48 | The `data` filled for a `paired` row is `PairedRecord(component, material)`, so its labels are the four of `columns_to_extract`, in order. |
| BomWalk.ColumnsToExtract | Process_BOM.py:12-17 | A constant, no contract: the four fields of `columns_to_extract` in declaration order, each a label, a source column and a row offset 0 or 1. `OutputLabelsDistinct` states its properties. |
| BomWalk.SingleRecord | Process_BOM.py:32-37 | No ensures: the record a `single` row produces, one entry per field, the row's own cell for offset 0 and `''` otherwise. `SingleRecordFields` states its fields. |
| BomWalk.PairedRecord | Process_BOM.py:45-48 | No ensures: the record a `paired` row produces, one entry per field, read from the component row for offset 0 and from the next row otherwise. `PairedRecordFields` states its fields. |
| BomWalk.RoleOf | Process_BOM.py:29-58 | No ensures: normalises the tag and compares it against `single`, `paired` and `skip` in the script's order; anything else is `Unrecognised`. `RoleIgnoresPaddingAndCase` and the three examples state its behaviour. |
| BomWalk.Classify | Process_BOM.py:29 | The roles have one entry per row; `ClassifyAt` states that entry `k` is `RoleOf` of row `k`'s tag. |
| BomWalk.Advance | Process_BOM.py:39-60 | Each iteration moves the cursor by 1 or 2 and never past the row count. |
| BomWalk.Emitted | Process_BOM.py:31-50 | No ensures: the record the row at `i` emits, if any: its own record for `single`, the pair's record for `paired` with a next row, none otherwise. |
| BomWalk.Warned | Process_BOM.py:51-60 | No ensures: the warning the row at `i` raises, if any: `NoNextRow(i)` for a `paired` last row, `UnknownValue(tag, i)` for an unrecognised tag, none otherwise. |
| BomWalk.WalkFrom | Process_BOM.py:27-60 | No ensures: the loop from cursor `i`, what the row at `i` contributes followed by the walk from `i + Advance`. The Visits, Triggers, Records and Warnings lemmas state its properties. |
| BomWalk.Walk | Process_BOM.py:25-60 | No ensures: the loop from the first row over the roles `Classify(rows)`. `Build` is proved equal to it. |
| Text.IsSpace | Process_BOM.py:29 | No ensures: the characters Python's `str.isspace` accepts, which `strip()` removes. |
| Text.Strip | Process_BOM.py:29 | No ensures: `strip()`, the slice between `SkipForward` and `SkipBackward`; `StripUnique` and `PaddingIgnored` state its properties. |
| Text.LowerChar | Process_BOM.py:29 | No ensures: `lower()` on one character, for ASCII capitals and U+212A; other characters are kept. |
| Text.Lower | Process_BOM.py:29 | No ensures: `LowerChar` applied to every character. |
| Text.Normalize | Process_BOM.py:29 | No ensures: `strip()` then `lower()`; `CaseIgnored` and `PaddingIgnored` state its properties. |
| BomWalk.SingleRecordFields | Process_BOM.py:12-17 | A standalone component's record has the four labels in mapping order. Component Name and Component Weight are the row's Description and Weight. Material Name and Material Fraction are `''`. |
| BomWalk.PairedRecordFields | Process_BOM.py:12-17 | A pair's record has the four labels in mapping order. The component fields come from the component row. Material Name and Material Fraction are the next row's Description and Weight, as given. |
| BomWalk.OutputLabelsDistinct | Process_BOM.py:12-17 | The labels of `columns_to_extract` are the four output labels, in declaration order, and no two are equal. |
| BomWalk.GetOutputLabels | Process_BOM.py:33-35 | In a record with the four output labels, `data[label]` reads back the value stored for that label. |
| BomWalk.GetFirst | Process_BOM.py:35 | A lookup by label finds the first entry stored under it. A Python dict keeps the last value stored under a key; the two agree here because the labels are distinct (`OutputLabelsDistinct`). |
| BomWalk.WalkStep | Process_BOM.py:31-60 | Each of the five cases, one step each: `single` emits once and advances 1; `paired` with a successor emits once and advances 2; `paired` at the end only warns `NoNextRow(i)`; `skip` adds nothing and advances 1; anything else warns `UnknownValue(tag, i)` and advances 1. |
| BomWalk.RecordsLabelled | Process_BOM.py:12-17 | Every record of the walk has exactly the four labels of `columns_to_extract`, in declaration order. |
| BomWalk.VisitsInside | Process_BOM.py:27 | The loop terminates. The cursor starts at `i` and never leaves the table. Its last move lands exactly on the row count. There are at most as many visits as rows. |
| BomWalk.VisitsSteps | Process_BOM.py:39 | Each move of the cursor is 1 or 2, the advance of the row it leaves, so the visited positions strictly increase. |
| BomWalk.WalkBound | Process_BOM.py:38 | Each visited row adds at most one record or one warning. So there are no more records and warnings together than rows. |
| BomWalk.TriggersVisited | Process_BOM.py:31-49 | A row emits a record if and only if it is visited and is `single`, or `paired` with a row after it. |
| BomWalk.TriggersAbove | Process_BOM.py:27 | Every emitting row at or after cursor `i` lies at or after `i`. |
| BomWalk.TriggersIncreasing | Process_BOM.py:38 | The emitting rows come in increasing row order. |
| BomWalk.RecordsFromTriggers | Process_BOM.py:38 | There are exactly as many records as emitting rows. The k-th record is the one the k-th emitting row produces, so output order is input order. |
| BomWalk.WarningsFromVisits | Process_BOM.py:51-60 | Every warning was raised by a visited row and names that row's index. For an unrecognised tag, it quotes the tag as given. |
| BomWalk.WarningsOrdered | Process_BOM.py:52 | The warnings come in increasing row order. |
| BomWalk.VisitedWarningReported | Process_BOM.py:58-59 | Every visited row that is `paired` at the end, or has an unrecognised tag, has its warning reported. |
| BomWalk.MaterialRowNotVisited | Process_BOM.py:50 | The row after a visited `paired` row is consumed as material: the cursor never stops on it. |
| BomWalk.WalkReadsSuffix | Process_BOM.py:27-60 | The walk from `i` depends only on the rows from `i` on. |
| BomWalk.MaterialRoleIgnored | Process_BOM.py:41-50 | Giving the material row after a visited `paired` row any other role and role tag changes nothing in the walk. |
| BomWalk.MaterialTagIgnored | Process_BOM.py:41-50 | In the script's walk, the `Description 7` tag of a material row consumed by a pair can be anything: the output is unchanged. |
| BomWalk.ClassifyAt | Process_BOM.py:29 | The role of row `k` is the dispatch applied to that row's own tag. |
| BomWalk.RoleIgnoresPaddingAndCase | Process_BOM.py:29 | Role matching ignores surrounding whitespace and letter case. |
| BomWalk.PaddedPairedExample | Process_BOM.py:29 | `" Paired "` is a `paired` tag. |
| BomWalk.CapitalSingleExample | Process_BOM.py:29 | `"SINGLE\n"` is a `single` tag. |
| BomWalk.PrefixUnrecognisedExample | Process_BOM.py:29 | `"pair"` matches no role and is reported as unknown. |
| Text.StripUnique | Process_BOM.py:29 | `strip()` is determined by its split. Whitespace, then a middle part that neither starts nor ends with whitespace, then whitespace: that middle part is the result. |
| Text.PaddingIgnored | Process_BOM.py:29 | Whitespace added around a value does not change its stripped form. |
| Text.CaseIgnored | Process_BOM.py:29 | Two tags that agree up to letter case normalise alike. |
| Text.SpacesAgree | Process_BOM.py:29 | Tags that agree up to case have whitespace at the same positions. |
| Text.LowerAgrees | Process_BOM.py:29 | Tags that agree up to case lower-case alike, slice by slice. |
| Text.LowerKeepsSpace | Process_BOM.py:29 | Lower-casing a character neither creates nor removes whitespace. |
| Text.SkipForward | Process_BOM.py:29 | The leading whitespace skipped by `strip()`: everything before the result is whitespace, and the result is not whitespace. |
| Text.SkipBackward | Process_BOM.py:29 | The trailing whitespace skipped by `strip()`: everything after the result is whitespace, and the character before it is not. |

## Left out

- Reading `BOM.xlsx` and writing `output.xlsx` through pandas, and the `INPUT_FILE` and `OUTPUT_FILE` settings (Process_BOM.py:4-5, 20-22, 63-66). These are file I/O through a library the model cannot see. The rows are a parameter of `Build`, and its results stand for the output table.
- The `print` calls (Process_BOM.py:21, 52, 59, 66). The two warnings are returned as `Warning` values, in order. The progress messages are dropped.
- pandas cell types and what `str()` makes of NaN or numeric cells (Process_BOM.py:29). The role cell is taken as an already stringified `string`. Description and Weight are copied as opaque strings.
- Text.Normalize: agrees with Python only on whether the result is `single`, `paired` or `skip`. Lower-casing is modelled for ASCII capitals and U+212A only, which cannot make a difference there. It is not Python's full Unicode `str.lower()`.
- The dictionary `data` is an ordered list of label/value entries. `columns_to_extract` has distinct labels (`OutputLabelsDistinct`), so no entry is ever overwritten and the two views agree.
- The three columns `Description 7`, `Description` and `Weight` are assumed present. If `Description 7` is missing, the script raises `KeyError` on the first row, if the table has any (Process_BOM.py:29). If `Description` or `Weight` is missing, it raises only once a `single` or `paired` row is reached (Process_BOM.py:35, 48). The `Row` datatype always has all three cells, so neither failure can be expressed.
