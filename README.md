# Emergency-lighting extraction from drawing sets: a Dafny model

The system reads electrical drawing sets. It rasterises each PDF page and
runs OCR over it. It then applies a few text heuristics to the OCR text, and
a shape filter to the page image, to find emergency light fixtures. This
project models those heuristics and that filter, and proves properties of
them:

- **General notes** (`extract_general_notes`). For every line whose
  upper-cased form mentions `GENERAL SHEET NOTES`, it finds the first
  occurrence of that line's content in the text. It cuts from there up to
  the next `KEYNOTES`, or up to the end of the text. The slices are joined
  with line breaks.
- **Lighting schedule** (`extract_lighting_schedule`). A case-insensitive
  search finds `TYPE MARK` or `TYPE MARR` (a common OCR misreading). The rest
  of that line is the header row.
  - Each later line is split at commas into trimmed, non-empty fields.
  - A line with at least as many fields as there are headers becomes a row
    that maps each header to the field in the same position.
  - Only rows with a non-empty `TYPE MARK` cell are kept.
- **Emergency count** (`count_emergency_lights_from_schedule`).
  - A row whose trimmed type mark ends in `E` is an emergency fixture. It
    counts as a 2x4 recessed fixture when its lower-cased description
    contains `2' x 4' recessed`. Otherwise its mark goes on the list of other
    emergency fixtures.
  - A row whose trimmed mark is exactly `W` counts as a wall-pack.
  - The total counts both kinds.
- **Shaded-marker detector** (`detect_shaded_emergency_lights`). Of the
  contours found in the thresholded page image, it keeps those with area
  above 100, both sides above 10, and width-to-height ratio strictly between
  0.5 and 2. Each kept contour becomes a bounding box `[x, y, x+w, y+h]` and
  its area, in contour order.

The project has three files:

- `strings.dfy` (module `Strings`) holds the Python string operations the
  heuristics use: `find`, `in`, `split`, `join`, `strip`, `upper` and
  `lower`.
- `data_extractor.dfy` (module `DataExtractor`) holds the three extraction
  functions.
- `detector.dfy` (module `Detector`) holds the contour filter.

`NotesSlice` requires its line to occur in the text. Every line of
`text.split('\n')` does (`SplitPiecesOccur`), so the `-1` result of
`text.find(line)` never arises in the source.

Each loop of the source is a Dafny method with a loop. The method is proved
equal to a specification function, and the properties are lemmas about that
function. The list comprehensions, the header search and `dict(zip(..))`
are functions.

Some behaviours of the code are worth knowing. The model states each one:

- A title line is located with `text.find(line)`. Two identical title lines
  therefore give two identical slices (`SlicePerTitleLine`).
- A title line that itself starts with `KEYNOTES` gives an empty slice
  (`KeynotesTitleEmpty`).
- The row filter looks for the exact key `TYPE MARK`. A header row that was
  read as `TYPE MARR`, or in lower case, yields an empty schedule
  (`TypeMarkFilter`).
- When two header columns have the same name, the later column's value wins.
  Such a row has fewer keys than there are columns (`ZipMapLastWins`,
  `RowOfShape`).
- A mark that is exactly `W` never ends in `E`. So no row is counted twice,
  and the total never exceeds the number of rows (`NoDoubleCount`).

## Model

| member | source | states |
|---|---|---|
| `Strings.Find` | src/data_extractor.py:8-10 | `find(pat, start)` returns -1, or an index at or after `start` where `pat` occurs. No earlier occurrence at or after `start` exists, and -1 means there is no occurrence at all. |
| `Strings.FindContains` | src/data_extractor.py:7-8 | `find` from 0 succeeds exactly when `pat in s`, in both directions. |
| `Strings.IsSpace` | src/data_extractor.py:67-68 | Reference definition, no contract of its own: the characters for which `str.isspace` holds, which `strip()` removes. |
| `Strings.Upper` | src/data_extractor.py:7 | Reference definition (ASCII `upper()`): its contract only spells out the body, letter by letter. |
| `Strings.Lower` | src/data_extractor.py:96 | Reference definition (ASCII `lower()`): its contract only spells out the body, letter by letter. |
| `Strings.CaseFold` | src/data_extractor.py:7 | Upper-casing after lower-casing is plain upper-casing, and the other way round. So the result of either folding does not depend on the input's case. |
| `Strings.Contains` | src/data_extractor.py:7 | Reference definition, no contract of its own: `pat in s`, the pattern occurs at some position. |
| `Strings.Join` | src/data_extractor.py:14 | Reference definition, no contract of its own: the pieces with `sep` between consecutive ones. `SplitJoin` and `JoinSplit` tie it to `split`. |
| `Strings.Split` | src/data_extractor.py:6 | `split(sep)` gives at least one piece. No piece holds the separator. The first piece runs from the start up to the first separator, or to the end. |
| `Strings.JoinSplit` | src/data_extractor.py:6 | Joining the pieces of `split(sep)` with `sep` gives the original string back. |
| `Strings.SplitJoin` | src/data_extractor.py:14 | Splitting what `join` produced from separator-free pieces gives the pieces back. |
| `Strings.SplitPiecesOccur` | src/data_extractor.py:6-8 | Every piece of `text.split('\n')` occurs in `text`, so `text.find(line)` never returns -1 for a line. |
| `Strings.Strip` | src/data_extractor.py:67-68 | `strip()` is empty exactly when the string is all whitespace. Otherwise the result starts and ends with non-whitespace. It is one contiguous slice of the input, and everything outside that slice is whitespace. |
| `DataExtractor.NotesSlice` | src/data_extractor.py:8-13 | The slice starts at the first occurrence of the title line. It ends at the first `KEYNOTES` at or after that start, or at the end of the text. It contains no `KEYNOTES`. With no terminator after the start, it is the whole remainder of the text. |
| `DataExtractor.IsNotesTitle` | src/data_extractor.py:7 | Reference definition, no contract of its own: the upper-cased line contains `GENERAL SHEET NOTES`. |
| `DataExtractor.TitleIgnoresCase` | src/data_extractor.py:7 | Whether a line is a title line does not change when the line is upper-cased or lower-cased first. |
| `DataExtractor.TitleLines` | src/data_extractor.py:6-7 | The selected lines are lines of the text that mention `GENERAL SHEET NOTES` once upper-cased. Every such line is selected. |
| `DataExtractor.TitleLinesAppend` | src/data_extractor.py:6-7 | Title lines are selected run by run, so they come out in line order. |
| `DataExtractor.NotesSlices` | src/data_extractor.py:5-13 | Reference definition, no contract of its own: the list `notes`, one `NotesSlice` per title line, in line order. |
| `DataExtractor.GeneralNotes` | src/data_extractor.py:1-14 | Reference definition, no contract of its own: the slices of the lines of `text.split('\n')`, joined by line breaks. |
| `DataExtractor.KeynotesTitleEmpty` | src/data_extractor.py:8-13 | When a `KEYNOTES` begins where the title line is first found, the slice is empty. |
| `DataExtractor.SlicePerTitleLine` | src/data_extractor.py:6-13 | Exactly one slice per title line, in line order. Each slice is that line's `NotesSlice`. |
| `DataExtractor.NoTitleNoNotes` | src/data_extractor.py:5-14 | When no line mentions the title, the notes are the empty string. |
| `DataExtractor.NotesAreTitleSlices` | src/data_extractor.py:1-14 | The result is the slices of the title lines, one per title line, in order, joined by line breaks. |
| `DataExtractor.ExtractGeneralNotes` | src/data_extractor.py:1-14 | The loop returns the notes defined by the slices of the title lines. It returns `""` when no line mentions the title. |
| `DataExtractor.HeaderAt` | src/data_extractor.py:59 | Reference definition, no contract of its own: the nine characters at the position are `TYPE MARK` or `TYPE MARR` up to ASCII case. |
| `DataExtractor.SearchHeader` | src/data_extractor.py:59 | A found position holds `TYPE MARK` or `TYPE MARR`, matched with ASCII case folding. |
| `DataExtractor.SearchHeaderLeftmost` | src/data_extractor.py:59-61 | The search finds the leftmost such label. It finds none exactly when the text contains none. |
| `DataExtractor.LineEnd` | src/data_extractor.py:59-64 | `.*` stops at the first line break after the label, or at the end of the text. No line break lies before that point. |
| `DataExtractor.Cleaned` | src/data_extractor.py:68 | Every kept field is non-empty and neither starts nor ends with whitespace. There are at most as many fields as comma pieces. |
| `DataExtractor.CleanedFrom` | src/data_extractor.py:68 | Every kept field is some comma piece with its surrounding whitespace stripped. |
| `DataExtractor.CleanedComplete` | src/data_extractor.py:68 | Every comma piece that is not all whitespace is kept, stripped. |
| `DataExtractor.CleanedMembers` | src/data_extractor.py:68 | A string is a kept field exactly when it is non-empty and is some piece with its whitespace stripped, in both directions. |
| `DataExtractor.CleanedAppend` | src/data_extractor.py:68 | Pieces are cleaned one after another, so the fields keep the pieces' order. The positional zip at line 75 depends on this. |
| `DataExtractor.Tokens` | src/data_extractor.py:73 | Every field of a line is non-empty and neither starts nor ends with whitespace. The fields are `Cleaned` of the line's comma pieces, so `CleanedMembers` and `CleanedAppend` describe them fully. |
| `DataExtractor.TokensNoComma` | src/data_extractor.py:73 | No field of a line holds a comma. |
| `DataExtractor.HeaderRow` | src/data_extractor.py:59-71 | After a match there is at least one header. The first header begins with the matched label itself, so text before the match on that line is in no header. |
| `DataExtractor.ZipMap` | src/data_extractor.py:75 | Reference definition, no contract of its own: `dict(zip(keys, vals))`, inserting pairs left to right so that a later key overrides an earlier one. |
| `DataExtractor.ZipMapKeys` | src/data_extractor.py:75 | The keys of `dict(zip(headers, vals))` are exactly the set of headers. |
| `DataExtractor.ZipMapValues` | src/data_extractor.py:75 | Each value is the field at a position holding that header. |
| `DataExtractor.ZipMapLastWins` | src/data_extractor.py:75 | For a repeated header, the value comes from its last position. |
| `DataExtractor.Table` | src/data_extractor.py:72-76 | No more rows than lines. The body is the reference definition: one row per line with at least as many fields as headers, in line order. |
| `DataExtractor.RowOf` | src/data_extractor.py:74-75 | Reference definition, no contract of its own: the headers zipped with the first `num_cols` fields. |
| `DataExtractor.RowOfShape` | src/data_extractor.py:74-75 | A built row has exactly the headers as keys, and each value is a cleaned field. Extra fields are ignored. |
| `DataExtractor.TableShape` | src/data_extractor.py:72-76 | Every row of the table has exactly the headers as keys and cleaned fields as values. |
| `DataExtractor.TableMembers` | src/data_extractor.py:72-76 | A row is in the table exactly when some line with at least `num_cols` fields builds it. Shorter lines add nothing. |
| `DataExtractor.TableAppend` | src/data_extractor.py:72-76 | Rows come out in line order: the table of two runs of lines is the two tables one after the other. |
| `DataExtractor.HasTypeMark` | src/data_extractor.py:79 | Reference definition, no contract of its own: `row.get('TYPE MARK')` is present and non-empty. |
| `DataExtractor.KeepTyped` | src/data_extractor.py:79 | Every kept row has a non-empty `TYPE MARK` value and comes from the input. Every input row with one is kept. |
| `DataExtractor.KeepTypedAppend` | src/data_extractor.py:79 | The filter keeps the input's order. |
| `DataExtractor.TypeMarkFilter` | src/data_extractor.py:68-79 | With a header spelled exactly `TYPE MARK`, every built row survives. Without one, the schedule is empty. |
| `DataExtractor.ScheduleMembers` | src/data_extractor.py:72-79 | A row is in the schedule exactly when it has a `TYPE MARK` value and is built from a body line with enough fields. |
| `DataExtractor.Headers` | src/data_extractor.py:63-68 | Reference definition, no contract of its own: the cleaned comma fields of the matched text, from the label to the end of its line. |
| `DataExtractor.BodyLines` | src/data_extractor.py:64-67 | Reference definition, no contract of its own: the text after the matched line, stripped, then split at line breaks. |
| `DataExtractor.Schedule` | src/data_extractor.py:57-81 | Reference definition, no contract of its own: `[]` without a header match; otherwise the filtered table of the body lines under the header row. |
| `DataExtractor.ExtractLightingSchedule` | src/data_extractor.py:52-81 | The loop returns the schedule defined by the header search, the table and the filter. It returns `[]` when there is no label, and every returned row has a `TYPE MARK` value. |
| `DataExtractor.Get` | src/data_extractor.py:95-96 | Reference definition, no contract of its own: `item.get(key, '')`. |
| `DataExtractor.MarkOf` | src/data_extractor.py:95 | Reference definition, no contract of its own: the stripped `TYPE MARK` value, `""` when absent. |
| `DataExtractor.DescriptionOf` | src/data_extractor.py:96 | Reference definition, no contract of its own: the lower-cased `DESCRIPTION` value, `""` when absent. |
| `DataExtractor.IsEmergency` | src/data_extractor.py:99 | Reference definition, no contract of its own: the stripped mark ends in `E`, which also makes it non-empty. |
| `DataExtractor.IsRecessed2x4` | src/data_extractor.py:99-102 | Reference definition, no contract of its own: an emergency row whose description contains `2' x 4' recessed`. |
| `DataExtractor.IsWallpack` | src/data_extractor.py:107 | Reference definition, no contract of its own: the stripped mark is exactly `W`. |
| `DataExtractor.EndsWithE` | src/data_extractor.py:99 | Reference definition, no contract of its own: the mark is non-empty and its last character is `E`. |
| `DataExtractor.IsOtherEmergency` | src/data_extractor.py:99-104 | Reference definition, no contract of its own: an `E` row whose description lacks the 2x4 phrase. |
| `DataExtractor.Count` | src/data_extractor.py:94-109 | At most as many as there are rows. The body is the reference definition of each counter of the `EmergencyCounts` result (lines 87-92): the number of rows of one kind. |
| `DataExtractor.OtherMarks` | src/data_extractor.py:94-104 | At most one mark per row. The body is the reference definition of `other_emergency_fixtures`: the marks of the `IsOtherEmergency` rows, in row order. |
| `DataExtractor.Tallied` | src/data_extractor.py:87-109 | Reference definition, no contract of its own: the four counters after the first `i` rows, as `Count` and `OtherMarks` of that prefix. |
| `DataExtractor.TallyNext` | src/data_extractor.py:94-109 | One loop step. Row `i` raises the total by one for an `E` mark and by one for a `W` mark. An `E` row raises the recessed count when its description has the phrase, otherwise its mark joins the other list. A `W` row raises the wall-pack count. |
| `DataExtractor.OtherMarksEndInE` | src/data_extractor.py:99-104 | Every mark on the other-fixtures list ends in `E`. |
| `DataExtractor.EmergencySplit` | src/data_extractor.py:99-104 | Every emergency row is either a 2x4 recessed fixture or on the other list. The number of `E` rows is recessed plus other. |
| `DataExtractor.NoDoubleCount` | src/data_extractor.py:99-109 | No row is both an `E` row and a `W` row, so the total is at most the number of rows. |
| `DataExtractor.CountAppend` | src/data_extractor.py:94-109 | Each counter is additive over consecutive runs of rows. |
| `DataExtractor.OtherMarksAppend` | src/data_extractor.py:104 | The other-fixtures list follows schedule order. |
| `DataExtractor.WallpackRow` | src/data_extractor.py:95-109 | A row whose mark, once stripped, is `W` (so `" W"` as well as `"W"`) adds one wall-pack and nothing else. |
| `DataExtractor.CountEmergencyLights` | src/data_extractor.py:83-111 | The loop gives these results: <br>• each counter is the number of rows of its kind; <br>• the other list is the marks of the non-recessed `E` rows, in order; <br>• the total is `E` rows plus `W` rows, which equals recessed plus wall-pack plus other; <br>• the total is at most the number of rows; <br>• an empty schedule gives all zeros; <br>• every mark on the other list ends in `E`. |
| `Detector.Accepted` | src/detector.py:16 | Reference definition, no contract of its own: area above 100, both sides above 10, and `0.5 < w/h < 2.0` in exact real division. |
| `Detector.ToMarker` | src/detector.py:17 | Reference definition, no contract of its own: the box `[x, y, x+w, y+h]` and the contour's area. |
| `Detector.Kept` | src/detector.py:10-17 | No more markers than candidates. The body is the reference definition: the markers of the accepted candidates, in candidate order. |
| `Detector.AspectBand` | src/detector.py:16 | For positive sides, `0.5 < w/h < 2.0` holds exactly when `h < 2w` and `w < 2h`. |
| `Detector.KeptSound` | src/detector.py:16-17 | Every marker has area above 100, both box sides above 10, and its sides within a factor of two of each other. Each marker comes from an accepted candidate. |
| `Detector.KeptComplete` | src/detector.py:11-17 | Every accepted candidate's marker is in the output. |
| `Detector.KeptMembers` | src/detector.py:11-17 | A candidate's marker is reported exactly when the candidate is in the input and passes all four tests. |
| `Detector.KeptAppend` | src/detector.py:10-19 | The output is in candidate order, with nothing merged. |
| `Detector.DetectShadedMarkers` | src/detector.py:10-19 | The loop returns exactly the markers of the accepted candidates, in order. There are no more markers than candidates, every marker obeys the bounds, and no candidates gives `[]`. |

## Left out

- PDF rasterisation and OCR are foreign I/O. src/pdf_processor.py is not part of this model; the extractors take the OCR text as input.
- The OpenCV steps are foreign calls: grey-scale conversion, `threshold`, `findContours`, `boundingRect` and `contourArea` (src/detector.py:6-8, 12-13). The filter takes each contour as a `Candidate` record of its rectangle and area.
- src/main.py is orchestration, argument parsing, file output and drawing. It is not part of this model. The same goes for its page gate on the words "floor plan" and its per-page result keys.
- The commented-out earlier schedule parser (src/data_extractor.py:16-46) is dead code.
- Case mapping is ASCII only. `upper`, `lower` and the case-insensitive header match fold `A`-`Z` and `a`-`z` only. Python's full Unicode mapping is not modelled: for example, `'ß'.upper()` is `'SS'`, and the Kelvin sign matches `k` under case folding.
- The 2x4 phrase test does not depend on this. The phrase `2' x 4' recessed` contains neither `i` nor `k`, and those are the only ASCII letters a non-ASCII character lower-cases to.
- Whitespace for `strip` is the set for which `str.isspace` holds, given as a fixed character list.
- Regular expressions: only the two literal alternatives of the header search are modelled, followed by `.*` up to the next line break.
- Rows are maps, so the insertion order of a row's keys is not modelled. That order shows only in the JSON output.
- Floating point:
  - The ratio `w/h` is exact real division, and `area` is a real number.
  - IEEE rounding is not modelled.
  - For integer sides below 2^52, the rounded quotient is never rounded onto 0.5 or 2.0, so the comparison comes out the same.
- The counts dictionary is a four-field datatype. Its JSON key names are not modelled.
