# ANS expense consolidation, modelled in Dafny

This project models the data-handling core of a Java batch program, `src/Main.java`. The program reads the quarterly accounting statements that health-plan operators file with ANS, the Brazilian regulator. These arrive as delimited text files.

The program keeps the lines that mention an expense with events or claims. From each such line it extracts a record: date, operator registration, account code, description and amount. The file name supplies the quarter and the year. Records are consolidated under a composite key; among duplicates, the record with the larger absolute amount is kept. Finally the program writes one `;`-separated CSV, sorted by year and quarter (both descending), then by registration.

The model has seven modules:

- `Wrappers`: an `Option` type.
- `Text`: the parts of `java.lang.String` the program uses. These are ASCII case mapping, `contains`, `trim`, single-character `replace`, single-character `split` (which drops trailing empty fields), and `compareTo`.
- `Amounts`: the clean-up and decimal conversion of `parseValor`, and the `%.2f` rendering of an amount.
- `Records`: the `RegistroDespesa` record, the keyword filter, `extrairRegistro`, the quarter and year taken from the file name, `escaparCSV` and `toCSVLine`. It also has a quote-aware reader for an output line, used to state round trips.
- `Consolidation`: what the store of `consolidarRegistro` holds after a sequence of records, as functions of that sequence.
  - `Consolidated` is the map and `KeyOrder` is the `LinkedHashMap` iteration order.
  - `Duplicates`, `CountZero` and `CountNegative` are the counters.
  - `Summary` is all of these together.
- `Ordering`: the comparator of `gerarCSVConsolidado`, and an in-place sort of an array by it.
- `Pipeline`: the class `Etl`. It holds the state that `Main` keeps in static fields (the store, its insertion order and the five statistics counters). Its methods update that state step by step:
  - `ProcessFile` is the line loop of `processarArquivo`;
  - `Consolidate` is `consolidarRegistro`;
  - `WriteConsolidated` is the sort and the writing loop of `gerarCSVConsolidado`.

  Each method is specified against the functions of `Consolidation`. The ghost field `consolidated` lists every record consolidated so far, in order; the invariant `Valid()` says that the store, the insertion order and three of the counters (duplicates, zero amounts and negative amounts) equal `Summary(consolidated)`. A second invariant, `Counted()`, says that `linesWithExpenses` is the length of `consolidated`. The counter of lines read, `totalLines`, is tied to the state by no invariant; `ReadLine`, `ReadLines` and `ProcessFile` state by how much each call raises it.

A file is given as its name and its sequence of lines, and the output as the sequence of lines written. Amounts are exact reals.

Two files of different quarters, such as `1T2024.csv` and `2T2024.csv`, whose rows are for the same operator and account do not merge into one row. The key contains the quarter, so both rows are kept (`Consolidation.DifferentQuartersBothKept`).

## Model

| member | source | states |
|---|---|---|
| Text.Lower | src/Main.java:171 | `toLowerCase` on ASCII letters, character by character; `LowerOfUpper` states that it forgets any earlier upper-casing |
| Text.Upper | src/Main.java:338 | `toUpperCase` on ASCII letters, character by character; `UpperOfLower` states that it forgets any earlier lower-casing |
| Text.Trim | src/Main.java:194-198 | `trim`; specified by `TrimMargins`, `TrimKeeps` and `TrimIdempotent` |
| Text.JavaSplit | src/Main.java:187 | single-character `split`; specified by `JavaSplitLength` and `JavaSplitJoin` over the raw fields of `SplitAll` |
| Text.CompareTo | src/Main.java:255-260 | `compareTo`; specified by `CompareToZero`, `CompareToAntisymmetric` and `CompareToTransitive` |
| Text.Contains | src/Main.java:173 | `s.contains(k)` holds exactly when `k` occurs in `s` at some position |
| Text.TrimMargins | src/Main.java:194-198 | `trim` leaves no character at or below U+0020 at either end; the result is the slice of the input between a blank prefix and a blank suffix |
| Text.TrimKeeps | src/Main.java:355 | `trim` keeps every character above the blank |
| Text.TrimIdempotent | src/Main.java:194-198 | trimming twice is trimming once |
| Text.RemoveChar | src/Main.java:355 | `replace(c, "")` leaves no `c`, never lengthens the text, and changes nothing when `c` is absent |
| Text.RemoveCharKeeps | src/Main.java:355 | deleting one character keeps every other character, and adds none |
| Text.ReplaceChar | src/Main.java:359-363 | `replace(a, b)` for single characters keeps the length and position of every character; what survives is stated by `ReplaceCharKeeps` |
| Text.ReplaceCharKeeps | src/Main.java:359 | replacing `a` by `b` leaves no `a`, and keeps exactly the characters other than `a` and `b` |
| Text.SplitAll | src/Main.java:187 | the fields between separators contain no separator, and joining them gives back the line |
| Text.SplitJoin | src/Main.java:187 | splitting undoes joining fields that contain no separator |
| Text.DropTrailingEmpty | src/Main.java:187 | the result is a prefix of the fields, everything dropped is empty, and the last field kept is not empty |
| Text.JavaSplitLength | src/Main.java:187-191 | Java's `split` gives at least `n` fields exactly when some raw field at index `n - 1` or later is non-empty |
| Text.JavaSplitJoin | src/Main.java:187 | on fields without the separator whose last field is non-empty, `split` gives back every field |
| Text.CompareToZero | src/Main.java:255-260 | `compareTo` is 0 exactly on equal strings |
| Text.CompareToAntisymmetric | src/Main.java:255-260 | swapping the arguments of `compareTo` negates it |
| Text.CompareToTransitive | src/Main.java:255-260 | `compareTo(a, b) < 0` is transitive |
| Amounts.NatToString | src/Main.java:410 | the decimal digits of `n` denote `n`, and begin with `0` only when `n` is 0 (no leading zeros) |
| Amounts.ParseDecimalPlain | src/Main.java:367 | `parseDouble` reads `[-]ip.fp` (either part may be empty, not both) as the signed value of the digits |
| Amounts.ParseDecimalInteger | src/Main.java:367 | `parseDouble` reads `[-]digits` as their signed value |
| Amounts.ParseDecimal | src/Main.java:367 | `Double.parseDouble` on decimal notation; specified by `ParseDecimalPlain`, `ParseDecimalInteger` and `ParseDecimalRejects` |
| Amounts.ParseValor | src/Main.java:350-371 | `parseValor`; specified by `ParseValorBrazilian`, `ParseValorComma`, `ParseValorPlain`, `ParseValorQuoted`, `ParseValorSpaced` and `ParseValorRejects` |
| Amounts.Clean | src/Main.java:355 | after trimming and deleting quotes and spaces, no quote or space is left |
| Amounts.CleanQuoted | src/Main.java:355 | a numeral wrapped in quotes comes out bare |
| Amounts.CleanSpaced | src/Main.java:355 | a space inside a numeral is deleted and nothing else changes |
| Amounts.Normalise | src/Main.java:355-364 | after the rewriting of `parseValor`, no quote, space or comma is left |
| Amounts.NormaliseComma | src/Main.java:362-364 | `[-]1234,56`, with no point, is rewritten to `[-]1234.56` |
| Amounts.NormalisePlain | src/Main.java:358-364 | `[-]1234.56`, with no comma, is kept as it is |
| Amounts.NormaliseBrazilian | src/Main.java:358-360 | `[-]1.234,56`, with any grouping of the whole part by points, is rewritten to `[-]1234.56` |
| Amounts.ParseValorBrazilian | src/Main.java:350-371 | `[-]1.234,56`, with any grouping by points, is worth the signed value of `1234.56` |
| Amounts.ParseValorComma | src/Main.java:350-371 | `[-]1234,56` is worth the signed value of `1234.56` |
| Amounts.ParseValorPlain | src/Main.java:350-371 | `[-]1234.56` is worth the signed value of `1234.56` |
| Amounts.ParseValorQuoted | src/Main.java:350-371 | an amount in quotes, such as `"1.234,56"`, is worth what the bare numeral is |
| Amounts.ParseValorSpaced | src/Main.java:350-371 | a space inside an amount, such as `1 234,56`, does not change its value |
| Amounts.ParseDecimalRejects | src/Main.java:367-370 | text holding a character other than digits, signs, points, blanks and Java's floating-point letters has no decimal value |
| Amounts.ParseValorRejects | src/Main.java:350-371 | text holding a character outside the numeral and outside Java's floating-point letters (`/`, `R`, `$`) is worth 0 |
| Amounts.FormatAmount | src/Main.java:410-412 | `%.2f`; specified by `FormatAmountShape`, `FormatAmountValue`, `FormatAmountError` and `FormatAmountCents` |
| Amounts.FormatAmountShape | src/Main.java:410-412 | the text is an optional `-`, a whole part of digits without leading zeros, `.` and exactly two digits |
| Amounts.Abs | src/Main.java:236 | `Math.abs`: the result is `x` or `-x`, and never negative |
| Amounts.RoundHalfUp | src/Main.java:410 | the rounded whole number is within half a unit of the value |
| Amounts.RenderedCents | src/Main.java:410-412 | the text `[-]whole.dd` of `n` cents reads back as `n / 100` with that sign |
| Amounts.FormatAmountValue | src/Main.java:410-412 | the two-decimal rendering of `x` reads back as `x` rounded half up to cents, with the sign of `x` |
| Amounts.FormatAmountError | src/Main.java:410-412 | the rendering always reads back, and loses at most half a cent |
| Amounts.FormatAmountCents | src/Main.java:410-412 | an amount that is a whole number of cents reads back exactly |
| Records.AnyKeyword | src/Main.java:172-177 | the keyword loop returns true exactly when some keyword of the list occurs in the text |
| Records.HasExpenseKeyword | src/Main.java:170-178 | `contemDespesaComEventos` holds exactly when some keyword of `KEYWORDS` occurs in the lower-cased line; `HasExpenseKeywordIff` names the three |
| Records.HasExpenseKeywordIff | src/Main.java:170-178 | a line passes the filter exactly when its lower-cased text contains `sinistros`, `despesas com eventos` or `eventos/sinistros` |
| Records.ThirdKeywordSubsumed | src/Main.java:23-27 | the third keyword never decides anything: the filter equals the test on the first two |
| Records.HasExpenseKeywordCase | src/Main.java:171 | the filter gives the same answer for a line and for its upper-cased form |
| Records.ExtractRecord | src/Main.java:183-208 | `extrairRegistro`: the record carries the quarter and year passed in, not anything read from the line. The separator rule (`;` when the line has one, else `,`) and the field positions are specified by `ExtractRecordSome`, `ExtractRecordFields` and `ExtractRecordTrailingEmpty` |
| Records.ExtractRecordSome | src/Main.java:183-191 | a record is extracted exactly when some raw field from the sixth on is non-empty |
| Records.ExtractRecordFields | src/Main.java:183-208 | joining fields of which some field from the sixth on is non-empty (trailing empty fields allowed) and extracting them gives trimmed fields 0, 1, 2 and 3, the value of trimmed field 5, and the quarter and year passed in. The separator is `;`, or `,` when no field holds a `;` |
| Records.ExtractRecordTrailingEmpty | src/Main.java:187-191 | a `;` line whose fields from the sixth on are all empty gives no record |
| Records.ExtractQuarter | src/Main.java:336-341 | the quarter always has two characters |
| Records.ExtractYear | src/Main.java:343-348 | the year always has four characters |
| Records.FileNameMetadata | src/Main.java:336-348 | a name that starts with an upper-case two-character tag and a four-character year yields exactly that tag and year |
| Records.ExtractQuarterCase | src/Main.java:336-341 | the quarter does not depend on the case of the name |
| Records.DoubleQuotes | src/Main.java:418 | doubling quotes changes nothing in text without quotes, and never shortens it |
| Records.Escape | src/Main.java:415-421 | a value without `;`, quote or `\n` is left alone; any other value is wrapped in quotes |
| Records.EscapeRoundTrip | src/Main.java:415-421 | reading an escaped value back gives exactly the value, whatever it contains |
| Records.FormatAmountPlain | src/Main.java:410-412 | the rendered amount contains no `;` and no quote |
| Records.CsvLine | src/Main.java:408-413 | `toCSVLine`; specified by `CsvLineRoundTrip`, which reads the seven columns back |
| Records.CsvLineRoundTrip | src/Main.java:408-413 | reading an output line back gives its seven columns: the description exactly as stored and the amount as its two-decimal rendering. This requires that the columns written raw hold no `;` and no quote |
| Consolidation.Key | src/Main.java:227-228 | the composite key; `KeyInjective` and `KeyCollision` state when it separates records |
| Consolidation.Insert | src/Main.java:231-242 | one store update, specified by `InsertSpec`; the strict `>` rule is stated by `ConsolidatedWinner` and `LargerAbsWins` |
| Consolidation.InsertSpec | src/Main.java:231-242 | after one store update the record's key is present, holding the new record or the one already there, and no other key has changed |
| Consolidation.Step | src/Main.java:216-243 | one `consolidarRegistro` call on the whole state; `SummaryParts` splits the result of a sequence of steps into the store, the order and the counters |
| Consolidation.ConsolidatedKeys | src/Main.java:227-242 | the stored keys are exactly the keys of the records consolidated |
| Consolidation.ConsolidatedWellKeyed | src/Main.java:240-241 | every stored record sits under its own key |
| Consolidation.ConsolidatedWinner | src/Main.java:231-242 | for every stored key, the stored record is the first record of largest absolute amount among those with that key |
| Consolidation.ConsolidatedMaxAbs | src/Main.java:235-238 | no record consolidated under a key has a larger absolute amount than the one stored for it |
| Consolidation.SizePlusDuplicates | src/Main.java:231-242 | store size plus duplicate count equals the number of records consolidated |
| Consolidation.KeyOrderSpec | src/Main.java:30 | the `LinkedHashMap` order lists every stored key exactly once and nothing else |
| Consolidation.ValuesInOrder | src/Main.java:250 | `values()` has one entry per stored key, and holds every stored record |
| Consolidation.SummaryParts | src/Main.java:216-243 | the state after a sequence of `consolidarRegistro` calls is, part by part, the store, the key order, the duplicate count and the two amount counters |
| Consolidation.CountersBounded | src/Main.java:218-224 | zero and negative amounts are counted disjointly: together at most the number of records |
| Consolidation.RepeatedRecord | src/Main.java:231-239 | consolidating again a record consolidated at any earlier point changes neither store nor order, and counts one duplicate |
| Consolidation.LargerAbsWins | src/Main.java:231-238 | of two records with one key, the larger absolute amount is kept (the first on a tie), and one duplicate is counted |
| Consolidation.KeyInjective | src/Main.java:227-228 | when registration, year and quarter hold no `_`, two records share a key exactly when they agree on those three fields and the account code |
| Consolidation.KeyCollision | src/Main.java:227-228 | with `_` inside a field, distinct records can share a key |
| Consolidation.DifferentQuartersBothKept | src/Main.java:227-242 | records of the same operator and account in two quarters stay as two entries |
| Ordering.CompareRecords | src/Main.java:253-261 | the comparator; specified by `CompareRecordsFields`, `CompareRecordsZero`, `CompareRecordsAntisymmetric` and `CompareRecordsTransitive` |
| Ordering.CompareRecordsAntisymmetric | src/Main.java:253-261 | swapping the records negates the comparison |
| Ordering.CompareRecordsZero | src/Main.java:253-261 | the comparator ties exactly the records with equal year, quarter and registration |
| Ordering.CompareRecordsTransitive | src/Main.java:253-261 | "goes no later than" is transitive |
| Ordering.CompareRecordsFields | src/Main.java:253-261 | `r1` may precede `r2` exactly when the year does not increase, the quarter does not increase within a year, and the registration does not decrease within a year and quarter |
| Ordering.OrderedMeans | src/Main.java:250-262 | a sequence is in comparator order exactly when that field-by-field condition holds between neighbours |
| Ordering.OrderedPairwise | src/Main.java:250-262 | in an ordered sequence every earlier record goes no later than every later one |
| Ordering.SwapLeft | src/Main.java:251 | one exchange of neighbours: the array is the swap of the old one, a permutation, and the insertion invariant moves one place left |
| Ordering.InsertNext | src/Main.java:251 | one insertion step extends the ordered prefix by one element and permutes the array |
| Ordering.SortRecords | src/Main.java:250-262 | after sorting, the array is in comparator order and is a permutation of the input |
| Pipeline.LineYield | src/Main.java:143-155 | a data line yields at most one record |
| Pipeline.FileDataMeans | src/Main.java:133-159 | a record comes out of a file exactly when some line after the first yields it |
| Pipeline.FileRecordsMeans | src/Main.java:110-165 | a record comes out of a file exactly when some line after the header passes the filter and yields that record, with the file name's quarter and year |
| Pipeline.FileRecordsShape | src/Main.java:115-117 | every record of a file carries that file's quarter and year; a file yields at most one record per line after its header |
| Pipeline.HeaderIgnored | src/Main.java:138-141 | the first line never contributes a record, whatever it holds |
| Pipeline.Etl.constructor | src/Main.java:29-36 | the store, its order and every counter start empty or zero |
| Pipeline.Etl.CountAmount | src/Main.java:218-224 | a zero amount adds one to the zero counter, a negative one adds one to the negative counter, and nothing else changes |
| Pipeline.Etl.StoreRecord | src/Main.java:226-242 | the map becomes `Insert` of the record; a new key is appended to the order; a present key counts a duplicate; nothing else changes |
| Pipeline.Etl.Consolidate | src/Main.java:216-243 | the whole state takes one `Step` with the record, and stays equal to `Summary` of the records consolidated |
| Pipeline.Etl.ReadDataLine | src/Main.java:143-158 | a line that yields a record has it consolidated and is counted as an expense line; any other line changes nothing |
| Pipeline.Etl.ReadLine | src/Main.java:133-158 | the line is counted; the header adds nothing; any other line adds what it yields and is counted if it yields a record |
| Pipeline.Etl.ReadLines | src/Main.java:133-159 | after the loop, the records consolidated are those of every line after the header, in line order; each line is counted once; the expense count is the number of records |
| Pipeline.Etl.ProcessFile | src/Main.java:110-165 | the records consolidated are exactly `FileRecords` of the file, in line order; the total and the matched-line counters grow by the line count and the record count; the state stays consistent with `Summary` |
| Pipeline.Etl.Values | src/Main.java:250 | the array holds the stored records in key-insertion order |
| Pipeline.Etl.WriteConsolidated | src/Main.java:248-278 | the written records are a permutation of the stored records in comparator order; the output is the header followed by one line per record |
| Pipeline.RenderCsv | src/Main.java:268-274 | the output is the fixed header, then `toCSVLine` of each record in order |

## Left out

- `main`: listing the working directory (`.`), choosing the files whose lower-cased name ends in `.csv` other than `consolidado_despesas.csv`, and the console banner are not modelled. `ProcessFile` takes one file's name and lines, so the run over several files is repeated calls.
- File input and output: reading and writing files, UTF-8 decoding, and `BufferedReader.readLine`'s line splitting (`\n`, `\r`, `\r\n`) are not modelled. A file is a sequence of lines, and the output is a sequence of lines.
- `compactarCSV` (the zip archive), the log file and its timestamps, and `exibirEstatisticas` (console output of the counters) are left out as pure I/O. The counters themselves are modelled.
- The `catch` blocks in `processarArquivo` and `extrairRegistro`: for the inputs modelled, `extrairRegistro` and `parseValor` always return normally, so no exception path is reachable.
- Amounts.ParseDecimal: `Double.parseDouble` is modelled only on plain decimal notation (an optional sign, digits, at most one point). Exponents, the `d`/`f` type suffixes, `NaN`, `Infinity` and hexadecimal notation are treated as having no value, and so give 0.0. `ParseValorRejects` therefore excludes those letters.
- Amounts: binary floating point is not modelled. Amounts are exact reals, so the nearest-double rounding of `parseDouble` and of the `%.2f` input is not captured.
- Amounts.FormatAmount: reals have no signed zero. `parseValor("-0,00")` gives the double `-0.0`, which `%.2f` writes as `-0.00`; the model's value is 0 and is written `0.00`. Amounts that are negative but round to zero are written `-0.00` in both.
- Amounts.FormatAmount: `%.2f` uses the default locale; the model assumes a locale whose decimal mark is `.`.
- Text.Lower, Text.Upper: `toLowerCase` and `toUpperCase` are modelled on ASCII letters only, independent of the locale; accented letters are left unchanged. Java maps case by the default locale. Under a Turkish locale `I` lower-cases to a dotless `ı`, so a line that spells `SINISTROS` in capitals no longer passes the keyword filter (`src/Main.java:171`), and a file name starting with `i` gives a dotted capital `İ` in its quarter tag (`src/Main.java:338`). `Records.HasExpenseKeywordCase` and `Records.ExtractQuarterCase` therefore hold only under the ASCII mapping. In Java, for example, `"ſinistros".toUpperCase()` is `"SINISTROS"`, which passes the filter although `"ſinistros"` does not, and a name starting with the Kelvin sign (U+212A) or with `İ` gives a different quarter after `toLowerCase`.
- Records.ExtractQuarter: Java's `toUpperCase` can lengthen a string (`"ß"` becomes `"SS"`), so the two-character quarter holds only under the model's ASCII case mapping.
- Records.ExtractQuarter, Records.ExtractYear: `length()` and `substring` count UTF-16 code units, the model counts characters; names with characters outside the Basic Multilingual Plane in their first six positions are cut differently (`src/Main.java:337-345`).
- Text.CompareTo compares Unicode scalar values; Java compares UTF-16 code units. The two orders differ only on characters outside the Basic Multilingual Plane.
- Ordering.SortRecords: `Collections.sort` is stable. The model sorts with an insertion sort and proves order and permutation only, so the relative order of records that tie on year, quarter and registration is not stated.
- Integer counters are unbounded `nat`s; 32-bit overflow of the Java `int` counters is not modelled.
- Pipeline.Etl.ReadLines is generic in a ghost `step` function that equals `LineYield` on every line. `ProcessFile` instantiates it with the real line function, so its contract is stated in terms of `LineYield` itself.
