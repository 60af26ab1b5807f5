# UniversalMask in Dafny

A model of `mask(text, format_patterns)` from UniversalMask (`src/lib.rs`),
a function that lays the bytes of a text over a format such as
`"XXX-XX-XXXX"`, where every `'X'` is a placeholder for the next text byte
and every other byte is copied.

`mask` runs in two phases, both loops over bytes:

- **Selection.** The format argument is split on `'|'` and each piece is
  trimmed. A running best format starts empty. A candidate replaces it when
  the best is still empty, or when the text is longer than the best holds
  placeholders and the candidate holds strictly more than the best.
- **Application.** The chosen format is walked byte by byte. A literal is
  copied. A placeholder takes the next text byte, and the walk stops at the
  first placeholder for which no text byte is left.

An empty text returns the empty string before any selection. A warning is
printed when the text is longer than the chosen format holds placeholders.

The model works on bytes. `byte` is a `char` below 256, the character that
`b as char` gives for the byte `b`. The output is the sequence of the
characters `mask` pushes.

- `Bytes` (`bytes.dfy`) covers the placeholder count, splitting on `'|'`
  with its inverse `Join`, and ASCII trimming.
- `Selector` (`selector.dfy`):
  - `Choose` and `Select` are the specification of the selection loop.
  - `Chosen` is an independent, declarative description of the candidate
    the loop ends on, with existence and uniqueness proved.
  - The loop itself is the method `SelectFormat`.
- `Applier` (`applier.dfy`):
  - `Fill` is the specification of the application loop.
  - Its per-position, length, truncation and extraction properties are
    proved as lemmas.
  - The loop itself is the method `Apply`.
- `UniversalMask` (`mask.dfy`):
  - `Mask` is the whole function.
  - `Masked` and `Warns` are its specification.
  - In the source both loops sit inline in one function. Here they are the
    two methods `SelectFormat` and `Apply`, which `Mask` calls in the same
    order on the same state.
- `MaskFixtures` (`fixtures.dfy`) holds the tests of `tests/mask_tests.rs`
  as lemmas, with the results the code computes.

Two tests expect values that the code as written does not produce. The
model follows the code in both cases; "## Findings" below lists them.

## Model

| member | source | states |
|---|---|---|
| Bytes.XCountIsMultiplicity | src/lib.rs:43 | The placeholder count of a format is the number of `'X'` bytes in it. |
| Bytes.XCountAppend | src/lib.rs:43 | The count over two concatenated parts is the sum of the counts over each part. |
| Bytes.SplitPieces | src/lib.rs:41 | No piece produced by the split contains the separator. |
| Bytes.SplitCount | src/lib.rs:41 | The split yields one piece more than the argument has separator bytes. |
| Bytes.JoinSplit | src/lib.rs:41 | Gluing the pieces back with the separator gives the original argument, so the split loses nothing. |
| Bytes.SplitJoin | src/lib.rs:41 | Splitting pieces that were glued with the separator (none containing the separator) gives the pieces back. |
| Bytes.SplitWithoutSeparator | src/lib.rs:41 | An argument without the separator splits into itself alone. |
| Bytes.TrimStartSpec | src/lib.rs:42 | Trimming the start drops exactly the leading whitespace. The rest is a suffix that does not start with whitespace. |
| Bytes.TrimEndSpec | src/lib.rs:42 | Trimming the end drops exactly the trailing whitespace. The rest is a prefix that does not end with whitespace. |
| Bytes.TrimSpec | src/lib.rs:42 | A trimmed piece is a middle slice with only whitespace outside it. It neither starts nor ends with whitespace. |
| Bytes.TrimPadding | src/lib.rs:42 | A slice surrounded by whitespace, which itself does not start or end with whitespace, trims to the slice. |
| Bytes.TrimUnchanged | src/lib.rs:42 | A piece that neither starts nor ends with whitespace trims to itself. |
| Selector.CandidatesOfJoin | src/lib.rs:41-42 | The candidates of a format argument made of pieces free of the separator are those pieces, trimmed, in order. |
| Selector.ChooseNext | src/lib.rs:45-48 | One pass of the loop: the candidate replaces the best exactly under the rule of line 45; otherwise the best stays. |
| Selector.ChooseSpec | src/lib.rs:38-49 | The loop ends on the empty format exactly when every candidate is empty. Otherwise it ends on a candidate that `Chosen` describes. |
| Selector.ChosenUnique | src/lib.rs:38-49 | At most one candidate fits the declarative description. |
| Selector.ChosenIsChoice | src/lib.rs:38-49 | A candidate that fits the declarative description is what the loop returns. |
| Selector.ChooseMonotone | src/lib.rs:45-47 | The placeholder count of the best format never decreases as the loop advances. |
| Selector.TieKeepsBest | src/lib.rs:45 | A candidate that holds no more placeholders than a non-empty best leaves the earlier best in place. |
| Selector.FitLocks | src/lib.rs:45 | Once a non-empty best holds at least as many placeholders as the text has bytes, nothing later replaces it. |
| Selector.FirstFitLocks | src/lib.rs:45 | If the text is no longer than the first non-empty candidate's placeholder count, that candidate is chosen, whatever follows. |
| Selector.SelectSingle | src/lib.rs:41-48 | A format argument without the separator selects itself, trimmed, for any text length. |
| Selector.SelectFormat | src/lib.rs:38-49 | The selection loop returns the format `Select` specifies, together with its placeholder count. |
| Applier.Fill | src/lib.rs:62-73 | The output is never longer than the format. |
| Applier.FillNext | src/lib.rs:62-73 | One step of the walk: a literal is copied; a placeholder takes the next text byte, or the walk ends when none is left. |
| Applier.FillAt | src/lib.rs:62-72 | At each output position: a literal of the format is copied there; at a placeholder stands the text byte whose index is the number of placeholders before that position. |
| Applier.FillLength | src/lib.rs:63-69 | Enough text gives an output as long as the format. Too little text gives an output cut just before the placeholder after the last text byte. That placeholder is at the cut, and the cut prefix holds exactly as many placeholders as there are text bytes. |
| Applier.ExtractFill | src/lib.rs:63-66 | The text bytes in the output, read off at the placeholders, are the first `min(text length, placeholders)` text bytes, in order. |
| Applier.FillAppend | src/lib.rs:62-73 | The walk over a format in two parts is the walk over the first part, then the walk over the second part on the text left over. |
| Applier.FillExtraText | src/lib.rs:62-73 | Text beyond what the placeholders take does not change the output. |
| Applier.FillParts | src/lib.rs:62-73 | A two-part format and a two-part text, the first text part covering the first format part's placeholders, fill part by part. |
| Applier.FillLiteral | src/lib.rs:70-72 | A format without placeholders is copied unchanged, whatever the text. |
| Applier.FillUntilExhausted | tests/mask_tests.rs:40-44 | The output of the walk the partial-format test expects is never longer than the format. |
| Applier.FillUntilExhaustedSpec | tests/mask_tests.rs:40-44 | This walk equals `Fill` when the text covers every placeholder. On a partial fit it is the prefix of `Fill`'s output that ends on the last filled placeholder, and it is empty only for an empty text. |
| Applier.Apply | src/lib.rs:58-73 | The application loop, with its early `break`, builds exactly `Fill(format, text)`. |
| UniversalMask.Mask | src/lib.rs:27-76 | For an empty text it returns the empty string with no warning. Otherwise it returns the selected format filled with the text, and the warning flag is true exactly when the text is longer than the selected format's placeholder count. |
| UniversalMask.MaskedUsesCandidate | src/lib.rs:38-49 | The output is the selected format filled with the text. A non-empty selected format is one of the trimmed pieces, and the empty format is selected exactly when every piece trims to nothing. |
| UniversalMask.MaskedLiteralPattern | src/lib.rs:41-72 | A single pattern (no separator) whose trimmed form has no placeholders comes back as that trimmed form for any non-empty text, and the warning fires; this includes the empty and the padded pattern. |
| MaskFixtures.SsnFormat | tests/mask_tests.rs:5-9 | `"123456789"` with `"XXX-XX-XXXX"` gives `"123-45-6789"`, with no warning. |
| MaskFixtures.SsnLiterals | tests/mask_tests.rs:5-9 | The constants in `SsnFormat` spell the strings of the test. |
| MaskFixtures.PhoneFormat | tests/mask_tests.rs:12-16 | `"1234567890"` with `"(XXX) XXX-XXXX"` gives `"(123) 456-7890"`, with no warning. |
| MaskFixtures.PhoneLiterals | tests/mask_tests.rs:12-16 | The constants in `PhoneFormat` spell the strings of the test. |
| MaskFixtures.TwoFormatsSelect | src/lib.rs:45 | With twelve bytes, the first of two nine-placeholder patterns is kept over the tie. |
| MaskFixtures.MultipleFormats | tests/mask_tests.rs:19-23 | The code gives `"123-45-6789"` with the warning, which is not the test's `"12-3456789"`. |
| MaskFixtures.TwoFormatsLiterals | tests/mask_tests.rs:19-23 | The constants in `MultipleFormats` spell the strings of the test. |
| MaskFixtures.ThreeFormatsSelect | src/lib.rs:45-47 | With fifteen bytes, the first pattern is taken, kept over the tie with the second, and replaced by the third. |
| MaskFixtures.LongFormat | tests/mask_tests.rs:26-30 | The three-pattern cascade gives `"123-456-789-012-345"`, with no warning. |
| MaskFixtures.ThreeFormatsLiterals | tests/mask_tests.rs:26-30 | The format constant in `LongFormat` spells the test's format argument. |
| MaskFixtures.CascadeLiterals | tests/mask_tests.rs:26-30 | The text and result constants in `LongFormat` spell the test's strings. |
| MaskFixtures.EmptyInput | tests/mask_tests.rs:33-37 | The empty text gives the empty string, with no warning. |
| MaskFixtures.PartialFormat | tests/mask_tests.rs:40-44 | The code gives `"123-"` for `"123"` with `"XXX-XX-XXXX"`, with no warning. The walk the test expects gives `"123"`. |
| MaskFixtures.LeadingEmptyPattern | src/lib.rs:45 | A leading pattern that trims to nothing does not lock the choice: a blank pattern, then `"XX"`, with the text `"12"` gives `"12"`. |
| MaskFixtures.LeadingEmptyLiterals | src/lib.rs:45 | The constants in `LeadingEmptyPattern` spell its strings. |

## Findings

| source | as written | input that shows it | evidently intended | confidence | as-written member | corrected member |
|---|---|---|---|---|---|---|
| src/lib.rs:62-73 against tests/mask_tests.rs:40-44 | the walk copies the literal `'-'` after the third placeholder and stops at the fourth, giving `"123-"` | `mask("123", "XXX-XX-XXXX")` | `"123"`: once the text is used up, no literal before a placeholder still to come is emitted | not executed | MaskFixtures.PartialFormat | Applier.FillUntilExhaustedSpec |

A second test disagrees with the code in a way that has no corrected half
here. `tests/mask_tests.rs:19-23` and the doc example at `src/lib.rs:20-21`
expect `"12-3456789"` for `mask("123456789012", "XXX-XX-XXXX | XX-XXXXXXX")`.
Both patterns hold nine placeholders, and the strict `>` at `src/lib.rs:45`
keeps the first one, so the code returns `"123-45-6789"` and warns.
`MaskFixtures.MultipleFormats` proves this value and that it differs from the
test's. The test's value would need another selection rule than the one the
code states, and the model keeps the code's rule.

`Applier.FillUntilExhausted` is the corrected walk: it drops the literals
that follow the last filled placeholder only while a placeholder is still to
come, so on a full fit it equals `Fill` (`"XXX-"` with `"123"` keeps its
`'-'`). `FillUntilExhaustedSpec` relates it to `Fill` for every input, and
`PartialFormat` proves it gives the test's `"123"`. `Mask` keeps the walk the
code has.

## Left out

- The warning is returned as the flag `warned` of `Mask`. The message written to standard error (`src/lib.rs:53-54`) is not modelled, because it is I/O.
- Bytes.Trim: only ASCII whitespace is trimmed (space, tab, line feed, vertical tab, form feed, carriage return), while `str::trim` also strips other Unicode whitespace such as U+0085 and U+00A0. Trimming works on bytes; for the ASCII bytes this is the same as trimming characters.
- UniversalMask.Mask: the result is the sequence of characters pushed, each a byte taken `as char`. How a non-ASCII byte is re-encoded inside the returned `String` is not modelled; a multi-byte UTF-8 character in the text or format is seen as its separate bytes, as the source walks it.
- `String::with_capacity` (`src/lib.rs:58`) is an allocation hint with no observable effect, and is not modelled.
- The expected values `"12-3456789"` (`tests/mask_tests.rs:19-23`, `src/lib.rs:20-21`) and `"123"` (`tests/mask_tests.rs:40-44`) are not proved for `mask`, because the code computes `"123-45-6789"` and `"123-"`. Those are proved instead.
