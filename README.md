# Five utilities of the editor toolkit, modelled in Dafny

This project models five small, self-contained pieces of logic from the
browser editor's component toolkit and proves their contracts:

- **Warefun** (table grid model): reading a row or a column out of a grid of
  cell references, and the run-length encoder `extract`. It cuts a line into
  maximal runs of the same cell, each recorded as `{ element, colspan }` or
  `{ element, rowspan }`. `extract` is a `while` loop over an offset, and it is
  proved against its inverse `Expand`: expanding the runs gives the line back,
  every span is at least 1, and neighbouring runs hold different cells. A
  separate lemma proves that such an encoding is unique, so these properties
  pin the result down completely.
- **WordSanitiser** (word search): the rules that decide whether an apostrophe
  at either edge of a word belongs to it. `rhs` handles the right edge and
  `lhs` the left edge, following the `'twas` whitelist. `scope` and `text`
  compose the two. JavaScript's `substring` (bounds clamped and swapped),
  `charAt` (empty string out of range) and `indexOf` keep their index rules,
  applied to strings as sequences of characters (see "Left out").
- **PrettyPrinter** (schema validation): `formatErrors` renders at most ten
  failures and then a truncation notice. `formatObj` replaces an object with
  more than a hundred keys by a placeholder.
- **ExecutionType** (keyboard handling): the schema defaults, and which keys
  fire a component's `execute` handler (space, enter and down, each behind a
  flag).
- **ArbDataTypes** (test data): `show` for Result values, and the
  forward/backward maps of the two Result generators with their round trips.
  It also covers the loop that builds the index array `[0, ..., n - 1]`.

`Perhaps.dfy` holds the shared `Option` type.

Some behaviour has no specification beyond the code, and the code is followed.
The left-edge rule accepts an empty word vacuously. `lhs` on an empty word
therefore reports an apostrophe on the left although there is none. The lemma
`WordSanitiser.EmptyWordReportsLeftApostrophe` records this.

## Model

| member | source | states |
|---|---|---|
| `Warefun.GetRow` | src/main/js/ephox/snooker/model/Warefun.js:19-21 | the row at an in-range index, `undefined` (None) outside the grid |
| `Warefun.GetColumn` | src/main/js/ephox/snooker/model/Warefun.js:13-17 | one entry per row; entry i is `grid[i][index]`, or `undefined` where row i has no such slot |
| `Warefun.RowColumnAgree` | src/main/js/ephox/snooker/model/Warefun.js:13-21 | in a rectangular grid, row i read at j and column j read at i give the same cell, and the column has no `undefined` entry |
| `Warefun.At` | src/main/js/ephox/snooker/model/Warefun.js:20 | JavaScript indexing: a value exactly at an in-range index, and that value is the element there |
| `Warefun.StrictEquals` | src/main/js/ephox/snooker/model/Warefun.js:38 | the comparator `extract` passes holds exactly of equal cells |
| `Warefun.FindIndex` | src/main/js/ephox/snooker/model/Warefun.js:27-29 | the first index whose item satisfies the predicate, or -1 exactly when no item does |
| `Warefun.FindDiff` | src/main/js/ephox/snooker/model/Warefun.js:24-31 | 0 on an empty sequence; otherwise k ≤ length, every item before k is related to the first, item k (if any) is not, and k ≥ 1 when the comparator is reflexive on the first item |
| `Warefun.Extract` | src/main/js/ephox/snooker/model/Warefun.js:33-46 | expanding the runs gives back the line; spans are ≥ 1 and sum to the line length; neighbouring runs differ; every record carries the `what` key; no runs exactly for the empty line |
| `Warefun.FindDiffHeadRun` | src/main/js/ephox/snooker/model/Warefun.js:37-38 | on a non-empty rest of the line, the span `findDiff` returns under `===` is at least 1 and covers exactly the maximal run of the first cell |
| `Warefun.RecordRun` | src/main/js/ephox/snooker/model/Warefun.js:36-44 | one pass of the loop keeps its invariant: the records so far encode the line up to `current`, and the cell at `current` starts a new run |
| `Warefun.RunAt` | src/main/js/ephox/snooker/model/Warefun.js:38-43 | run k starts at the sum of the earlier spans and each slot it covers holds its element |
| `Warefun.ExtractRunAt` | src/main/js/ephox/snooker/model/Warefun.js:36-43 | for extract's output, the run's element is the line item at its start offset and at every offset it covers |
| `Warefun.EncodingUnique` | src/main/js/ephox/snooker/model/Warefun.js:33-46 | two encodings of one line with positive spans and differing neighbours are equal, so extract's contract determines its result |
| `WordSanitiser.IndexOf` | src/main/js/ephox/robin/util/WordSanitiser.js:37 | -1 exactly when the pattern occurs nowhere in the word; otherwise the pattern occurs at the returned offset and at no earlier one |
| `WordSanitiser.Substring` | src/main/js/ephox/robin/util/WordSanitiser.js:41 | bounds in order give that slice, bounds out of order are swapped, an end past the length stops at the end, a negative start counts as 0; never longer than the string |
| `WordSanitiser.CharAt` | src/main/js/ephox/robin/util/WordSanitiser.js:43 | the one-character string at an in-range index, the empty string elsewhere |
| `WordSanitiser.IsQuote` | src/main/js/ephox/robin/util/WordSanitiser.js:24-26 | true exactly of the one-character string holding an apostrophe |
| `WordSanitiser.TrimStart` | src/main/js/ephox/robin/util/WordSanitiser.js:14-17 | drops the first character (an empty word stays empty), sets `left` to an apostrophe, keeps `right` |
| `WordSanitiser.TrimEnd` | src/main/js/ephox/robin/util/WordSanitiser.js:19-22 | drops the last character, keeps `left`, sets `right` to an apostrophe |
| `WordSanitiser.Whitelisted` | src/main/js/ephox/robin/util/WordSanitiser.js:36-38 | the whitelist test holds exactly when the word contains `'twas` |
| `WordSanitiser.Rhs` | src/main/js/ephox/robin/util/WordSanitiser.js:28-32 | removes exactly the last character and sets `right`, keeping `left`, if and only if the word has ≥ 2 characters, ends in `'` and the one before is not `'`; otherwise the input comes back unchanged |
| `WordSanitiser.Lhs` | src/main/js/ephox/robin/util/WordSanitiser.js:34-46 | checks 2 leading characters when the word contains `'twas`, else 1; removes the first character and sets `left`, keeping `right`, if and only if the checked characters are all `'` and the one at the checked count is not `'` (out of range counts as not); otherwise unchanged |
| `WordSanitiser.Scope` | src/main/js/ephox/robin/util/WordSanitiser.js:53-56 | the result word is a contiguous piece of the input starting at offset 0 or 1, at most 2 characters shorter; each side is either kept or set to an apostrophe |
| `WordSanitiser.Text` | src/main/js/ephox/robin/util/WordSanitiser.js:61-65 | the sanitised word is a contiguous piece of the input, at most 2 characters shorter |
| `WordSanitiser.TwasKept` | src/main/js/ephox/robin/util/WordSanitiser.js:12 | `text("'twas")` is `'twas` unchanged |
| `WordSanitiser.ApostropheDroppedBeforeOtherWords` | src/main/js/ephox/robin/util/WordSanitiser.js:40-45 | outside the whitelist a single leading apostrophe is removed: `text("'tis")` is `tis` |
| `WordSanitiser.NoApostropheUnchanged` | src/main/js/ephox/robin/util/WordSanitiser.js:28-46 | a word with no apostrophe comes back from `text` unchanged |
| `WordSanitiser.QuotedWordUnwrapped` | src/main/js/ephox/robin/util/WordSanitiser.js:53-56 | `scope` of `'hello'` gives `hello` with an apostrophe recorded on both sides |
| `WordSanitiser.EmptyWordReportsLeftApostrophe` | src/main/js/ephox/robin/util/WordSanitiser.js:41-45 | on an empty word `lhs` sets `left` to an apostrophe, and `text("")` is empty |
| `PrettyPrinter.IsObject` | src/main/js/ephox/boulder/format/PrettyPrinter.js:13 | `Type.isObject` holds of objects and of nothing else: not of null, undefined, booleans, numbers, strings or arrays |
| `PrettyPrinter.FormatObj` | src/main/js/ephox/boulder/format/PrettyPrinter.js:13 | an object with more than 100 keys gives `' removed due to size'`; anything else gives the serialiser's output |
| `PrettyPrinter.Join` | src/main/js/ephox/boulder/format/PrettyPrinter.js:29 | `path.join(' > ')`: the empty path joins to the empty string, a one-element path to its element |
| `PrettyPrinter.JoinAppend` | src/main/js/ephox/boulder/format/PrettyPrinter.js:29 | joining a path split into two non-empty parts puts exactly one separator between the two joined parts |
| `PrettyPrinter.FormatError` | src/main/js/ephox/boulder/format/PrettyPrinter.js:29 | the text starts with `Failed path: (`, holds the joined path from offset 14, then `)` and a newline, then the error info to the end; it is exactly 16 characters longer than path and info |
| `PrettyPrinter.EmptyPathRendering` | src/main/js/ephox/boulder/format/PrettyPrinter.js:29 | an error with an empty path, such as the truncation sentinel, renders as `Failed path: ()`, a newline and its details |
| `PrettyPrinter.FormatAll` | src/main/js/ephox/boulder/format/PrettyPrinter.js:28-30 | one string per error, in order |
| `PrettyPrinter.FormatErrors` | src/main/js/ephox/boulder/format/PrettyPrinter.js:17-31 | with ≤ 10 errors, one string per error in order; with more, exactly 11: the first ten in order, then `Failed path: ()`, a newline and `... (only showing first ten failures)` |
| `ExecutionType.Configure` | src/main/js/ephox/alloy/keying/ExecutionType.js:18-23 | `useSpace` and `useDown` hold only when set to true, `useEnter` unless set to false, `execute` falls back to the default handler |
| `ExecutionType.ExecKeys` | src/main/js/ephox/alloy/keying/ExecutionType.js:30-33 | a key is included exactly when it is a space key with `useSpace` outside an editable field, an enter key with `useEnter`, or a down key with `useDown`; the length adds up group by group; the groups are concatenated in order: space keys first, enter keys right after them, down keys last |
| `ExecutionType.Fires` | src/main/js/ephox/alloy/keying/ExecutionType.js:36 | `KeyMatch.inSet`: a rule fires on a key exactly when the key occurs at some position of the rule's key list |
| `ExecutionType.GetRules` | src/main/js/ephox/alloy/keying/ExecutionType.js:29-38 | exactly one rule, whose action is execute, firing on exactly the execution keys |
| `ExecutionType.RunExecute` | src/main/js/ephox/alloy/keying/ExecutionType.js:25-27 | the configured handler is called with the component, the event and the component's element |
| `ExecutionType.GroupIncludedIff` | src/main/js/ephox/alloy/keying/ExecutionType.js:30-32 | with distinct key groups, the space keys are present iff `useSpace` and not inside an editable field, enter iff `useEnter`, down iff `useDown` |
| `ExecutionType.DefaultsExecuteOnEnter` | src/main/js/ephox/alloy/keying/ExecutionType.js:18-33 | with every field defaulted, the key set is exactly the enter keys and the default handler is used |
| `ArbDataTypes.Result.Fold` | src/test/js/module/ephox/katamari/test/arb/ArbDataTypes.js:12-16 | `res.fold` applies the error callback to an error's payload and the value callback to a value's payload |
| `ArbDataTypes.Show` | src/test/js/module/ephox/katamari/test/arb/ArbDataTypes.js:11-17 | an error shows as `Result.error(e)`, a value as `Result.value(v)` |
| `ArbDataTypes.ShowInjective` | src/test/js/module/ephox/katamari/test/arb/ArbDataTypes.js:11-17 | distinct Results are shown differently |
| `ArbDataTypes.ErrorOf` | src/test/js/module/ephox/katamari/test/arb/ArbDataTypes.js:19-21 | the forward map of `resultError` makes an error holding the string |
| `ArbDataTypes.UnError` | src/test/js/module/ephox/katamari/test/arb/ArbDataTypes.js:21-22 | the backward map returns an error's text and throws `This should not happen` on a value |
| `ArbDataTypes.ValueOf` | src/test/js/module/ephox/katamari/test/arb/ArbDataTypes.js:25-27 | the forward map of `resultValue` makes a value holding the string |
| `ArbDataTypes.UnValue` | src/test/js/module/ephox/katamari/test/arb/ArbDataTypes.js:27-28 | the backward map returns a value's text and throws `This should not happen` on an error |
| `ArbDataTypes.ErrorMapsRoundTrip` | src/test/js/module/ephox/katamari/test/arb/ArbDataTypes.js:19-23 | backward after forward is the identity on strings, forward after backward the identity on errors |
| `ArbDataTypes.ValueMapsRoundTrip` | src/test/js/module/ephox/katamari/test/arb/ArbDataTypes.js:25-29 | backward after forward is the identity on strings, forward after backward the identity on values |
| `ArbDataTypes.IndexArray` | src/test/js/module/ephox/katamari/test/arb/ArbDataTypes.js:34-42 | the array has the generated length n, which is at most `len`, and holds i at index i |

## Left out

- The span-merging loop of `render` (src/main/js/ephox/snooker/model/Warefun.js:49-80) is left out. It is unfinished debugging code: it logs with `console.log`, indexes columns by the row counter, and writes through `result[colIndex]` before that entry exists. It gives no contract to prove.
- Strings: Dafny strings are sequences of Unicode scalar values, whereas JavaScript strings are sequences of UTF-16 code units. `WordSanitiser.Substring`, `WordSanitiser.CharAt`, `WordSanitiser.IndexOf` and the lengths in `WordSanitiser.Rhs`/`WordSanitiser.Lhs` therefore count code points, not code units, for words with characters outside the Basic Multilingual Plane. The rules themselves are unaffected: the apostrophe is a single code unit, and only apostrophes are ever trimmed.
- Extract: the attribute name `what` is modelled as `SpanKey` (`Colspan` or `Rowspan`), not as an arbitrary string; the only calls, in `render` (src/main/js/ephox/snooker/model/Warefun.js:54-55), pass `'colspan'` and `'rowspan'`.
- Warefun elements are compared with a reflexive equality. JavaScript's `===` is not reflexive on NaN, and `extract` would loop forever on a line of NaNs. Cells are object references, so this case does not arise for them.
- `Json.stringify` in `formatObj` is a foreign serialiser. It is a function parameter. JavaScript numbers are modelled as reals, without floating-point rounding.
- `getErrorInfo` is a thunk in the source. Each error carries the string the thunk returns.
- `EditableFields.inside` is a DOM query. It is the boolean `insideEditable`. The `Keys.*` constants are parameters. `KeyMatch`, `KeyRules` and `KeyingType.typical` are represented only by the rule record and its firing predicate. `getEvents` and `getApis` (constant empty objects) are not modelled.
- The jsverify machinery in ArbDataTypes (`Jsc.string`, `smap`, `oneof`, `bless`, `integer`) generates random values and shrinks counterexamples, so it is left out. Only the mapping functions and the loop body are modelled.
- IndexArray: the generated length's bound `[0, len]` is what `Jsc.integer(0, len)` promises, so it is a precondition of the method rather than something proved.
- `GuiFactory.ts` and `TableCommands.ts` are not part of this model. They need a live DOM and a host editor.
