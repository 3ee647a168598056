# Daily tally store of the Chromebook Counter app

This project models the state logic of the single-screen counter app in
`App.js`. The app keeps a table from dates (`YYYY-MM-DD`) to counts. It
shows today's count and the average per day. Its handlers do four things:

- add one to today's count (the round "Add One" button);
- set a day's count from the Add Day / Edit dialog;
- delete a day;
- load the stored table at start-up.

After every change the whole table is written to local storage. The
history list shows the table's entries, newest date first.

Modules:

- `Wrappers` (`wrappers.dfy`): `Option`.
- `DateOrder` (`date_order.dfy`): the string order the history list is sorted by (`Precedes`), its order laws, and `Newest`, the latest date of a set.
- `JsNumber` (`js_number.dfy`): `ToNumber`, JavaScript's `Number(text)` on strings, following the StringNumericLiteral grammar of ECMA-262. NaN is `None`. White space at both ends is trimmed. `0x`/`0o`/`0b` prefixes select a non-decimal integer. Otherwise a sign, a mantissa (`Mantissa`: digits, a point, digits) and an optional exponent (`Exponent`) are read by `Decimal`. `Scaled` multiplies by a power of ten. `DecimalString` is `toString` of a whole count below 10^21, where JavaScript still prints plain digits.
- `Tally` (`tally.dfy`): the pure views. `Lookup` reads a count (`counts[d] || 0`). `History` is the newest-first list of entries. `Average` is the mean. `Total` is an order-free reference sum. The lemmas relate these to each other and to the table updates.
- `App` (`store.dfy`): class `TallyStore`, with fields `counts`, `todayCount`, `average` and `saved`. `saved` is what storage holds under `chromebook_counts`. The methods are `Load`, `Tap`, `Save` and `Delete`. `Valid()` (the average shown is the mean of the table) holds in every state. `ShowsToday(today)` (the count shown is the table's count for today) is kept by every handler. `Persisted()` (storage equals the table) holds after every change that is carried out.

The current date is a parameter, `today`, of every handler. `saveEdit` and `saveAdd` have the same body, so both are modelled by one method, `Save`.

## Model

| member | source | states |
|---|---|---|
| `App.TallyStore.constructor` | App.js:14-16 | The screen starts with an empty table, today's count 0 and average 0, so the average invariant already holds. |
| `App.TallyStore.Load` | App.js:22-31 | Nothing changes when storage holds no table. Otherwise the stored table is shown and storage still equals it. Today's count is the stored count for today, or 0. The average is the table's mean. |
| `App.TallyStore.Tap` | App.js:42-50 | Today's count becomes its old value plus one, with an absent day counting as 0. Every other date keeps its count. The count shown is the new value. The new table is written to storage and the average is recomputed. |
| `App.TallyStore.Save` | App.js:66-84 | An empty date or a count text that is NaN changes nothing, and nothing is written. Otherwise the date's count becomes the number, overwriting any earlier count, and every other date is untouched. The count shown changes only when the date is today. The table is written and the average recomputed. |
| `App.TallyStore.Delete` | App.js:86-93 | Exactly that date is removed. An absent date leaves the table and the average as they were. The count shown becomes 0 when the date is today and stays otherwise. The table is written and the average recomputed. |
| `Tally.Lookup` | App.js:44 | `counts[today] || 0`: the stored count of a date, or 0 when the date is absent. `Tap`, `Load` and `TotalUpdate` state their results through it. |
| `Tally.Average` | App.js:33-40 | `updateAverage`: 0 for an empty table, otherwise the counts added up and divided by their number. `AverageIsMean` and `AverageBounds` state what it equals and where it lies. |
| `Tally.History` | App.js:112-114 | The history list: the entries with the newest date taken first, repeatedly. `HistoryListsEntries` and `SortedEntriesAreHistory` state that it is the table sorted newest first. |
| `Tally.AverageIsMean` | App.js:33-40 | The average is 0 for an empty table. Otherwise it is the sum of all counts divided by the number of days. |
| `Tally.AverageBounds` | App.js:33-40 | When every count lies between `lo` and `hi`, so does the average. |
| `Tally.AverageOfTwoDays` | App.js:33-40 | Two days average half their sum (days counted 2 and 4 average 3). |
| `Tally.TotalRemove` | App.js:34-38 | The sum of the counts does not depend on the order they are added in, so the insertion order of `Object.values` does not matter. |
| `Tally.HistorySum` | App.js:34-38 | The counts in the history list add up to the table's total. |
| `Tally.TotalUpdate` | App.js:44-45 | Setting one date's count (a tap, or a save) changes the total by new value minus old value, with an absent day counting as 0. A tap therefore adds exactly 1. |
| `Tally.TotalDelete` | App.js:87-88 | Deleting a date takes its count out of the total and leaves the rest. |
| `Tally.HistoryListsEntries` | App.js:112-114 | The history list has one row per table entry. Each row is a (date, count) pair of the table, each pair appears, and dates strictly decrease, so no date appears twice. |
| `Tally.SortedEntriesAreHistory` | App.js:112-114 | Any list that holds exactly the table's entries, newest date first, equals the history list. Sorting the entries has one outcome, and `History` is that outcome. |
| `DateOrder.Precedes` | App.js:113 | The order `b.localeCompare(a)` sorts by, read as code-point order on strings: `a` sorts before `b` when it is a proper prefix of `b`, or when it has the smaller character at the first difference. The order laws below state it is a strict total order. |
| `DateOrder.Newest` | App.js:113 | The newest date of a non-empty set is in the set, and every other date of the set sorts before it. |
| `DateOrder.PrecedesTotal` | App.js:113 | Of two different dates, one sorts before the other. |
| `DateOrder.PrecedesTransitive` | App.js:113 | The date order is transitive. |
| `DateOrder.PrecedesAsymmetric` | App.js:113 | Two dates never sort before each other. |
| `JsNumber.BlankIsZero` | App.js:67 | A count text that is empty or only white space converts to 0, so it passes the NaN check and is saved as 0. |
| `JsNumber.LetterIsNaN` | App.js:67 | A count text that starts with a lower-case letter (`notanumber`, `abc`) is NaN, so the save is refused. |
| `JsNumber.PointValueDigits` | App.js:67-68 | The value of `w.f` times ten to the power `|f|` is the integer spelled by the digits of `w` then `f`: `2.5` is 25 tenths, so `PointValue` is `w + f / 10^|f|`. |
| `JsNumber.UnsignedFraction` | App.js:67-68 | For all digit strings `w` and `f`, not both empty, the count text `w.f` converts to the value `w.f` spells, so it passes the NaN check and is saved as typed. |
| `JsNumber.PlusFraction` | App.js:67-68 | For all such `w` and `f`, `+w.f` converts to the value of `w.f`. |
| `JsNumber.SignedFraction` | App.js:67-68 | For all such `w` and `f`, `-w.f` converts to minus the value of `w.f` (`-2.5` to -2.5). A negative fractional count is accepted as typed. |
| `JsNumber.SignedDigits` | App.js:67-68 | For every non-empty digit string `w`, `+w` converts to the number `w` spells, and `-w` to minus that number. |
| `JsNumber.DigitsToNumber` | App.js:67-68 | A plain string of decimal digits converts to the number it spells. |
| `JsNumber.ToNumber` | App.js:67-68 | `Number(editCount)` as a partial function: `None` is NaN. Its definition follows the StringNumericLiteral grammar. What it gives on blank, lettered, whole, signed and fractional texts is stated by `BlankIsZero`, `LetterIsNaN`, `DigitsToNumber`, `SignedDigits` and the fraction lemmas. |
| `JsNumber.DecimalString` | App.js:54 | `count.toString()` of a whole count is a non-empty string of decimal digits. |
| `JsNumber.DecimalStringValue` | App.js:54 | Those digits spell the count itself. |
| `JsNumber.EditRoundTrip` | App.js:54-68 | The edit dialog shows a whole count as `count.toString()`. Saving that text unchanged stores the same count. |

## Left out

- Rendering: the React components, `FlatList`, `Modal`, the text inputs and the dialog's `modalVisible`/`isAddMode` state (App.js:95-165). The dialog's `editDate`/`editCount` are parameters of `Save`.
- The style sheet (App.js:168-230): presentation only.
- Storage is modelled as the field `saved`. Its asynchronous calls and the JSON text are not modelled. A stored value that `JSON.parse` rejects is not modelled either.
- `getToday` reads the clock and slices an ISO string (App.js:8-11). The model takes `today` as a parameter instead. If the date changes between two handler calls, the count shown can go stale. The model states `ShowsToday` for each date separately.
- Overlapping asynchronous handlers, such as a tap before the load has finished, are not modelled. The handlers run one after another.
- Average: the app stores `toFixed(2)` of a floating-point mean, as a string. The model keeps the exact real mean.
- Counts are exact reals, not IEEE doubles. Rounding of decimal fractions and overflow of large exponents to Infinity are not modelled.
- ToNumber: maps `Infinity`, `+Infinity` and `-Infinity` to `None`, because the model has no infinite reals. JavaScript gives ±Infinity, which passes the NaN check. White space is the ECMA-262 StrWhiteSpaceChar set. Characters are Unicode scalar values, not UTF-16 code units.
- Precedes: compares characters by code point. The app sorts with `localeCompare`, which uses the locale's collation. The two agree on `YYYY-MM-DD` dates. For other text typed into the Add Day dialog, the two orders can differ.
- `openEditModal`/`openAddModal` (App.js:52-64) only fill the dialog. They are covered by the `Save` parameters and by `EditRoundTrip`.
- Tap, Save, Delete: each ensures `Persisted()`, as if every `AsyncStorage.setItem` succeeds. In the app the table and today's count are set before the write is awaited (App.js:48, 71, 81, 91). A rejected write therefore leaves storage unwritten and skips `updateAverage`, so the average shown goes stale. The model does not cover a failed write.
- DecimalString: models `toString` only for whole counts below 10^21. From 10^21 on, JavaScript prints exponent notation (`1e+21`). The `toString` of a fractional count, which the edit dialog also shows, is not modelled.
