# Discount calculator: history store and currency parser

This project models two client-side utilities of a discount-calculator widget
and proves properties of the models in Dafny.

- **The calculation-history store** (`src/utils/storage.ts`). It keeps a
  newest-first list of calculation records (`HistoryEntry`: id, original
  price, discount percent, final price, timestamp) under the key
  `discount-calc-history` of the browser's local storage. The list holds at
  most 10 entries. It has four public operations: save a calculation, read
  the history, clear it, and delete an entry by id. Before doing anything,
  each one probes the storage by writing and removing the key
  `__localStorage_test__`. When the probe fails, the operation does nothing
  (or returns the empty history). A failing write is caught, and the
  operation then does nothing.
- **The currency parser** (`parseCurrency` in `src/utils/formatCurrency.ts`).
  It removes every character outside `[0-9.-]`. It then reads the longest
  decimal literal at the start of what remains, as `parseFloat` does. It
  returns 0 when there is none (`NaN || 0`).

Files:

- `history_store.dfy` (module `HistoryStore`): the constants, the stored item
  and entry datatypes, the shape test, and the pure functions the
  operations are specified by (`ReadHistory`, `Recorded`, `WithoutId`). It
  also holds the lemmas about them and the class `Storage`. `Storage` holds
  the backend's `store: map<string, Item>` and an `available` flag. Its
  methods `IsAvailable`, `GetHistory`, `SaveCalculation`, `ClearHistory` and
  `DeleteCalculation` change the map step by step, as the source does.
- `currency.dfy` (module `Currency`): the stripping filter `Strip` and the
  scanner `ScanDecimal` (`parseFloat` on the stripped alphabet). It also
  holds `ParseCurrency` and an independent reference grammar, `IsDecimal` and
  `DecimalValue`. The scanner is proved to read exactly the longest prefix
  that grammar accepts, and to give that prefix's value.
- `seqs.dfy` (module `Seqs`): an order-preserving `Filter`, the subsequence
  relation, and `Take` (which is `slice(0, n)`). It also holds lemmas that
  characterise `Filter` completely. The getHistory filter, the
  deleteCalculation filter and the regular-expression strip are all built on
  this `Filter`.
- `digits.dfy` (module `Digits`): digit strings and their values. It also
  holds `NatToDigits`, which models `Date.now().toString()`.
- `json.dfy` (module `Json`): `JValue`, the values `JSON.parse` can return.
- `wrappers.dfy` (module `Wrappers`): `Option`.

Modelling choices:

- A stored item is `Serialized(v)` (any text that `JSON.parse` maps to `v`,
  whoever wrote it) or `Unparsable(text)` (text that `JSON.parse` rejects,
  the empty text among them). The history is a sequence of `JValue` objects, not of typed
  records. The filter in `getHistory` returns the parsed objects themselves,
  extra fields included, and save and delete write those objects back.
- `Date.now()` is read twice in `saveCalculation` (storage.ts:49 and :53),
  once for the id and once for the timestamp, so it becomes two parameters,
  `idClock` and `stampClock`.
- A failing `setItem` or `removeItem` becomes a boolean parameter (`writeOk`
  or `removeOk`). A failing probe is `available == false`. The probe writes
  and then removes `__localStorage_test__`, so when it succeeds its net effect
  is to delete that key.
- `deleteCalculation` removes every entry with the given id
  (storage.ts:135), and so does `WithoutId`.
- The shape test only asks for a number timestamp (storage.ts:101), so
  `HistoryEntry.timestamp` is a `real`.

## Model

| member | source | states |
|---|---|---|
| HistoryStore.StorageKey | src/utils/storage.ts:5 | the key the history is stored under |
| HistoryStore.MaxHistoryItems | src/utils/storage.ts:6 | the most entries a saved history holds |
| HistoryStore.ProbeKey | src/utils/storage.ts:22 | the key the availability probe writes and removes again |
| HistoryStore.ToJson | src/utils/storage.ts:8-14 | the object written for an entry has exactly the five fields of the HistoryEntry interface and passes the shape test |
| HistoryStore.IsEntry | src/utils/storage.ts:94-102 | the shape test: a non-null object with a string id and four number fields, other fields allowed; FromJson is defined exactly on it, ToJson always passes it, and ReadHistoryIsFilter and ReadHistoryUnique pin the filter that applies it |
| HistoryStore.FromJson | src/utils/storage.ts:93-103 | an entry is read from a value exactly when the value passes the shape test |
| HistoryStore.FromToJson | src/utils/storage.ts:8-14 | writing an entry and reading it back gives the same entry |
| HistoryStore.ToFromJson | src/utils/storage.ts:93-103 | a well-shaped value with no extra fields is exactly the object written for the entry it stands for |
| HistoryStore.NewEntry | src/utils/storage.ts:48-54 | the new entry carries the given prices, its id is the decimal text of the first clock reading, and its timestamp is the second reading |
| HistoryStore.NewEntryIdsDistinct | src/utils/storage.ts:49 | entries created at different clock readings get different ids (equal readings can collide) |
| Digits.NatToDigits | src/utils/storage.ts:49 | Date.now().toString() is a non-empty digit string with no leading zero that reads back as the number |
| HistoryStore.ValidEntries | src/utils/storage.ts:93-103 | the filter keeps only well-shaped entries and never lengthens the array |
| HistoryStore.ReadHistory | src/utils/storage.ts:78-103 | the history read is all well-shaped, and is empty when the key is absent, its text is empty or not JSON, or the value is not an array |
| HistoryStore.ReadHistoryIsFilter | src/utils/storage.ts:93-103 | the history read is an order-preserving subsequence of the stored array, holding each well-shaped element as often as the array does and nothing else |
| HistoryStore.ReadHistoryUnique | src/utils/storage.ts:93-103 | any subsequence with those properties is the history read, so they determine it exactly |
| HistoryStore.ReadHistoryDropsMalformed | src/utils/storage.ts:93-103 | an array of one well-shaped and one malformed element reads back as the well-shaped element alone |
| HistoryStore.ReadHistoryAllValid | src/utils/storage.ts:93-103 | when every stored element is well-shaped, the stored array is returned unchanged |
| HistoryStore.ReadBack | src/utils/storage.ts:63 | a history of well-shaped entries, once written, reads back exactly as written |
| HistoryStore.ProbeFacts | src/utils/storage.ts:20-28 | the probe's net removal of its own key touches neither the history nor any other key, and keeps a bounded store bounded |
| HistoryStore.Recorded | src/utils/storage.ts:56-60 | the saved history has 1 to 10 entries, the new entry first, then the first 9 entries of the old history in order; it is well-shaped if the old one was |
| HistoryStore.RecordAll | src/utils/storage.ts:56-63 | after one or more saves, the history holds 1 to 10 entries, the last saved entry first, and stays well-shaped if it was |
| HistoryStore.RecordAllNewestFirst | src/utils/storage.ts:56-60 | after one or more saves, the history is the saved entries newest first, followed by the older history, cut to 10 |
| HistoryStore.TenMostRecent | src/utils/storage.ts:56-60 | ten or more saves leave exactly 10 entries: the 10 most recent, newest first |
| HistoryStore.HasId | src/utils/storage.ts:135 | on a well-shaped value, it holds exactly when the entry the value stands for has the given id, so it is the negation of `entry.id !== id` |
| HistoryStore.WithoutId | src/utils/storage.ts:135 | no entry with the deleted id remains, and the list never grows |
| HistoryStore.WithoutIdKeepsOthers | src/utils/storage.ts:135 | deleting keeps every other entry as often as before, in order, and well-shaped |
| HistoryStore.WithoutAbsentId | src/utils/storage.ts:135 | deleting an id that no entry has leaves the history unchanged |
| HistoryStore.BoundedReadHistory | src/utils/storage.ts:93-103 | in a store every write has kept bounded, the history read is the stored array itself |
| HistoryStore.RemoveFacts | src/utils/storage.ts:119 | removing the history key leaves no history, a bounded store, and all other keys untouched |
| HistoryStore.Storage.IsAvailable | src/utils/storage.ts:20-29 | reports whether the backend answers; if it does, only the probe key is gone, and otherwise nothing changed |
| HistoryStore.Storage.GetHistory | src/utils/storage.ts:73-108 | returns ReadHistory of the store, or [] when storage is unavailable; only the probe changes the store |
| HistoryStore.Storage.SaveCalculation | src/utils/storage.ts:35-67 | on a successful write, the key holds Recorded(old history, new entry), the history read afterwards is exactly that, and the store is bounded; otherwise the history is unchanged; no other key changes |
| HistoryStore.Storage.ClearHistory | src/utils/storage.ts:113-123 | on success the key is absent and the history read is empty; otherwise the history is unchanged; no other key changes |
| HistoryStore.Storage.DeleteCalculation | src/utils/storage.ts:128-140 | on a successful write, the key holds WithoutId(old history, id), even when nothing matched; otherwise the history is unchanged; boundedness is kept; no other key changes |
| Currency.Strip | src/utils/formatCurrency.ts:22 | the stripped string holds only digits, '.' and '-' and is no longer than the input |
| Currency.StripKeepsNumeric | src/utils/formatCurrency.ts:22 | the stripped string is a subsequence of the input and keeps every digit, '.' and '-' as often as it occurs |
| Currency.StripIdentity | src/utils/formatCurrency.ts:22 | a string made only of digits, '.' and '-' is left unchanged |
| Currency.StripIdempotent | src/utils/formatCurrency.ts:22 | stripping twice is stripping once |
| Currency.ValueWithDot | src/utils/formatCurrency.ts:22 | integer digits, '.', fraction digits make a literal whose value is the integer part plus the fraction digits over ten to their count |
| Currency.ScanUnsignedSound | src/utils/formatCurrency.ts:22 | what the scanner reads without a sign is a literal of the grammar and has that literal's value |
| Currency.ScanUnsignedLongest | src/utils/formatCurrency.ts:22 | no longer unsigned prefix is a literal, and none at all is when the scan fails |
| Currency.ScanDecimal | src/utils/formatCurrency.ts:22 | a successful scan reads a non-empty prefix of the input; ScanDecimalSound and ScanDecimalLongest prove it is the longest decimal prefix, with its exact value |
| Currency.ParseFloat | src/utils/formatCurrency.ts:22 | on input of digits, '.' and '-' only, parseFloat gives NaN exactly when no prefix of its input is a decimal literal; otherwise its result is the value of such a prefix |
| Currency.ScanDecimalSound | src/utils/formatCurrency.ts:22 | the prefix parseFloat reads, sign included, is a decimal literal and the result is its exact value |
| Currency.ScanDecimalLongest | src/utils/formatCurrency.ts:22 | parseFloat reads the longest decimal prefix; it gives NaN exactly when no prefix is a literal |
| Currency.ParseCurrency | src/utils/formatCurrency.ts:19-23 | the result is 0 when no prefix of the stripped input is a decimal literal, and a non-zero result is the value of some decimal prefix of the stripped input |
| Currency.ParseCurrencyLongestPrefix | src/utils/formatCurrency.ts:21-23 | parseCurrency returns the value of the longest decimal prefix of the stripped input |
| Currency.ParseCurrencyWellFormed | src/utils/formatCurrency.ts:21-23 | when the stripped input is a well-formed signed decimal, the result is its exact value |
| Currency.ParseCurrencyDecorated | src/utils/formatCurrency.ts:15-23 | an amount surrounded by characters outside [0-9.-] (a currency sign or name) parses to the amount |
| Currency.ParseCurrencyEmptyExamples | src/utils/formatCurrency.ts:19-22 | "", "abc", "-" and "." all parse to 0 |
| Currency.ParseCurrencyEuroExample | src/utils/formatCurrency.ts:21-23 | "-12.50 EUR" parses to -12.5 |

## Left out

- `formatCurrency` (src/utils/formatCurrency.ts:6-13) is not modelled. It wraps `Intl.NumberFormat`, whose locale rules are not visible here. The round trip `parseCurrency(formatCurrency(x))` depends on those rules and on float rounding, so it is left out too.
- Numbers are exact reals. IEEE-754 rounding in `parseFloat` and in stored prices is not modelled. Neither are NaN and Infinity prices, which `JSON.stringify` would write as `null`; such an entry would fail the shape test on the next read.
- The text syntax of JSON is not modelled. A stored text is either the serialization of a `JValue` or text `JSON.parse` rejects, and stringify followed by parse is the identity.
- Exceptions are not modelled. A failing probe becomes the `available` flag, and a failing `setItem` or `removeItem` becomes the `writeOk` or `removeOk` parameter. A probe that fails for a full quota counts as unavailable storage.
- A `getItem` that throws after a successful probe (storage.ts:79, caught at :104-106) is not represented: reading the key never fails in the model. In the source, such a failure inside `saveCalculation` makes `getHistory` return `[]`, and the write at :63 then replaces the stored history with the new entry alone. Stored text that `JSON.parse` rejects is modelled, as `Unparsable`; it reads as `[]`, with the same effect on the next save.
- The `console.warn` and `console.error` logging has no observable state, and is left out.
- `Date.now()` becomes parameters. Two saves in the same millisecond get the same id. The source does not prevent this and neither does the model: `NewEntryIdsDistinct` covers only distinct readings.
- Digits.NatToDigits: always writes plain digits. `Number.prototype.toString` switches to exponent notation from 10^21, which no clock reading reaches.
- Currency.ScanDecimal: models `parseFloat` only on digits, '.' and '-', the only characters the strip lets through. Leading whitespace, '+', exponents and `Infinity` are not modelled, and on such input its result differs from `parseFloat`'s.
- Currency.ParseFloat: requires its input to hold only digits, '.' and '-', which `Strip` guarantees for its one caller; `parseFloat` on other input is not modelled, for the reason above.
- Currency.ParseCurrency: `|| 0` also turns `-0` into `0`. Reals have no negative zero, so the model does not distinguish them.
- HistoryStore.Storage.IsAvailable: the single `available` flag cannot express a probe whose `setItem` succeeds and whose `removeItem` then throws (storage.ts:23-27). The source then reports false and leaves `__localStorage_test__` stored; the model has the probe either fully succeed or change nothing. `SameOutside` leaves that key out, so no other contract depends on it.
- Concurrent writers in other tabs are not modelled. The code assumes a single writer.
