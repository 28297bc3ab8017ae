# Per-day todo and gratitude store — Dafny model

`src/main.js` keeps one record per calendar day in the browser's
`localStorage`. The record holds a todo list, in priority order, and three
gratitude slots. Each record sits under the key `todo-` followed by the
day's key. A handler runs when the user picks a date, adds a todo, types a
gratitude, clicks a todo, deletes one or drops one after a drag. Picking a
date changes the selected day and reloads its record, changing none. Each
handler that edits data loads the selected day's record and then changes
it. In most cases it saves the record back.

The model has seven modules:

- `Options` (`options.dfy`): the optional value used for lookups that can
  miss.
- `JsStrings` (`js_strings.dfy`): the JavaScript string built-ins the code
  relies on. These are `String(n)` for integers below 10^21 in magnitude
  (every value a `Date` getter returns), `padStart(2, '0')` and
  `trim()` with the ECMAScript whitespace set. It also defines `LexLess`,
  plain string order, used to state when keys sort by date; the code itself
  never compares keys by order, only by `===`.
- `DateKeys` (`date_keys.dfy`): `getDateKey` and `formatDate`. A date is
  modelled by what its getters return, or as an invalid date whose getters
  give `NaN`. A parser for keys serves as the reference that proves the
  key identifies the day.
- `Records` (`records.dfy`): the todo and day-record values. It also holds
  the list operations the handlers apply: `find` by id, `filter` by id,
  `push`, the completed toggle and the gratitude slot write.
- `Reorder` (`reorder.dfy`): the data half of the drop handler. It rebuilds
  the todo list from the ids of the rendered items, in their order after
  the drag.
- `Store` (`store.dfy`): `localStorage` as a map from keys to records, with
  `getStoredData` and `saveData`.
- `App` (`app.dfy`): the class `TodoApp`. Its fields are the store and
  `currentDate`, and its methods are the handlers. Each handler states the
  whole new store, which is always one save, or none, of a record built
  from the loaded one.

The JSON encoding is taken to round-trip exactly, so the store holds the
records themselves. `JSON.parse` returns a fresh object on every load. An
in-place change of the loaded record therefore behaves the same as building
a new record value, and that is how the handlers are modelled.

The year in the key is not padded: `String(date.getFullYear())`. A key
matches `\d{4}-\d{2}-\d{2}` and sorts chronologically as a plain string
only when the year has four digits (`DateKeys.DateKeyFourDigitYear`,
`DateKeys.DateKeyOrder`). The function's own comment claims `YYYY-MM-DD`
for every date. The model follows the code: the year 999 gives the key
`999-12-31`, which sorts after `1000-01-01` (`DateKeys.ShortYearKey`,
`DateKeys.ShortYearSortsLate`). An invalid date, as `new Date("")` gives
when the date picker is cleared, gets the key `NaN-NaN-NaN`
(`DateKeys.InvalidDateKey`).

## Model

| member | source | states |
|---|---|---|
| JsStrings.NatToString | src/main.js:16-17 | `String(n)` of a non-negative number is at least one character long, starts with a digit, and is one character long exactly when `n < 10` |
| JsStrings.NatToStringDigits | src/main.js:16-17 | `String(n)` consists of decimal digits only, and it has no leading zero when it is longer than one digit |
| JsStrings.IntToString | src/main.js:15 | `String(i)`, for integers below 10^21 in magnitude, is non-empty, starts with `-` exactly when `i` is negative, and otherwise starts with a digit |
| JsStrings.ParseNatToString | src/main.js:16-17 | reading the digits of `String(n)` gives `n` back |
| JsStrings.ParseIntToString | src/main.js:15 | `String` is injective on integers: reading its output back gives the number |
| JsStrings.ParseNegative | src/main.js:15 | a minus sign before the digits of `n` reads back as `-n` |
| JsStrings.PadStart2 | src/main.js:16-17 | `padStart(2, '0')` keeps a string of length two or more; a shorter one becomes length 2, ends with the original and has '0's in front |
| JsStrings.DigitsLexOrder | src/main.js:16-17 | for digit strings of equal length, string order is numeric order, in both directions |
| JsStrings.TrimStart | src/main.js:121 | the result is a suffix, what was dropped is whitespace, and the result does not start with whitespace |
| JsStrings.TrimEnd | src/main.js:121 | the result is a prefix, what was dropped is whitespace, and the result does not end with whitespace |
| JsStrings.Trim | src/main.js:121 | `trim()` never lengthens the text, and what it keeps neither starts nor ends with whitespace |
| JsStrings.TrimInfix | src/main.js:121 | what `trim()` keeps is an infix of the text with only whitespace on either side |
| JsStrings.TrimEmptyIff | src/main.js:121-122 | the trimmed text is empty exactly when the input is all whitespace, which is when `addTodo` does nothing |
| JsStrings.TrimIdempotent | src/main.js:121 | trimming twice is trimming once |
| DateKeys.PadStartTwoDigits | src/main.js:16-17 | for a number below 100, `String(n).padStart(2, '0')` is exactly its tens digit and its units digit |
| DateKeys.DateKey | src/main.js:14-19 | the key is `String(getFullYear())`, a dash, `getMonth()+1` padded to two digits, a dash, and `getDate()` padded to two digits; exactly the invalid date gets `NaN-NaN-NaN`; DateKeyShape, DateKeyRoundTrip and SameDayIffSameKey state its properties |
| DateKeys.DateKeyShape | src/main.js:14-19 | the key of a valid date is the unpadded year, a dash, the 1-based month in two digits, a dash, and the day of the month in two digits |
| DateKeys.DateKeyFourDigitYear | src/main.js:14-19 | with a year from 1000 to 9999 the key matches `\d{4}-\d{2}-\d{2}` |
| DateKeys.FourDigits | src/main.js:15 | a year from 1000 to 9999 is spelt with four characters |
| DateKeys.DashedDigits | src/main.js:18 | four digits, two digits and two digits, joined by dashes, match `\d{4}-\d{2}-\d{2}` |
| DateKeys.DateKeyRoundTrip | src/main.js:14-19 | decoding a valid date's key gives back its year, its 1-based month and its day |
| DateKeys.ParseTwoDigits | src/main.js:16-17 | two digits read back as the number they spell |
| DateKeys.ParseDashed | src/main.js:18 | decoding `y-MM-DD` reads the year part with `ParseInt` and the two fields as digits |
| DateKeys.InvalidDateKey | src/main.js:14-19 | an invalid date's key is `NaN-NaN-NaN`, which decodes to no day |
| DateKeys.SameDayIffSameKey | src/main.js:14-19 | two dates get equal keys exactly when they are the same day (same year, month and day of the month, or both invalid) |
| DateKeys.DateKeyOrder | src/main.js:14-19 | with four-digit years, comparing keys as plain strings orders days chronologically, in both directions |
| DateKeys.YearOrder | src/main.js:15 | four-digit years compare as strings the way they compare as numbers, and equal spellings mean equal years |
| DateKeys.TwoDigitsOrder | src/main.js:16-17 | two-digit fields compare as strings the way they compare as numbers, and equal spellings mean equal numbers |
| DateKeys.DashedOrder | src/main.js:18 | dashed keys with year parts of one length and month parts of one length compare by year, then month, then day |
| DateKeys.ShortYearKey | src/main.js:15 | the year 999 is not padded: its key `999-12-31` does not match `\d{4}-\d{2}-\d{2}` |
| DateKeys.ShortYearSortsLate | src/main.js:14-19 | the key of 31 December 999 sorts after the key `1000-01-01` of the next day |
| DateKeys.WeekdayIsTableEntry | src/main.js:8-9 | a valid date's weekday name is one of the seven table entries and is one character long |
| DateKeys.FormatDate | src/main.js:4-11 | the display is `{year}년 {MM}월 {DD}일 ({weekday})` with the weekday from the Sunday-first table; exactly the invalid date displays as `NaN년 NaN월 NaN일 (undefined)`; FormatDateShape and FormatDateInjective state its properties |
| DateKeys.FormatDateShape | src/main.js:4-11 | a valid date displays as `{year}년 {MM}월 {DD}일 ({weekday})`, with the month and day in two digits and the weekday from the table; the display is thirteen characters longer than the year |
| DateKeys.FormatDateInjective | src/main.js:4-11 | two valid dates display alike exactly when they agree on year, month, day of the month and day of the week |
| DateKeys.WeekdaysDistinct | src/main.js:8 | the seven weekday names are pairwise different |
| Records.Ids | src/main.js:164-167 | the rendered `data-id`s have the list's length, and the `k`-th is the `k`-th todo's id |
| Records.IndexOfId | src/main.js:185 | a position found carries the id and no earlier todo has it; no position means no todo has the id |
| Records.IndexOfIdAt | src/main.js:185 | a position carrying the id, with no earlier todo carrying it, is the one found |
| Records.FindById | src/main.js:185 | `find(t => t.id === id)` returns a todo with that id, the first one in list order, and returns nothing exactly when no todo carries the id |
| Records.FindByIdWithout | src/main.js:262 | taking out a todo with another id does not change what a search finds |
| Records.IndexOfIdWithout | src/main.js:262 | taking out a todo with another id keeps a search's hit at its place before the removed position and one place earlier after it, and keeps a miss a miss |
| Records.RemoveId | src/main.js:201 | `filter(t => t.id !== id)` keeps exactly the todos with another id and never grows the list |
| Records.RemoveIdAppend | src/main.js:201 | the filter works piecewise on a split list, so it keeps the relative order |
| Records.RemoveIdAbsent | src/main.js:201 | deleting an id no todo has leaves the list as it is |
| Records.RemoveIdLength | src/main.js:201 | the filter drops exactly as many todos as carry the id |
| Records.RemoveIdIdempotent | src/main.js:201 | deleting the same id twice is deleting it once |
| Records.IndexOfIdAppend | src/main.js:125 | appending todos does not change which earlier todo a search finds |
| Records.WithTodo | src/main.js:125 | `push` puts `{id, text, completed: false}` last, keeps every todo in its place and keeps the gratitudes and their count |
| Records.WithTodoKeepsFinds | src/main.js:125 | every todo already in the list is still found, untouched, after a push |
| Records.WithTodoFound | src/main.js:125 | with a fresh id, the pushed todo is what a search for the id finds |
| Records.AddThenDelete | src/main.js:201 | deleting a todo just pushed with a fresh id gives back the old list |
| Records.ToggleFirst | src/main.js:185-187 | only the first todo with the id has its flag flipped; ids, texts and every other todo stay; with no match nothing changes |
| Records.ToggleFirstIds | src/main.js:187 | toggling keeps the id list |
| Records.ToggleTwice | src/main.js:185-187 | toggling the same id twice restores the list |
| Records.ToggleFirstFinds | src/main.js:185-187 | after a toggle, a search for the id finds the same position as before |
| Records.WithGratitude | src/main.js:149 | writing to slot `index` sets that slot and leaves the other slots, the slot count and the todos unchanged |
| Records.GratitudeLastWins | src/main.js:149 | a later write to a slot overwrites an earlier one |
| Records.GratitudeSameValue | src/main.js:149 | writing a slot's own value back changes nothing |
| Records.GratitudeCommute | src/main.js:149 | writes to different slots commute |
| Reorder.Reconcile | src/main.js:260-263 | the rebuilt list is never longer than the observed id order |
| Reorder.KnownIds | src/main.js:260-263 | the reference list of observed ids that some todo has; each one is observed and belongs to a todo |
| Reorder.ReconcileIds | src/main.js:260-263 | the rebuilt list's ids are exactly the known observed ids, in observed order |
| Reorder.ReconcileFirst | src/main.js:262 | every element of the rebuilt list is the first todo carrying its id |
| Reorder.ReconcileMembers | src/main.js:260-263 | every element of the rebuilt list is one of the stored todos |
| Reorder.ReconcileDropsUnobserved | src/main.js:257-266 | a todo whose id is not among the rendered items is not kept |
| Reorder.ReconcileWithout | src/main.js:262 | ids other than those of a given todo rebuild the same list whether or not that todo is present |
| Reorder.ReconcileRenderedOrder | src/main.js:257-266 | with distinct ids, dropping an item back where it was rendered keeps the list as it is |
| Reorder.ReconcilePermutation | src/main.js:257-266 | with distinct ids, when the observed order rearranges the todos' ids, the rebuilt list rearranges the todos: none is lost or duplicated |
| Reorder.ReconcileDuplicateId | src/main.js:262 | with two todos under one id, the rebuilt list holds the first twice and loses the second |
| Reorder.ReconcileMoveExample | src/main.js:257-266 | dragging the third of three todos to the top gives that todo first, then the other two in their order |
| Reorder.ReconcileUnknownIdExample | src/main.js:263 | an observed id that no todo has is skipped |
| Store.StorageKey | src/main.js:23 | the storage key is `todo-` followed by the day's key |
| Store.StorageKeyInjective | src/main.js:23 | different days never share a storage key, and equal keys mean the same day |
| Store.GetStoredData | src/main.js:22-25 | a load returns a stored record or the empty record, never anything else, and it keeps the three-slot shape |
| Store.Saved | src/main.js:28-30 | a save adds the day's key to the store's keys and no other key |
| Store.LoadMiss | src/main.js:24 | a load that misses gives no todos and three empty gratitudes |
| Store.LoadAfterSave | src/main.js:22-30 | loading a day just saved gives back the saved record |
| Store.SaveKeepsOtherDays | src/main.js:22-30 | saving one day leaves what every other day loads unchanged |
| Store.SaveIdempotent | src/main.js:28-30 | saving the same record twice is saving it once |
| Store.SaveLastWins | src/main.js:28-30 | a later save of a day overwrites an earlier one |
| Store.SaveLoaded | src/main.js:22-30 | saving what a day already holds changes nothing; on a miss it persists the empty record |
| Store.SaveWellFormed | src/main.js:24-30 | saving a three-slot record keeps every record in the store three-slot |
| App.TodoApp.constructor | src/main.js:33 | the page starts on the given day over the persisted store |
| App.TodoApp.Save | src/main.js:28-30 | `saveData` replaces the day's record and nothing else, and keeps the store well formed |
| App.TodoApp.Init | src/main.js:37-42 | `initApp` shows the selected day's record, the empty one on a miss, and writes nothing |
| App.TodoApp.SelectDate | src/main.js:111-114 | picking a date changes the selected day, not the store, and shows the picked day's record |
| App.TodoApp.AddTodo | src/main.js:120-131 | text that trims to nothing writes nothing; otherwise the trimmed text is pushed as an open todo onto the selected day's record and saved, and on a miss the default record plus that todo is persisted |
| App.TodoApp.SetGratitude | src/main.js:145-151 | slot `index` of the selected day's record takes the value and the record is saved |
| App.TodoApp.ToggleTodo | src/main.js:179-191 | the first todo with the id has its flag flipped and the record is saved; when no todo matches, nothing is written |
| App.TodoApp.DeleteTodo | src/main.js:196-204 | every todo with the id is removed and the record is saved even without a match; on a miss the empty record is persisted |
| App.TodoApp.ReorderTodos | src/main.js:246-276 | the todos are rebuilt in the observed order and saved, and the gratitudes are kept |
| App.ToggleTwiceSession | src/main.js:179-191 | clicking the same todo twice leaves the store exactly as it was |
| App.AddThenDeleteSession | src/main.js:120-131 | adding a todo under a fresh id and deleting that id keeps the selected day, gives that day back its todos and gratitudes, and leaves the rest of the store as it was; a day that had no record now holds the empty one it loaded |

## Left out

- Rendering, and focus handling and clearing of the input box. This covers `renderApp`, `renderTodos`, the HTML templates, the listener wiring and the "(오늘)" today marker (src/main.js:45-106, 128-129, 156-176). The model's state is the store and the selected day; what the page shows is not part of it.
- Drag geometry: `getDragAfterElement` and the `dragover` moves (src/main.js:232-244, 280-293). They work on floating-point pixel offsets. The drop handler is modelled from the list of ids the rendered items carry after the drag.
- `draggedElement`, the `dragging` class and the `if (!draggedElement) return` guard (src/main.js:34, 217-228, 236, 248, 254, 272). This is UI state: the model's drop handler is the case where a drag is in progress.
- `JSON.stringify` and `JSON.parse`: records are stored as values, and the encoding is taken to round-trip. Text in `localStorage` that is not a record the application wrote is not modelled.
- App.TodoApp.SetGratitude: requires every stored record to have three slots (`Valid`). The three inputs carry `data-index` 0, 1 and 2, and every record this code writes has three slots. A write past the end of a shorter gratitude list would leave holes, which `seq<string>` cannot hold.
- The clock and time zones: `new Date()`, `Date.now()`, and the parse of the date picker's value are supplied as parameters (src/main.js:33, 47, 112, 125). `new Date("YYYY-MM-DD")` reads the value as UTC midnight, so west of UTC the local getters can give the day before; that shift is left out.
- `parseInt` on `data-id` and `data-index` (src/main.js:146, 182, 198, 261): ids and indices are taken as integers. Ids are `Date.now()` values, whose decimal text reads back as the same number.
- Strings are sequences of Unicode scalar values, not JavaScript's UTF-16 code units: a lone surrogate in todo or gratitude text cannot be represented, and lengths count scalar values rather than code units.
- Other `localStorage` keys and storage quota errors: the model's store is a map that only this code writes.
