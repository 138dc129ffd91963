# EventCounter core, modelled in Dafny

EventCounter is a React Native app for counting how often things happen. The user keeps
a collection of *events*, each with a name, colour, icon, favourite flag and a list of
*occurrences*; an occurrence is a timestamp and a comment. This project models the logic
behind the app's screens and components and proves properties of it:

- **Store** (`store.dfy`, `json.dfy`). The global store holds the whole collection.
  `setEventsData` replaces the collection and persists `JSON.stringify` of it under the key
  `eventsData`. The store is a class whose fields are the collection and a log of the
  storage writes made so far. Its invariant: the latest write holds the serialised
  current collection.
- **Event detail screen** (`modal_event.dfy`). `updateYearlyStats` groups occurrences by
  local year, sorts the years in descending order, and counts each year's months into a
  bar chart of the non-empty months. `removeEvent` deletes the first occurrence that
  matches in both timestamp and comment.
- **Add-occurrence screen** (`modal_add_event.dfy`). The mount check looks the event up
  by id; `addEvent` appends one occurrence to it.
- **Create-event screen** (`modal_create_event.dfy`). This covers the 58-colour palette
  and the emoji catalogue, which is decoded with `split('-')`, `parseInt(…, 16)` and
  `String.fromCodePoint`. It also covers the 312 skipped catalogue entries, the random
  id and the validated append of a new event.
- **Settings screen** (`modal_settings.dfy`). `isJson`, the import of clipboard text and
  the export of the stored text.
- **Horizontal grid** (`grid.dfy`). The transposition loop that lays a list out column by
  column in `numRows` rows, and the rendering of the columns.
- **Heatmap** (`heatmap.dfy`, `calendar.dfy`). The sorted distinct `yyyy-MM` month keys,
  the zero entry of every day of those months, the per-day counts keyed by the date part
  of the timestamp, their merge, and the start date.
- **`toYYYYMMDD`** (`utils.dfy`). Formats a Date or a date text with the library's two
  error messages.
- **Swipeable card** (`swipe.dfy`). The pan-responder rules: when a move is claimed, the
  clamp of the offset, and which callbacks a release, a termination and a long press
  call. The card is a class whose fields are its offset and a log of the callbacks it
  called.

String helpers such as `split`, `trim`, `padStart`, the default sort and digit parsing
live in `text.dfy`. `Option` and `Result` live in `wrappers.dfy`.

How a timestamp reads as a local date (`new Date`, `parseISO`, the viewer's time zone)
is a parameter, `LocalCalendar`, returning `None` for an Invalid Date. `JSON.parse` is a
parameter too (`JsonParse`).

Importing text that fails isJson replaces the collection with `[]`.

## Model

| member | source | states |
|---|---|---|
| MainStore.EventStore.constructor | zustand/mainStore.ts:33-34 | the store starts with an empty collection and no storage writes |
| MainStore.EventStore.SetEventsData | zustand/mainStore.ts:35-38 | the collection becomes `data`; exactly one write of `JSON.stringify(data)` under `eventsData` is appended to the log; the invariant (every write to that key, the latest one the current collection) is kept |
| MainStore.EventStore.StoredText | zustand/mainStore.ts:37 | after any write, reading the key gives the serialisation of the current collection; before any write, whatever the key held before |
| MainStore.LastWrite | zustand/mainStore.ts:37 | the index of the latest write to a key, -1 exactly when no write went to it |
| MainStore.ReplaceTwice | zustand/mainStore.ts:35-38 | of two successive replacements the second wins, and the two writes are logged in call order |
| JsonText.Stringify | zustand/mainStore.ts:37 | the serialised collection is bracketed, and it is `[]` exactly when the collection is empty |
| JsonText.StringifyReadsBack | zustand/mainStore.ts:37 | a reader of the JSON that JSON.stringify writes for records gives every collection back from its text |
| JsonText.StringifyInjective | zustand/mainStore.ts:37 | two different collections are never stored as the same text |
| Events.FindIndex | app/modalEvent.tsx:70 | findIndex: -1 exactly when no element satisfies the predicate, otherwise the first index that does |
| Events.EventIndex | app/modalEvent.tsx:70 | the first event with the id, -1 exactly when there is none |
| Events.OccurrenceIndex | app/modalEvent.tsx:74-76 | the first occurrence equal in timestamp and comment, -1 exactly when there is none |
| Events.RemoveAt | app/modalEvent.tsx:79 | splice(i, 1): one element shorter, the others in order, the multiset less exactly that element |
| Events.Filter | app/modalEvent.tsx:63 | filter keeps only elements satisfying the predicate, all taken from the input |
| Events.FilterPositions | app/modalEvent.tsx:63 | filter keeps exactly the satisfying elements, at increasing positions of the input |
| Events.CountsPartition | components/heatmap.tsx:77-80 | counts over a list of distinct keys that covers every element add up to the number of elements |
| ModalEvent.GroupByYear | app/modalEvent.tsx:43-49 | the year map and the distinct year list hold exactly the years with data, each year with its occurrences in input order; an Invalid Date is reported |
| ModalEvent.InsertDescending | app/modalEvent.tsx:52 | inserting a new year keeps the years strictly descending and adds exactly that year |
| ModalEvent.SortDescending | app/modalEvent.tsx:52 | the years strictly descending, the same set of years |
| ModalEvent.CountMonths | app/modalEvent.tsx:55-62 | twelve counters, counter m the number of occurrences in month m |
| ModalEvent.YearEntry | app/modalEvent.tsx:53-63 | a year's entry holds its occurrences and the bars of its non-empty months |
| ModalEvent.UpdateYearlyStats | app/modalEvent.tsx:41-67 | no result exactly when a timestamp is an Invalid Date; otherwise one entry per year with data, most recent first, each with exactly its year's occurrences and their bar chart |
| ModalEvent.YearlyStatsPartition | app/modalEvent.tsx:43-49 | the yearly groups together hold every occurrence exactly once |
| ModalEvent.BarDataTotal | app/modalEvent.tsx:55-63 | a year's bars add up to its number of occurrences, the empty months omitted |
| ModalEvent.BarDataMonths | app/modalEvent.tsx:55-63 | the bars are the months with a positive count, in calendar order, each with its count and label |
| ModalEvent.RemoveOccurrence | app/modalEvent.tsx:69-79 | nothing when the event or a matching occurrence is missing; otherwise only the event's first matching occurrence is removed and every other event is unchanged |
| ModalEvent.RemoveEvent | app/modalEvent.tsx:69-84 | the store changes, with one write, exactly when an occurrence was removed; otherwise collection and writes are unchanged |
| ModalAddEvent.EventTitle | app/modalAddEvent.tsx:22-31 | the name of the first event with the id, none exactly when no event has it |
| ModalAddEvent.AppendOccurrence | app/modalAddEvent.tsx:34-37 | the event with the id gets the occurrence appended, nothing else changes |
| ModalAddEvent.AddEvent | app/modalAddEvent.tsx:33-40 | the store holds the appended collection, written once |
| ModalAddEvent.AddThenRemove | app/modalAddEvent.tsx:34-37 | deleting an occurrence just added, and not there before, gives back the collection |
| ModalCreateEvent.DefaultColor | app/modalCreateEvent.tsx:49 | the palette has 58 entries and the preselected colour is its first, #1E3A8A |
| ModalCreateEvent.ParseIntHex | app/modalCreateEvent.tsx:34 | parseInt(text, 16): NaN exactly when no hex digit follows the white space, sign and 0x; otherwise the value of the longest digit run, negated after '-' |
| ModalCreateEvent.ParseHexDigits | app/modalCreateEvent.tsx:34 | a plain run of hexadecimal digits parses to its value |
| ModalCreateEvent.FromCodePoint | app/modalCreateEvent.tsx:35 | a character exactly for a scalar value, and it is that code point |
| ModalCreateEvent.MapOrThrow | app/modalCreateEvent.tsx:32-39 | Array.prototype.map with a callback that may throw: every result in order, or the first error in element order |
| ModalCreateEvent.PartChar | app/modalCreateEvent.tsx:34-35 | one part as a character exactly when it parses to a code point, otherwise the RangeError |
| ModalCreateEvent.DecodeParts | app/modalCreateEvent.tsx:33-36 | one character per part, in order, or the RangeError when some part is not a code point |
| ModalCreateEvent.GetAllAppleEmojis | app/modalCreateEvent.tsx:27-42 | an empty catalogue gives []; otherwise one emoji per record, or a throw when a record does not decode |
| ModalCreateEvent.DecodeEncode | app/modalCreateEvent.tsx:32-36 | decoding the unified code of any non-empty run of code points gives those code points back |
| ModalCreateEvent.PickerEmojis | app/modalCreateEvent.tsx:44 | the emojis from index 312 on, none for a shorter catalogue |
| ModalCreateEvent.DefaultEmoji | app/modalCreateEvent.tsx:50 | the first picker emoji, undefined for an empty picker |
| ModalCreateEvent.Substring | app/modalCreateEvent.tsx:75 | substring with both ends clamped and the smaller first |
| ModalCreateEvent.NewEventId | app/modalCreateEvent.tsx:75 | at most 20 characters, those from index 2 of the random text |
| ModalCreateEvent.CreateEvent | app/modalCreateEvent.tsx:71-89 | nothing for an empty name; otherwise the old events followed by exactly one new event with the given fields, empty comment, not a favourite, no occurrences |
| ModalCreateEvent.CreatedEventIsFound | app/modalCreateEvent.tsx:74-82 | a created event with a fresh id is found by the add screen at the end, under its name |
| ModalCreateEvent.CreateEventOnStore | app/modalCreateEvent.tsx:71-89 | an empty name alerts and changes nothing; otherwise the new collection is stored with one write |
| ModalSettings.IsJson | app/modalSettings.tsx:12-27 | false for non-text and for text blank after trim; otherwise whether the trimmed text parses |
| ModalSettings.ImportPreview | app/modalSettings.tsx:57 | the dialog shows the clipboard text when it passes isJson, else `[]` |
| ModalSettings.ImportValueAsWritten | app/modalSettings.tsx:67 | as written: `[]` when isJson fails; otherwise JSON.parse of the untrimmed text, which throws when that text does not parse |
| ModalSettings.ImportAsWrittenThrows | app/modalSettings.tsx:67 | the text U+00A0 followed by `[]` passes isJson, yet the import as written throws |
| ModalSettings.ImportValue | app/modalSettings.tsx:67 | the value parsed from the same trimmed text isJson accepted, `[]` otherwise; never throws |
| ModalSettings.ImportData | app/modalSettings.tsx:53-70 | the import as written: it throws exactly when JSON.parse rejects the untrimmed text of an accepted import, and then the collection and the storage log are unchanged; otherwise the store holds the parsed collection (`[]` for text that fails isJson) with one write |
| ModalSettings.ImportDataIntended | app/modalSettings.tsx:53-70 | the corrected import: the store holds the value parsed from the trimmed text, never throwing; one write |
| ModalSettings.ExportText | app/modalSettings.tsx:29-51 | the stored text, or `[]` when the key holds nothing |
| ModalSettings.ExportImportRoundTrip | app/modalSettings.tsx:29-70 | importing the exported text restores the collection, both as written and corrected, given a JSON.parse that reads back JSON.stringify |
| ModalSettings.ImportStringified | app/modalSettings.tsx:53-70 | the serialised form of any collection passes isJson and imports back as that collection, as written and corrected |
| ModalSettings.ReadsBackSatisfiable | app/modalSettings.tsx:67 | a JSON.parse that reads back JSON.stringify of every collection exists, so the round trip's hypothesis can hold |
| Grid.ColumnCount | components/horizontal-grid-scroll.tsx:37 | Math.ceil(length / numRows): the fewest columns of numRows slots that hold every item |
| Grid.Slot | components/horizontal-grid-scroll.tsx:44 | `data[i] \|\| null`: the item exactly when present and truthy |
| Grid.ColumnsData | components/horizontal-grid-scroll.tsx:37-46 | the transposition loop fills column c, row r with the slot of list index c * numRows + r |
| Grid.GridColumns | components/horizontal-grid-scroll.tsx:37-46 | the columns as values, the same slots |
| Grid.GridReadsBackList | components/horizontal-grid-scroll.tsx:37-46 | read column after column, the grid is the list followed by fewer than numRows nulls |
| Grid.RenderColumn | components/horizontal-grid-scroll.tsx:63-71 | every item a column renders is a non-null truthy slot of it, reported under its own list index |
| Grid.RenderGrid | components/horizontal-grid-scroll.tsx:63-71 | the whole grid renders every truthy item exactly once, in list order, under its own index |
| Grid.TruthyIndexedSpec | components/horizontal-grid-scroll.tsx:63-71 | the rendered indices are increasing, and each is that of a truthy item |
| Heatmap.EraYear | components/heatmap.tsx:38 | 'yyyy' writes the year of the era: at least 1, the year itself from year 1 on |
| Heatmap.GetMonthsWithData | components/heatmap.tsx:34-42 | throws exactly on an Invalid Date; otherwise the month keys are strictly ascending and are exactly those of the dated occurrences |
| Heatmap.MonthKeyOrder | components/heatmap.tsx:41 | for years 1 to 9999, the string sort of month keys is chronological |
| Heatmap.MonthTextParts | components/heatmap.tsx:50 | a month key splits back into its year of the era and its month number |
| Heatmap.JsFullYear | components/heatmap.tsx:51 | new Date(year, month) maps years 0 to 99 to 1900 to 1999 |
| Heatmap.FormatData | components/heatmap.tsx:49-62 | the two loops give exactly the days of every listed month, each set to 0 |
| Heatmap.PaddedDaysMember | components/heatmap.tsx:54-61 | every day from 1 to the month's length gets an entry |
| Heatmap.PaddedDaysOnly | components/heatmap.tsx:54-61 | no entry other than those days |
| Heatmap.PaddedDaysOfMonth | components/heatmap.tsx:50-60 | from year 100 on, a month's padded days are its calendar days, formatted as that month |
| Heatmap.TwoDigitYearPadding | components/heatmap.tsx:51-60 | for years 1 to 99, the padded days are those of the same month of 1900 + year |
| Heatmap.EveryDayPadded | components/heatmap.tsx:44-62 | every calendar day of the month of each occurrence from year 100 on gets an entry |
| Heatmap.CountByKey | components/heatmap.tsx:75-82 | the counting loop: a distinct key list naming exactly the keys present, each mapped to its number of elements |
| Heatmap.EventsToHeatmapData | components/heatmap.tsx:72-83 | one entry per date part `dateTime.split('T')[0]`, holding how many occurrences have it |
| Heatmap.DayCountsTotal | components/heatmap.tsx:72-83 | the per-day counts add up to the number of occurrences |
| Heatmap.MergeActivity | components/heatmap.tsx:87-89 | activity counts overwrite the zero entries; every other entry is kept |
| Heatmap.StartDate | components/heatmap.tsx:97-99 | day 01 of the first month key, none without months |
| Heatmap.StartIsEarliestMonth | components/heatmap.tsx:97-99 | for years 1 to 9999, the start month is that of some occurrence and no occurrence is earlier |
| Heatmap.BuildHeatmap | components/heatmap.tsx:44-99 | throws exactly on an Invalid Date; otherwise the days are the padded month days plus the activity days, each with its occurrence count (0 where none), starting on day 01 of the earliest month |
| Calendar.DaysInMonth | components/heatmap.tsx:51-57 | the Gregorian month lengths, 29 days in February exactly in leap years |
| Utils.ToYYYYMMDD | utils/utils.ts:41-60 | a Date is formatted, Invalid or not; a text throws "Cannot parse date from string" with the text exactly when it is an Invalid Date; any other value throws "Input must be a string or Date object" |
| Utils.InvalidDateText | utils/utils.ts:55-59 | an Invalid Date object formats as NaN-NaN-NaN |
| Utils.StringMatchesDate | utils/utils.ts:43-51 | a text and the Date it parses to give the same result |
| Utils.DateTextFields | utils/utils.ts:55-59 | from year 0 on, the fields read back: year, then month + 1 and day, each of two digits |
| Utils.FourDigitYearShape | utils/utils.ts:55-59 | for four-digit years the text matches ^\d{4}-\d{2}-\d{2}$ |
| Utils.SingleDigitsPadded | utils/utils.ts:56-57 | single-digit months and days get a leading 0 |
| Text.Split | components/heatmap.tsx:50 | split: at least one part, no part holding the separator, joined back the input |
| Text.SplitJoin | app/modalCreateEvent.tsx:33 | splitting parts joined by a separator they lack gives the parts back |
| Text.BeforeFirst | components/heatmap.tsx:78 | `split(sep)[0]`: the longest prefix without the separator |
| Text.Trim | app/modalSettings.tsx:16 | trim: a slice of the input with only white space before and after it, no white space at either end of its own, empty exactly for all-white-space text |
| Text.ZeroPad | utils/utils.ts:56-57 | String(n).padStart(width, '0'): digits only, exactly width long when n fits |
| Text.ZeroPadValue | utils/utils.ts:56-57 | the padded text reads back as n |
| Text.IntToString | utils/utils.ts:59 | String(i): decimal digits without a leading zero that read back as i, after a minus sign when i is negative |
| Text.SortStrings | components/heatmap.tsx:41 | sort() of distinct strings: strictly ascending, the same strings, the same length |
| Swipe.ClaimedMoveIsHorizontal | components/swipeable-card-event.tsx:28-34 | a move is claimed exactly inside the two wedges beyond x = ±5 between the diagonals |
| Swipe.Limited | components/swipeable-card-event.tsx:37-38 | the offset is dx clamped to [-100, 100] |
| Swipe.LimitedMonotone | components/swipeable-card-event.tsx:38 | clamping is idempotent and monotone |
| Swipe.ReleaseCalls | components/swipeable-card-event.tsx:52-82 | onSwipeEnd first; then onAdd exactly for a far enough swipe right, onDelete exactly for a far enough swipe left |
| Swipe.ReleaseAddsOrDeletes | components/swipeable-card-event.tsx:53-71 | a release never calls both onAdd and onDelete |
| Swipe.SwipeableCard.constructor | components/swipeable-card-event.tsx:20-22 | the card starts at rest, its threshold 0.3 of the window width |
| Swipe.SwipeableCard.MoveShouldSet | components/swipeable-card-event.tsx:28-34 | claims exactly under the rule and then calls onSwipeStart once |
| Swipe.SwipeableCard.Move | components/swipeable-card-event.tsx:36-40 | the offset becomes the clamped dx; no callback |
| Swipe.SwipeableCard.Terminate | components/swipeable-card-event.tsx:42-51 | back to rest; onSwipeEnd once, never onAdd or onDelete |
| Swipe.SwipeableCard.Release | components/swipeable-card-event.tsx:52-82 | back to rest; the release callbacks in order |
| Swipe.SwipeableCard.LongPress | components/swipeable-card-event.tsx:148 | onDelete once; the card does not move |

## Left out

- Rendering, layout, themes, the tab picker, navigation (`router.back`, `router.push`), alerts, haptics and the heatmap cell colours are left out. They hold no logic the model's properties depend on.
- Screen state (`setCurrentEventData`, `setYearlyStats`, `setSelectedEmoji`) is left out: it mirrors values the model already computes.
- `formatDateTimeUS` is left out: it delegates to locale formatting.
- Native I/O is left out:
  - AsyncStorage is a log of writes, plus a parameter for what the key held before the session.
  - The clipboard is the text handed to the import.
  - The asynchronous write is appended at once, in call order.
- Clocks and randomness are parameters:
  - `Math.random().toString(36)` is the random text.
  - The picked date's `toISOString()` is the timestamp text.
  - The heatmap's `new Date()` start for an empty collection is `None`.
- Date parsing and the time zone are the `LocalCalendar` parameter. Day keys are the text of the timestamp before 'T', while month keys come from the local date, and near midnight the two can name different days. Both are kept as the code has them, so activity days may fall outside the padded months.
- Aliasing is left out: `[...eventsData]` copies only the array, so `splice` and `push` also change the event object of the old collection in place. The model works on values.
- ModalSettings.ImportData: requires the parsed clipboard value to be an array of event records. The source stores any JSON value. The store is typed as a sequence of events, so such payloads cannot be represented. ModalSettings.ImportDataIntended has the same requirement.
- JsonText.Stringify and ModalSettings.ImportData: the stored text after an import is written in the fixed key order id, name, color, icon, comment, favorite, data, with exactly those keys. The source's `JSON.stringify(JSON.parse(data))` keeps the clipboard's key order and any further properties, so for such clipboard text the stored text differs.
- Grid.ColumnCount: requires numRows >= 1. With numRows 0 the source's `Math.ceil` gives Infinity and `Array.from` throws; every call site passes 2 or 3, or leaves the default 2.
- Text.SortStrings: orders by code point, while `sort()` compares UTF-16 code units. The two orders differ only for characters outside the Basic Multilingual Plane; the strings sorted are month keys of digits and '-'.
- The `console.error` logged by `getAllAppleEmojis` for an empty catalogue is left out: it is logging only, and the empty list it returns is modelled.
- Lone surrogates: Dafny characters are scalar values, so `String.fromCodePoint` of a surrogate code point is modelled as the RangeError.
- Heatmap.EveryDayPadded: stated only for years from 100 on. Heatmap.TwoDigitYearPadding covers years 1 to 99. Years before 1 are not covered.
- Heatmap.MonthKeyOrder: stated for years 1 to 9999 only. Outside that range the four-digit key stops being chronological.
- Heatmap.StartIsEarliestMonth: stated for years 1 to 9999 only, for the same reason.
- Utils.DateTextFields: stated for years from 0 on. A negative year starts with '-'.
- Swipe.SwipeableCard.Release: the spring animation is modelled by its end value, the offset at rest; easing and timing are not modelled. The same holds for Swipe.SwipeableCard.Terminate.
- The opacity interpolation of the two action icons is left out: it is floating-point animation.
- `onStartShouldSetPanResponder` and `onPanResponderTerminationRequest` are left out: both always answer true.
- The grid's `keyExtractor` keys and gap styling are left out: they affect rendering only.
- Object key order of the heatmap records is left out. The merge gives the same map whatever order the keys are visited.

## Findings

| source | as written | input that shows it | evidently intended | confidence | as-written member | corrected member |
|---|---|---|---|---|---|---|
| app/modalSettings.tsx:67 | isJson checks the trimmed text, but the import parses the untrimmed clipboard text. String.prototype.trim strips more white space than JSON allows around a value (section 2 of RFC 8259). | the clipboard text U+00A0 followed by `[]` | parse the same trimmed text that isJson accepted, so an accepted import never throws | not executed | ModalSettings.ImportAsWrittenThrows | ModalSettings.ImportValue |
