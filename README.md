# remy-bot core in Dafny

remy-bot is a WhatsApp group bot that keeps deadlines and reminds the group about them,
and keeps named "baskets" of pinned notes. This project models its core:

- the command router, which trims a chat line, looks for the command prefix and picks
  a reply from the first field (`Router`);
- the three stores:
  - `Store`, the first in-memory store;
  - `MemStore`, the in-memory store that lowercases basket names and keeps deadlines
    sorted by due time;
  - `DBStore`, the SQLite store. Its tables are `Tables.Database`, a class holding the
    `deadlines`, `baskets` and `pins` tables as maps from row id to row, with the id
    counters SQLite keeps;
- the later revision of the SQLite store's methods, split over `deadline.go`
  (`DbDeadlines`, RFC 3339 `due_at` stamps), `basket.go` (`DbBaskets`) and `pin.go`
  (`DbPins`);
- the deadline manager's periodic check (`DeadlineManager`). It deletes expired
  deadlines and announces them. Then, for each active deadline, it sends the reminder
  whose instant has passed and persists the new reminder count;
- `formatDuration` and `pluralize` (`Durations`).

The shared modules are:

- `Results`: Go's `(T, error)` and `error` returns;
- `Text`: `strings.TrimSpace`, `Fields`, `Join`, `Contains`, `ToLower`, and SQLite's
  text order;
- `Timestamps`: the `"2006-01-02 15:04"` and RFC 3339 layouts, their parsers, and
  instants;
- `Collections`: id-keyed lists, Go map ranging, and sorted insertion.

Before each statement that can fail (a statement, a scan, a commit), the caller chooses
whether it fails. It does so with a `fault: Option<string>` parameter, and a `Some`
carries that error's text. Clocks are parameters too: `now` as an instant and as the
minute-layout text. The periodic check takes two such texts, since the expiry delete and
the activity query each read the clock for themselves.

Where SQL leaves the row order open, the model uses `Enumerate`: any order, each row
once. `ORDER BY` becomes a selection loop (`OrderByText`, `OrderById`) that picks, at
each step, a row with the least key. This leaves the order of ties open, as SQLite does.

The `DBStore` methods of `basket.go`, and `AddPin` and `ListPins` of `pin.go`, issue the
same statements as their counterparts in `db_store.go`. The `DeleteDeadline` and
`UpdateReminderState` methods of `deadline.go` do too. Each such Dafny method calls its
`DbStore` counterpart and repeats its contract, so every Go file keeps its own entry
points.

## Model

| member | source | states |
|---|---|---|
| Router.CutPrefix | internal/bot/router.go:11 | Found exactly when the prefix starts the text; then the text is prefix + rest, and otherwise the text comes back unchanged |
| Router.Dispatch | internal/bot/router.go:19-29 | The reply is never empty; "d" and "p" reply with their fixed text and the other fields joined by ","; "h" gives the help text |
| Router.Handle | internal/bot/router.go:9-32 | A line without the prefix gets the empty response; the index-out-of-range panic happens exactly when only white space follows the prefix; any other reply is non-empty |
| Router.HandleIgnoresPadding | internal/bot/router.go:10 | White space around the line never changes the outcome |
| Router.HandleFound | internal/bot/router.go:17-31 | Once the prefix is found and a field follows it, the reply is the one the fields select |
| Router.HandleCommandLine | internal/bot/router.go:9-32 | The prefix followed by space-separated words gets the reply the first word picks, with the other words as its parameters |
| Text.TrimLeft | internal/bot/router.go:10 | What is removed is white space, and what is kept is a suffix starting with a non-space |
| Text.TrimRight | internal/bot/router.go:10 | What is removed is white space, and what is kept is a prefix ending with a non-space |
| Text.TrimSpaceIgnoresPadding | internal/bot/router.go:10 | White space added on either side never changes `TrimSpace` |
| Text.TrimSpaceOfTrimmed | internal/bot/router.go:10 | Text that starts and ends with a non-space is left alone |
| Text.FieldsAreWords | internal/bot/router.go:17 | Every field is a non-empty run of non-space characters |
| Text.FieldsEmptyIffAllSpace | internal/bot/router.go:17 | `Fields` finds nothing exactly when the text is all white space |
| Text.FieldsKeepAllNonSpace | internal/bot/router.go:17 | Concatenated, the fields are the input with its white space removed, so nothing else is lost or added |
| Text.FieldsOfJoin | internal/bot/router.go:17-22 | Splitting words joined by single spaces gives the words back |
| Text.ContainsInside | internal/store/db_store.go:150 | Text embedded anywhere in a longer text is found by `Contains` |
| Text.Lower | internal/store/mem_store.go:80 | Same length, each character lowercased on its own, and the result is lowercase |
| Text.LowerIdempotent | internal/store/mem_store.go:80 | Lowercasing twice is lowercasing once |
| Text.LowerKeepsLower | internal/store/mem_store.go:80 | Lowercase text is left alone |
| Text.StrLessTotal | internal/store/db_store.go:94 | The text order of `ORDER BY` relates any two different texts one way round |
| Text.StrLessTransitive | internal/store/db_store.go:94 | The text order is transitive |
| Text.StrLessAsymmetric | internal/store/db_store.go:94 | The text order never holds both ways round |
| Text.NatToStringRoundTrip | internal/job/deadline_manager.go:149 | Reading back the decimal text `%d` writes gives the number back |
| Timestamps.FormatMinuteOrder | internal/store/db_store.go:315-320 | Text order of minute-layout stamps is chronological order, to the minute, and equal text is the same minute |
| Timestamps.ParseFormatMinute | internal/store/mem_store.go:16-19 | Parsing a formatted minute stamp gives back the reading with its seconds dropped |
| Timestamps.ParseMinute | internal/store/mem_store.go:17 | Every accepted text names a valid date and time with zero seconds; like the layout's space, the separator may be a run of spaces, and the hour one or two digits |
| Timestamps.ParseFormatRfc3339 | internal/store/deadline.go:15 | Parsing an RFC 3339 stamp that was formatted gives back the same reading |
| Timestamps.FormatParseRfc3339 | internal/store/deadline.go:57 | Every text the RFC 3339 parser accepts is exactly what formatting its reading writes |
| Timestamps.FormatRfc3339Order | internal/store/deadline.go:36-39 | Text order of RFC 3339 UTC stamps is chronological order, to the second |
| Timestamps.InstantMonotonic | internal/store/mem_store.go:56-58 | Earlier readings are earlier instants |
| Timestamps.MinuteTextOrderIsTimeOrder | internal/store/mem_store.go:56-58 | For the stamps `FormatMinute` writes, text order agrees with the order of `Deadline.Time` |
| Timestamps.OneDigitHourSortsLate | internal/store/db_store.go:90-94 | "2024-01-02 5:04" parses to a time before that of "2024-01-02 15:04", yet sorts after it as text |
| Collections.Enumerate | internal/store/mem_store.go:98-100 | Ranging over a map's keys visits every key exactly once |
| Collections.Drop | internal/store/mem_store.go:67-77 | Removing an id keeps exactly the entries with other ids, and never lengthens the list |
| Collections.DropAt | internal/store/mem_store.go:72 | With distinct ids, cutting out position i is dropping the id of entry i |
| Collections.DropAppended | internal/store/store.go:52-62 | An appended entry with a fresh id is dropped again exactly |
| Collections.DropCount | internal/store/mem_store.go:67-77 | Removing an id keeps every other entry as often as before |
| Collections.DropInserted | internal/store/mem_store.go:54-58 | Removing a fresh entry from any permutation that added it gives a permutation of the old list |
| Collections.PermutationDistinct | internal/store/mem_store.go:56-58 | Re-sorting keeps ids distinct |
| Collections.FindId | internal/store/mem_store.go:68-74 | The search loop finds the first position carrying the id, or reports that none does |
| Collections.InsertSorted | internal/store/mem_store.go:54-58 | Appending and re-sorting gives a sorted permutation of the old entries and the new one |
| Store.DeleteDeadlineUndoesAddDeadline | internal/store/store.go:36-62 | Deleting a deadline just added gives the old list back |
| Store.DeleteKeepsDeadlinesValid | internal/store/store.go:52-62 | Cutting out a deadline drops exactly its id and keeps ids positive, bounded and increasing |
| Store.Store.constructor | internal/store/store.go:28-34 | Empty store, first deadline id 1 |
| Store.Store.AddDeadline | internal/store/store.go:36-46 | The new deadline has the next id, which is above every stored id and is then advanced; it is appended; baskets untouched |
| Store.Store.ListDeadlines | internal/store/store.go:48-50 | The list in insertion order, ids increasing |
| Store.Store.DeleteDeadline | internal/store/store.go:52-62 | Succeeds exactly when some deadline has the id and then removes exactly it; otherwise "deadline does not exist" and nothing changes |
| Store.Store.CreateBasket | internal/store/store.go:64-78 | Succeeds exactly when the name is new, then adds an empty basket under that exact name; otherwise "basket already exists" |
| Store.Store.ListBaskets | internal/store/store.go:80-88 | Every basket name once, in map order |
| Store.Store.AddPin | internal/store/store.go:90-105 | Succeeds exactly when the basket exists; the pin takes the basket's next pin id and is appended; otherwise "basket does not exist" |
| Store.Store.ListPins | internal/store/store.go:107-115 | The basket's pins in insertion order, ids increasing, or "basket does not exist" |
| MemStore.DeletePinUndoesAddPin | internal/store/mem_store.go:116-162 | Deleting a pin just added gives the basket's old pins back, and the basket stays valid |
| MemStore.DeletePinKeepsBasketValid | internal/store/mem_store.go:153-159 | Cutting out a pin drops exactly its id and leaves the basket valid |
| MemStore.DeleteDeadlineUndoesAddDeadline | internal/store/mem_store.go:46-77 | After an add (any sorted permutation), deleting the new deadline gives a permutation of the old list |
| MemStore.MemStore.constructor | internal/store/mem_store.go:38-44 | Empty store, first deadline id 1 |
| MemStore.MemStore.AddDeadline | internal/store/mem_store.go:46-61 | Never fails; the new deadline has the next id, above every stored id; the list is a permutation of the old one plus it, sorted by due time |
| MemStore.MemStore.ListDeadlines | internal/store/mem_store.go:63-65 | Never fails; the stored list, sorted by due time with distinct ids |
| MemStore.MemStore.DeleteDeadline | internal/store/mem_store.go:67-77 | Succeeds exactly when some deadline has the id and then removes exactly it, keeping the order; otherwise "deadline does not exist" |
| MemStore.MemStore.AddBasket | internal/store/mem_store.go:79-93 | Succeeds exactly when the lowercased name is new, then stores an empty basket under it; otherwise "basket already exists" |
| MemStore.MemStore.ListBaskets | internal/store/mem_store.go:95-103 | Never fails; every basket name once, in map order |
| MemStore.MemStore.DeleteBasket | internal/store/mem_store.go:105-114 | Succeeds exactly when the lowercased name is stored; afterwards it is not; otherwise "basket does not exist" |
| MemStore.MemStore.AddPin | internal/store/mem_store.go:116-132 | Succeeds exactly when the lowercased basket exists; the pin takes its next pin id and is appended |
| MemStore.MemStore.ListPins | internal/store/mem_store.go:134-143 | The pins of the lowercased basket in insertion order, or "basket does not exist" |
| MemStore.MemStore.DeletePin | internal/store/mem_store.go:145-162 | "basket does not exist" for a missing basket; otherwise succeeds exactly when a pin has the id and removes exactly it, or "pin does not exist" |
| Tables.ExpiredActiveDisjoint | internal/store/db_store.go:317-371 | No row is both expired and active, and a row due at "now" itself is neither |
| Tables.ExpiredSplit | internal/store/db_store.go:317-324 | The expired rows and the survivors of the delete partition the table |
| Tables.MinuteTurnSkips | internal/store/db_store.go:315-371 | With the delete's and the query's clocks read apart, a row due between the two readings is neither deleted nor active |
| Tables.IdOfNameUnique | internal/store/db_store.go:29 | With UNIQUE names, that id is the only one |
| Tables.OrderByText | internal/store/db_store.go:92-94 | `ORDER BY` a text column: every row once, in ascending text order |
| Tables.OrderById | internal/store/db_store.go:246 | `ORDER BY id`: every id once, strictly ascending |
| Tables.Database.constructor | internal/store/db_store.go:18-39 | Freshly created tables are empty and every counter starts at 1 |
| Tables.Database.InsertDeadline | internal/store/db_store.go:66-69 | The new row takes the next id, which was free, with no reminders; nothing else changes |
| Tables.Database.DeleteDeadline | internal/store/db_store.go:122-126 | One row affected exactly when the id is present, and exactly that row goes |
| Tables.Database.UpdateReminderCount | internal/store/db_store.go:399-404 | One row affected exactly when the id is present; only that row's count changes |
| Tables.Database.DeleteExpired | internal/store/db_store.go:322-324 | The table keeps exactly the unexpired rows |
| Tables.Database.InsertBasket | internal/store/db_store.go:26-30 | The UNIQUE error happens exactly when the name is taken; otherwise the name is stored under the next id |
| Tables.Database.SelectBasketId | internal/store/db_store.go:212-219 | The id holding that exact name, or no row exactly when no basket has it |
| Tables.Database.DeleteBasket | internal/store/db_store.go:190-193 | One row affected exactly when the name is stored; that basket and, by the cascade, its pins go |
| Tables.Database.InsertPin | internal/store/db_store.go:32-39 | The foreign-key error happens exactly when the basket does not exist; otherwise the pin is stored under the next id |
| Tables.Database.DeletePinOf | internal/store/db_store.go:284-287 | Removes the pin only if it has that id and belongs to that basket, reporting one row exactly then |
| Tables.Database.DeletePin | internal/store/pin.go:82-85 | Removes the pin with that id from any basket, reporting one row exactly when it existed |
| DbStore.ScanDeadlines | internal/store/db_store.go:104-112 | The scan loop reads, position by position, the record of each row it is given |
| DbStore.ScannedLists | internal/store/db_store.go:90-119 | Reading every row of an enumeration lists each row of the table exactly once |
| DbStore.NewDbStore | internal/store/db_store.go:47-63 | An open error comes back as the error; otherwise a fresh database with empty tables, every id counter at 1 |
| DbStore.AddDeadline | internal/store/db_store.go:65-88 | On success the record has the new id, which was free, the table gains exactly that row with count 0, and the deadline counter advances so the id is never reused; a failure changes nothing; the other counters stay |
| DbStore.ListDeadlines | internal/store/db_store.go:90-119 | Every row once, ascending by `datetime` text |
| DbStore.DeleteDeadline | internal/store/db_store.go:121-141 | Succeeds exactly when the id is present; afterwards the id is gone; otherwise "deadline does not exist"; no id counter moves |
| DbStore.UniqueErrorIsViolation | internal/store/db_store.go:150 | The engine's duplicate-name error contains the text `AddBasket` looks for |
| DbStore.AddBasket | internal/store/db_store.go:143-157 | Succeeds exactly when the lowercased name is new; a duplicate is "basket already exists"; afterwards the lowercased name is stored; the basket counter advances exactly on success; stored names stay lowercase; the other counters stay |
| DbStore.ListBaskets | internal/store/db_store.go:159-187 | Every stored name exactly once, in ascending text order |
| DbStore.DeleteBasket | internal/store/db_store.go:189-209 | Succeeds exactly when the lowercased name is stored; that basket and its pins go; otherwise "basket does not exist"; no id counter moves |
| DbStore.AddPin | internal/store/db_store.go:211-242 | "basket does not exist" when the lowercased name is missing; otherwise the pin is stored under the next id in that basket and the pin counter advances; the other counters stay |
| DbStore.ListPins | internal/store/db_store.go:244-280 | Looks the name up verbatim; exactly that basket's pins, ascending by id |
| DbStore.DeletePin | internal/store/db_store.go:282-312 | Succeeds exactly when the pin exists in the lowercased basket; otherwise "basket does not exist" or "pin does not exist"; no id counter moves |
| DbStore.DeleteExpiredDeadlines | internal/store/db_store.go:314-360 | All or nothing: on success it reports exactly the expired rows and deletes exactly them; any failure leaves the table as it was; no id counter moves |
| DbStore.GetAllActiveDeadlines | internal/store/db_store.go:362-396 | Exactly the rows due after now with fewer than 5 reminders, ascending by `datetime` |
| DbStore.UpdateReminderState | internal/store/db_store.go:398-419 | Succeeds exactly when the id is present and then changes only that count; otherwise "deadline not found for update"; no id counter moves |
| DbDeadlines.RowOf | internal/store/deadline.go:9-16 | The row stores the title, no reminders, and a stamp that parses back to the due time |
| DbDeadlines.Decode | internal/store/deadline.go:49-63 | A row decodes exactly when its stamp parses; then its stamp formats back to the stored text |
| DbDeadlines.ListedInTimeOrder | internal/store/deadline.go:36-39 | Ordering by the stamp text lists the deadlines chronologically |
| DbDeadlines.AddedIsListed | internal/store/deadline.go:9-70 | A deadline added and listed comes back once, with its id, its title, no reminders, and its due time truncated to the second |
| DbDeadlines.ScanStops | internal/store/deadline.go:57-60 | The first row that fails to parse ends the scan with its error |
| DbDeadlines.ScanOk | internal/store/deadline.go:49-63 | A successful scan holds, for each row in turn, what it decodes to |
| DbDeadlines.ScanErr | internal/store/deadline.go:57-60 | A failed scan fails with the parse error of a row that does not decode |
| DbDeadlines.ScanListsOk | internal/store/deadline.go:35-70 | A successful scan of all rows in stamp order means every stamp parses, and it lists the table |
| DbDeadlines.ScanListsErr | internal/store/deadline.go:35-70 | A failed scan of all rows names a row whose stamp does not parse |
| DbDeadlines.AddDeadline | internal/store/deadline.go:9-33 | On success the record has the new id and the due time as given, the table gains exactly the RFC 3339 row, and the deadline counter advances; the other counters stay |
| DbDeadlines.ListDeadlines | internal/store/deadline.go:35-70 | Succeeds exactly when every stamp parses, and then lists every row once in time order; otherwise fails with a bad row's parse error |
| DbDeadlines.DeleteDeadline | internal/store/deadline.go:72-92 | Succeeds exactly when the id is present; otherwise "deadline does not exist"; no id counter moves |
| DbDeadlines.UpdateReminderState | internal/store/deadline.go:94-115 | Succeeds exactly when the id is present and then changes only that count; no id counter moves |
| DbBaskets.AddBasket | internal/store/basket.go:9-23 | Succeeds exactly when the lowercased name is new; afterwards the lowercased name is stored; the basket counter advances exactly on success; stored names stay lowercase; the other counters stay |
| DbBaskets.ListBaskets | internal/store/basket.go:25-53 | Every stored name exactly once, ascending |
| DbBaskets.DeleteBasket | internal/store/basket.go:55-75 | Succeeds exactly when the lowercased name is stored, so any spelling with the same lowercase form deletes the basket; its pins go too; no id counter moves |
| DbPins.AddPin | internal/store/pin.go:10-42 | The pin is stored in the basket the lowercased name finds, and the pin counter advances, or "basket does not exist"; the other counters stay |
| DbPins.ListPins | internal/store/pin.go:43-79 | Looks the name up verbatim; the basket's pins ascending by id |
| DbPins.VerbatimLookupMissesMixedCase | internal/store/pin.go:18-48 | While stored names are lowercase, a name with an upper-case letter is never a stored name, though its lowercase form may be: `AddPin` finds that basket and `ListPins` does not |
| DbPins.DeletePin | internal/store/pin.go:81-101 | Succeeds exactly when a pin has the id, whatever its basket; that pin goes; otherwise "pin does not exist"; no id counter moves |
| Durations.RoundToMinute | internal/job/deadline_manager.go:130-132 | A whole number of minutes, within half a minute of the duration, with halves rounded up |
| Durations.RoundedMinutesClosedForm | internal/job/deadline_manager.go:130-132 | The rounded minutes are (d + 30s) / 1 min |
| Durations.ReadUnitOfName | internal/job/deadline_manager.go:118-123 | A unit word with the suffix `pluralize` gives reads back as that unit for that count: the suffix is "s" exactly where a reader expects a plural |
| Durations.ReadPartOfPart | internal/job/deadline_manager.go:147-161 | Each "N unit" part `formatDuration` appends reads back as its count and unit |
| Durations.PartsAreEntries | internal/job/deadline_manager.go:134-163 | The parts are the non-zero days, hours and minutes, in that order, and add back up to the total |
| Durations.FormatDurationNow | internal/job/deadline_manager.go:126-128 | "now" exactly for non-positive durations |
| Durations.FormatDurationShort | internal/job/deadline_manager.go:155-167 | Under half a minute formats as the empty text; "less than a minute" is never returned |
| Durations.FormatDurationStartsWithDigit | internal/job/deadline_manager.go:145-169 | A positive number of rounded minutes is written starting with a digit |
| Durations.ReadFormatDuration | internal/job/deadline_manager.go:125-170 | Reading the text back gives the rounded number of minutes: nothing is lost |
| Durations.FormatWholeMinutes | internal/job/deadline_manager.go:155-163 | 1 to 59 whole minutes read "N minute" or "N minutes" |
| DeadlineManager.InstantsIncrease | internal/job/deadline_manager.go:19-25 | Reminder instants grow with the index, since the intervals shrink |
| DeadlineManager.FirstDueIsCount | internal/job/deadline_manager.go:90-113 | The loop over the intervals only ever selects index `count` itself, or nothing |
| DeadlineManager.SelectReminder | internal/job/deadline_manager.go:90-113 | The inner loop with its `break` selects what `Reminder` says |
| DeadlineManager.PassedFrom | internal/job/deadline_manager.go:93 | The count of passed reminder instants stays inside the schedule |
| DeadlineManager.PassedPrefix | internal/job/deadline_manager.go:93 | The passed instants are exactly a prefix of the schedule |
| DeadlineManager.CatchUp | internal/job/deadline_manager.go:86-115 | Stale reminders are caught up one per tick until the count covers the passed prefix, and nothing fires beyond it |
| DeadlineManager.Notices | internal/job/deadline_manager.go:66-78 | One expiry notice per expired deadline, in order, with its title and date-time |
| DeadlineManager.NextCount | internal/job/deadline_manager.go:106 | A count that is persisted is one above the start index, and never above the schedule length |
| DeadlineManager.AlertsAtMostOneEach | internal/job/deadline_manager.go:86-115 | A tick sends no more alerts than there are active deadlines |
| DeadlineManager.BumpedKeys | internal/job/deadline_manager.go:108-110 | The updates never add or remove rows |
| DeadlineManager.BumpedUntouched | internal/job/deadline_manager.go:108-110 | Rows of no listed deadline keep their count |
| DeadlineManager.CountsStayBounded | internal/job/deadline_manager.go:106-110 | No persisted count ever goes above the schedule length |
| DeadlineManager.TickRaisesByOne | internal/job/deadline_manager.go:86-115 | A tick raises a deadline's count by exactly one when its reminder fires and the update does not fail, and otherwise leaves it unchanged |
| DeadlineManager.ActiveCountsAfterTick | internal/job/deadline_manager.go:86-115 | Each deadline the activity query lists holds its stored count, and after the tick that count is one higher when its reminder fires and the update succeeds, unchanged otherwise, and within the schedule |
| DeadlineManager.NotifyExpired | internal/job/deadline_manager.go:72-78 | The notices sent are exactly those for the expired deadlines |
| DeadlineManager.SendReminders | internal/job/deadline_manager.go:86-115 | The alerts sent and the new table are the ones the schedule calls for; baskets and pins untouched; no id counter moves |
| DeadlineManager.RunChecks | internal/job/deadline_manager.go:65-116 | A tick notifies exactly the deleted expired deadlines by the delete's clock (none if the delete failed), then alerts and bumps exactly the active ones of the cleaned table by the query's clock; no id counter moves |

## Left out

- Sending WhatsApp messages (`sendGroupMessage`), the ticker loop `Start`, `main` and the configuration are I/O. The model returns the messages a tick would send, in order, and a failed send is not modelled.
- `PRAGMA journal_mode = WAL` has no observable effect on the tables. Reopening an existing database file is not modelled: `NewDbStore` creates empty tables.
- The errors of `LastInsertId`, `RowsAffected`, `rows.Scan`, `rows.Err` and `Close` are not modelled separately. Each failing call is folded into the one fault parameter of its statement, where the Go code returns that error.
- Log output (`log.Printf`) is not modelled. A failure that is only logged leaves the rest of the tick to go on.
- Time zones are left out: every clock reading is taken in UTC. `DbDeadlines.AddDeadline` takes the due time already in UTC, so the model has no `dueAt.UTC()` conversion. The store methods take `now` as the minute-layout text, where the Go code reads `time.Now()`.
- `Timestamps.ParseRfc3339` accepts only the `YYYY-MM-DDTHH:MM:SSZ` text that `FormatRfc3339` writes. Go's parser also accepts fractional seconds and numeric offsets. Rows with such stamps are rejected by the model, though Go would accept them.
- `DbDeadlines.ParseFailure` models only the start of Go's parse-error text.
- `Text.Lower` lowercases the ASCII letters only: `strings.ToLower`'s Unicode case mapping beyond ASCII is not modelled.
- The expiry notice carries the stored date-time text, not `d.Time().Format(store.DisplayFormat)`, because that layout constant is not part of this model.
- `Timestamps.MinuteTextOrderIsTimeOrder`: text order is time order only for the stamps `FormatMinute` writes. The SQLite store compares and sorts the stored `datetime` text (`datetime < ?`, `datetime > ?`, `ORDER BY datetime`), and the model does the same, so a stored text the parser accepts with a one-digit hour or several spaces compares out of time order, as in the Go code (`Timestamps.OneDigitHourSortsLate`).
- `DbDeadlines.AddDeadline`: due times are limited to the years 0 to 9999. Go accepts any `time.Time` here, but it writes a year outside that range in a form its RFC 3339 parser rejects, so every later `ListDeadlines` would fail. The model's due-time type `UtcTime` admits only four-digit years, so that failure is not reached.
- `MemStore.MemStore.AddDeadline` and `MemStore.MemStore.ListDeadlines` promise only a sorted order, as `sort.Slice` does; the order `sort.Slice` gives equal due times is left open. In the same way, SQL `ORDER BY datetime` and `ORDER BY name` promise only ascending order, and rows with equal keys may come in any order.
- Slices and basket pointers are modelled as values, so the aliasing between a returned `[]Pin` and the stored basket is not captured.
- `db_store.go` reads and writes a `datetime` column and `deadline.go` a `due_at` column. Both are modelled as the one text field `due` of a deadline row.
- `Durations.RoundToMinute` does not model the saturation of `Duration.Round` near the 64-bit limit; durations are unbounded integers. `Minutes()` is a float in Go, and the model takes its integer part directly.
- `Timestamps.MinuteTime` maps an unparsable text to one fixed instant standing for Go's zero time.
- The cases in `format_duration_test.go` are not modelled. Many of them expect texts `formatDuration` does not write, such as "1 hour 0 minutes" without a comma, or "less than a minute" for 1 second. The model follows the code: under half a minute gives the empty text, and the "less than a minute" branch cannot be reached, as `Durations.FormatDurationShort` shows.
