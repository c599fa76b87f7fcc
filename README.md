# Progress-map reconciliation of the curriculum tracker

The tracker shows a fixed 100-day curriculum. A signed-in user can mark each day
complete, with free-text notes. The page keeps one piece of mutable state that
matters: `progressMap`, a sparse table from day number to the saved progress
row of that day. This project models what is done to that table:

- **Load.** The rows returned by the backend become the table. Each row is stored
  under its day, so a later row with the same day replaces an earlier one. If
  the backend reports an error, the loader returns before the table is reset.
- **View.** Each curriculum entry is matched with the table entry for its day.
  The day shows as complete when the saved row's `completed` flag is set. The
  view shows that row's date, and its notes, or `""` when there are none.
- **Toggle.** The complete button branches on whether the day has a key in the
  table, not on its `completed` flag. A present day has its row deleted by id and
  its key removed. An absent day gets a new completed row, holding the textarea
  text and today's date, and the backend assigns that row an id.
- **Count.** The progress is the number of keys in the table, whatever their
  `completed` flags.

Files:
- `option.dfy` (module `Options`): an optional value, standing for a nullable field.
- `progress.dfy` (module `Progress`): the records, the table, the view and the
  toggle as pure functions, with the lemmas about them.
- `tracker.dfy` (module `Session`): the class `Tracker` whose field `progressMap`
  is updated in place by `Load` and `Toggle`. Each method is proved against the
  functions of `Progress`.

External effects are parameters. `Load` receives the selected rows and the error
flag. `Toggle` receives the clock's ISO timestamp and the id the backend gives
the inserted row, and returns the request it sends (`DeleteRow(id)` or
`InsertRow(...)`). Today's date is the part of the timestamp before the first
`T`, as `toISOString().split("T")[0]` computes it (a UTC date).

Two facts about the code are easy to miss:
- The count is the number of keys, not the number of rows whose `completed` flag
  is set (`CountIsKeysNotFlags`).
- A load error leaves the table as it was; it is not emptied. At start-up the
  table is empty anyway.

## Model

| member | source | states |
|---|---|---|
| `Session.Tracker.constructor` | app.js:23 | the progress table starts empty |
| `Session.Tracker.Load` | app.js:78-94 | an error leaves the table exactly as it was; otherwise the table is rebuilt from an empty one, row by row, equals `MapOfRows(rows)`, and its keys are exactly the rows' days |
| `Progress.MapOfRows` | app.js:90-93 | the table built from the rows: every entry carries its key as its `day`, and there are no more entries than rows |
| `Progress.LoadKeys` | app.js:90-93 | the loaded table's key set equals the set of `day` values of the rows |
| `Progress.LoadLastWins` | app.js:91-93 | a row with no later row of the same day is the stored entry for its day |
| `Progress.LoadEntryIsRow` | app.js:91-93 | every stored entry is one of the rows, carries its key as `day`, and no later row has that day |
| `Progress.ViewOf` | app.js:109-128 | one day's display: its day and topic; `completed` iff the day has an entry whose flag is set; date and notes from that entry (null notes become `""`); no date and notes `""` for a day without an entry |
| `Progress.NotesText` | app.js:128 | the notes shown for a saved row: its notes when they are present, `""` when they are null |
| `Progress.View` | app.js:108-128 | one entry per curriculum day in curriculum order, with its day and topic; `completed` holds iff the day has an entry whose flag is set; date and notes come from that entry (null notes become `""`); a day without an entry has no date and notes `""` |
| `Progress.ViewOfEmptyMap` | app.js:108-128 | with an empty table every day shows incomplete, without date, with empty notes |
| `Progress.ViewAfterLoad` | app.js:108-128 | after a load, a day shows the fields of the last row with that day, and a day absent from the rows shows incomplete with empty notes |
| `Progress.DatePart` | app.js:176 | the result is the prefix of the timestamp before its first `T` (the whole string if it has none) |
| `Progress.DatePartOfTimestamp` | app.js:176 | a `T`-free date followed by `T` and a time gives back that date |
| `Progress.CompletedRecord` | app.js:169-181 | the row stored on completion: the inserted id, the day, `completed = true`, the textarea text as notes, and a date that is the prefix of the timestamp before its first `T` (the whole timestamp if it has none) |
| `Progress.ToggleCall` | app.js:154-179 | a present day sends a delete keyed by its saved row's id; an absent day sends an insert of a completed row with the textarea text and today's date |
| `Progress.Toggled` | app.js:154-181 | a present key is removed (count −1); an absent key is added (count +1) with `day`, `completed = true`, the inserted id, the textarea text as notes and today's date; every other key and entry is unchanged |
| `Session.Tracker.Toggle` | app.js:154-181 | the request sent and the new table are those of `ToggleCall` and `Toggled`; the count moves by exactly −1 or +1; every other day's entry is unchanged |
| `Progress.ToggleTwiceFromAbsent` | app.js:154-181 | toggling an absent day twice restores the original table |
| `Progress.ToggleTwiceFromPresent` | app.js:154-181 | toggling a saved day twice keeps the key set but replaces its entry by a fresh completed record; the old notes, date and id are lost |
| `Progress.ViewAfterToggle` | app.js:154-181 | in the view derived from the new table, as the curriculum loader would render it, only the toggled day's entry changes: it resets to incomplete with empty notes, or shows complete with today's date and the textarea text (the click handler itself leaves the textarea text on the page) |
| `Progress.IncompleteRowIsDeletedByToggle` | app.js:154-163 | a saved row with `completed = false` shows incomplete, yet the toggle deletes it by id, so it still shows incomplete and the count drops by one |
| `Progress.ToggleKeepsKeysInCurriculum` | app.js:154-181 | toggling a curriculum day keeps the table's keys among the curriculum days |
| `Session.Tracker.Count` | app.js:195 | the count is the number of keys of the table; it is at least the number of completed flags, and zero exactly when the table is empty |
| `Progress.CountIsKeysNotFlags` | app.js:195 | for every table, the number of completed flags equals the count exactly when every entry has its flag set |
| `Progress.CompletedAtMostCount` | app.js:195 | the number of set completed flags never exceeds the count |
| `Progress.CountWithinCurriculum` | app.js:195-196 | while all keys are curriculum days, the count is at most the curriculum's length |

## Left out

- DOM construction and patching (cards, classes, button text, the date label, the textarea): presentation only.
- Sign-in by email link and the current-user query: an external identity service. The `user_id` column and the backend's filter by user are not modelled.
- The backend select, insert and delete, and fetching the curriculum file: they are inputs (`rows`, `error`, `insertedId`, the curriculum) and outputs (`StoreCall`), not behaviour.
- Failed inserts and deletes: neither is checked in the code, and a failed insert throws at the date label. The model assumes the insert succeeds and returns the row it was given plus an id.
- The percentage and the CSS width: floating point. Only the integer count is modelled.
- The `console.error` report of a load error: logging only.
- Two toggles of one day in flight at once: concurrency.
- A local-storage backend: not present in the code.
- JavaScript's string keys and truthiness: days are integer keys, and `completed` is a boolean. Any object is truthy, so "has an entry" is key presence.
