# Profile and HRV dialogs of the conversation bot

This project models the part of `conversationbot.py` with real logic: the two
per-user dialogs and the two SQLite tables they fill.

- The **profile dialog** is opened by `/conv`. It moves through GENDER, PHOTO,
  LOCATION and BIO, and then ends. `/skip` passes over the photo and the
  location.
- The **HRV dialog** is opened by `/input`. It moves through SUMMARY, GRAPHS
  and DETAILS. `/skip` ends it at GRAPHS or DETAILS, but not at SUMMARY.
- `/cancel` is the fallback of both dialogs. It ends the dialog and closes the
  one connection that both dialogs share.

The files are:

- `common.dfy`: the sender (first name and an optional last name), the
  event kinds the filters look at, and the errors a handler can raise.
- `store.dfy`: the tables as values. They have rows with an integer
  primary key, the `name` column and one cell per declared column. This
  file also holds the INSERT of a bare name, the
  `UPDATE … SET col=? WHERE name=?`, and closing the connection. Each is
  stated a second time as a relation (`InsertedInto`, `UpdatedIn`,
  `AddedRow`), and lemmas connect the two forms.
- `connection.dfy`: the shared connection as a class, with the two tables
  as `seq` fields. Its UPDATE is a loop over the rows, proved to compute
  `Store.Update`.
- `paths.dfy`: the file names the photo handlers build and store.
- `profile.dfy` and `hrv.dfy`: each dialog's routing table (`Route`), what
  each callback does (`Handle`), one update (`Turn`) and a sequence of
  updates (`Run`), with lemmas for every step and for a whole dialog.
- `handlers.dfy`: every callback as a method on the connection, proved to
  do what `Handle` specifies.
- `Conversations` (`bot.dfy`): both dialogs side by side for one user. The
  `Bot` class holds each dialog's state and applies an update to the dialog
  it is delivered to.

A callback that raises before its statement has run, or whose statement
raises, leaves the dialog's state and both tables as they were. This covers
a statement on a closed connection, and a photo from a user without a last
name (the file name is built before the UPDATE).

Where the code and its design description differ, the model follows the code:

- The GENDER filter is `re.search("^(Boy|Girl|Other)$")`. Python's `$` also
  matches just before a final newline, so `"Boy\n"` is accepted too, and
  stored with its newline (`ProfileDialog.GenderFilterAccepts`).
- A step does not write to "the most recent record" of the user. Every
  UPDATE sets the column on every row with the same first name. Older rows
  of that name therefore take the new answers (`Store.UpdateSetsOneColumn`,
  `ProfileDialog.CompleteRun`).
- `/cancel` does more than end one session: it closes the shared connection.
  From then on every INSERT and UPDATE raises in both dialogs, so no dialog
  can store anything or even open (`Conversations.ClosedConnectionStoresNothing`,
  `Conversations.NoDialogOpensAfterClose`, `Conversations.CancelStrandsOtherDialog`).
- Starting one dialog does not abandon the other. An update the profile
  dialog does not claim, such as `/input`, can open the HRV dialog beside it
  (`Conversations.InputDuringProfile`).
- The photo file name concatenates first and last name with nothing between
  them, so different users can share a file (`Paths.DistinctUsersCanShareAPhotoFile`).

## Model

| member | source | states |
|---|---|---|
| Store.MaxId | conversationbot.py:82-85 | the result is at least every row id and, for a non-empty table, equals one of them |
| Store.NextId | conversationbot.py:82-85 | the rowid of an inserted row is positive and larger than every existing id |
| Store.Nulls | conversationbot.py:82-85 | a new row's cells are exactly the table's declared columns, all NULL |
| Store.Insert | conversationbot.py:92 | the INSERT (also the `hrv` one, line 222) fails with the closed-connection error exactly when the connection is closed; otherwise the table gains one row after its old rows, and the other table and the open connection are kept |
| Store.Update | conversationbot.py:111 | the UPDATE (as in lines 131, 160, 185, 241, 259, 277) fails on a closed connection, else on an undeclared column, and on nothing else; otherwise the table keeps its row count and the other table and the open connection are kept |
| Store.Close | conversationbot.py:201 | closing marks the connection closed and keeps both tables |
| Store.SetWhereName | conversationbot.py:111 | the UPDATE keeps the row count; each row with the name gets the column set, and every other row is unchanged |
| Store.InsertAppendsOneRow | conversationbot.py:92 | the INSERT fails exactly on a closed connection; otherwise it appends one row with a fresh id, the name and NULLs, and leaves the other table and the old rows alone |
| Store.UpdateSetsOneColumn | conversationbot.py:111 | the UPDATE fails exactly on a closed connection or an undeclared column; otherwise it changes only that column, only on rows of that name, and only in that table |
| Store.UpdateOfUnknownNameChangesNothing | conversationbot.py:111 | an UPDATE whose name matches no row leaves the tables equal |
| Store.InsertKeepsRowsWellFormed | conversationbot.py:92 | after an INSERT each row still has exactly its table's columns, and the ids are still distinct |
| Store.UpdateKeepsRowsWellFormed | conversationbot.py:111 | after an UPDATE of a declared column each row still has exactly its table's columns, and the ids are still distinct |
| Store.InsertPreservesWellFormed | conversationbot.py:222 | an INSERT on an open connection keeps both tables well formed |
| Store.UpdatePreservesWellFormed | conversationbot.py:241 | a successful UPDATE keeps both tables well formed |
| Store.AppendStartsAddedRow | conversationbot.py:92 | an INSERT starts an added row of NULLs for the name, and every older row is unchanged |
| Store.UpdateExtendsAddedRow | conversationbot.py:111 | a later UPDATE by the same name sets the column on the added row and on the older rows of that name alike; older rows of that name keep every column not yet answered, and rows of other names stay as they were |
| Connection.Database.constructor | conversationbot.py:56 | the connection starts with the given tables |
| Connection.Database.Insert | conversationbot.py:92 | the fields become `Store.Insert` of the old state, or the call raises and nothing changes |
| Connection.Database.Update | conversationbot.py:111 | the loop over the rows leaves the fields equal to `Store.Update` of the old state, or the call raises and nothing changes |
| Connection.Database.Close | conversationbot.py:201 | the connection is marked closed and the tables keep their contents |
| Paths.ProfilePhotoPath | conversationbot.py:127 | with no last name the name cannot be built (the TypeError); otherwise it lies in `users/`, ends in `.jpg`, and its stem is the first name followed directly by the last name |
| Paths.HrvPhotoPath | conversationbot.py:237 | likewise for the three HRV files (lines 237, 255, 273): in `hrv/`, ending in the stage suffix and `.jpg`, with the first name followed directly by the last name as their stem |
| Paths.ProfilePathCollidesOnConcatenation | conversationbot.py:127 | two users get the same profile file exactly when first name + last name concatenate to the same text |
| Paths.DistinctUsersCanShareAPhotoFile | conversationbot.py:127 | ("Ann", "a") and ("An", "na") get the same file name |
| Paths.PathsOfOneUserAreDistinct | conversationbot.py:237 | the summary, graphs and details files of one user are pairwise different, and none of them is the profile photo |
| ProfileDialog.GenderFilterAccepts | conversationbot.py:309 | the GENDER filter accepts exactly the three choices and each of them followed by one newline |
| ProfileDialog.Route | conversationbot.py:306-317 | the callback chosen for an update is exactly the one registered at the current step (the entry point only when idle, the `/cancel` fallback only inside the dialog) whose filter accepts the update |
| ProfileDialog.Handle | conversationbot.py:88-203 | a callback raises exactly when it runs a statement on a closed connection, or is the photo callback for a user without a last name, with that error; on success it leaves `hrv` alone, closes the connection only for `/cancel`, and returns the successor of the step it is registered at (END for `/cancel`) |
| ProfileDialog.Turn | conversationbot.py:306-317 | one update keeps the step, moves to its fixed successor, or ends the dialog on `/cancel`; an update that leaves the step where it was changes no table; `hrv` is never touched |
| ProfileDialog.ConvStartsDialog | conversationbot.py:88-104 | when idle, `/conv` appends one `users` row with the first name and NULLs and enters GENDER; on a closed connection it changes nothing; any other update is ignored |
| ProfileDialog.NoReentry | conversationbot.py:306-307 | `/conv` inside the dialog changes neither the step nor the tables |
| ProfileDialog.GenderStep | conversationbot.py:107-120 | GENDER handles only filter-accepted text, writes it to `gender` on every row of the name and moves to PHOTO; anything else but `/cancel` changes nothing |
| ProfileDialog.PhotoStep | conversationbot.py:123-149 | a photo stores `users/<first><last>.jpg` and moves to LOCATION; `/skip` moves to LOCATION without a write; without a last name, or for other updates, nothing changes |
| ProfileDialog.LocationStep | conversationbot.py:152-178 | a location is stored and the dialog moves to BIO; `/skip` moves to BIO without a write; other updates change nothing |
| ProfileDialog.BioStep | conversationbot.py:181-190 | any non-command text is stored in `bio` and ends the dialog; commands, photos and locations change nothing |
| ProfileDialog.CancelEndsDialog | conversationbot.py:193-203 | `/cancel` from every step ends the dialog, writes no cell and closes the connection |
| ProfileDialog.TurnConfinedToUsers | conversationbot.py:88-203 | the dialog never touches `hrv`; it closes the connection exactly on `/cancel` inside the dialog; on a closed connection it changes nothing |
| ProfileDialog.TurnPreservesWellFormed | conversationbot.py:88-190 | every update keeps both tables well formed |
| ProfileDialog.CompleteRun | conversationbot.py:306-315 | given any gender answer the GENDER filter accepts (a trailing newline included), an open connection, and a last name when a photo is sent, the full dialog (with or without the photo and location) ends with one new row holding the answers, NULL for the skipped ones; older rows of the name share the answered columns and keep their other cells, rows of other names and `hrv` are untouched |
| HrvDialog.Route | conversationbot.py:320-328 | the callback chosen for an update is exactly the one registered at the current step whose filter accepts the update; `/skip` is registered at GRAPHS and DETAILS only |
| HrvDialog.StoreImage | conversationbot.py:234-285 | an image callback raises exactly for a user without a last name (first), on a closed connection, or on an undeclared column; on success it returns the given next step, leaves `users` alone and keeps the `hrv` row count |
| HrvDialog.Handle | conversationbot.py:218-296 | a callback raises exactly when it runs a statement on a closed connection, or is an image callback for a user without a last name, with that error; on success it leaves `users` alone, closes the connection only for `/cancel`, and returns the successor of the step it is registered at (END for `/skip` and `/cancel`) |
| HrvDialog.Turn | conversationbot.py:320-328 | one update keeps the step, moves to its fixed successor, or ends the dialog on `/skip` or `/cancel`; an update that leaves the step where it was changes no table; `users` is never touched |
| HrvDialog.InputStartsDialog | conversationbot.py:218-231 | when idle, `/input` appends one `hrv` row with the first name and NULLs and enters SUMMARY; on a closed connection it changes nothing |
| HrvDialog.NoReentry | conversationbot.py:320-321 | `/input` inside the dialog changes nothing |
| HrvDialog.SummaryStep | conversationbot.py:234-249 | SUMMARY handles only a photo (and the fallback), so `/skip` is not handled; a photo stores the `-summary` file name and moves to GRAPHS |
| HrvDialog.GraphsStep | conversationbot.py:252-267 | a photo stores the `-graphs` file name and moves to DETAILS; `/skip` ends the dialog without a write |
| HrvDialog.DetailsStep | conversationbot.py:270-296 | a photo stores the `-details` file name and ends the dialog; `/skip` ends it without a write |
| HrvDialog.CancelEndsDialog | conversationbot.py:327 | `/cancel` from every step ends the dialog, writes no cell and closes the connection |
| HrvDialog.TurnConfinedToHrv | conversationbot.py:218-296 | the dialog never touches `users`; it closes the connection only on `/cancel`; on a closed connection it changes nothing |
| HrvDialog.TurnPreservesWellFormed | conversationbot.py:218-285 | every update keeps both tables well formed |
| HrvDialog.CompleteRun | conversationbot.py:320-325 | with an open connection and a last name, sending one, two or three images (then `/skip` if fewer than three) ends the dialog; the run leaves one new `hrv` row with the file names and NULL for the rest; older rows of the name share the stored columns and keep their other cells, and other names' rows and `users` are untouched |
| Handlers.Conv | conversationbot.py:88-104 | the callback performs `ProfileDialog.Handle(Conv)`: it returns GENDER and the inserted tables, or raises with nothing changed |
| Handlers.Gender | conversationbot.py:107-120 | performs `Handle(StoreGender)` on the connection |
| Handlers.Photo | conversationbot.py:123-138 | performs `Handle(StorePhoto)`, and raises before any write when there is no last name |
| Handlers.SkipPhoto | conversationbot.py:141-149 | returns LOCATION on every table state, as `Handle(SkipPhoto)` says |
| Handlers.Location | conversationbot.py:152-167 | performs `Handle(StoreLocation)` on the connection |
| Handlers.SkipLocation | conversationbot.py:170-178 | returns BIO on every table state, as `Handle(SkipLocation)` says |
| Handlers.Bio | conversationbot.py:181-190 | performs `Handle(StoreBio)` on the connection |
| Handlers.Cancel | conversationbot.py:193-203 | closes the connection, which is what `Handle(Cancel)` specifies for both dialogs |
| Handlers.HrvInput | conversationbot.py:218-231 | performs `HrvDialog.Handle(HrvInput)` on the connection |
| Handlers.StoreImage | conversationbot.py:234-285 | performs `HrvDialog.StoreImage` for one stage |
| Handlers.Summary | conversationbot.py:234-249 | performs `HrvDialog.Handle(StoreSummary)` |
| Handlers.Graphs | conversationbot.py:252-267 | performs `HrvDialog.Handle(StoreGraphs)` |
| Handlers.Details | conversationbot.py:270-285 | performs `HrvDialog.Handle(StoreDetails)` |
| Handlers.SkipHrv | conversationbot.py:288-296 | ends the dialog on every table state, as `Handle(SkipHrv)` says |
| Conversations.Deliver | conversationbot.py:330-332 | an update delivered to one of the two registered dialogs leaves the other dialog's step and the other dialog's table as they were |
| Conversations.InputDuringProfile | conversationbot.py:320-321 | `/input` opens the HRV dialog while the profile dialog keeps its step |
| Conversations.CancelStrandsOtherDialog | conversationbot.py:201 | `/cancel` in the profile dialog ends only that dialog, and the open HRV dialog's next image is refused at the same step |
| Conversations.ClosedConnectionStoresNothing | conversationbot.py:201 | after the connection is closed, any sequence of updates to either dialog, each with its own sender names, leaves the tables as they were |
| Conversations.NoDialogOpensAfterClose | conversationbot.py:201 | on a closed connection, `/conv` and `/input` leave both dialogs idle |
| Conversations.RunPreservesWellFormed | conversationbot.py:88-296 | any sequence of updates to either dialog, each with its own sender names, keeps both tables well formed |
| Conversations.Bot.constructor | conversationbot.py:306-327 | both dialogs start idle on the given connection |
| Conversations.Bot.ProfileTurn | conversationbot.py:306-317 | running the callback the table selects leaves the step and the tables as `ProfileDialog.Turn` says, and the HRV step unchanged |
| Conversations.Bot.HrvTurn | conversationbot.py:320-327 | leaves the step and the tables as `HrvDialog.Turn` says, and the profile step unchanged |
| Conversations.Bot.OnUpdate | conversationbot.py:306-327 | one delivered update has the effect `Conversations.Deliver` specifies |

## Left out

- Telegram I/O is not modelled: the reply texts, the reply keyboards and
  `ReplyKeyboardRemove`, and `get_file`/`download`. A downloaded photo is
  only its file name.
- `savedb` is left out. It prints the tables and commits, and it has no
  effect the dialogs can observe. The table DDL, the connection setup and
  `createdb.py` are left out too; the tables are modelled as declared.
- Logging, configuration, the library version check, `start`, `main` and
  `run_polling` are not modelled.
- The library's dispatch is not modelled: the choice among handlers registered
  in the same group, and the conversation keys per chat and user. Which dialog
  gets an update is a parameter (`Conversations.Delivery`), and the model has
  one user.
- ProfileDialog.Run, HrvDialog.Run and the two CompleteRun lemmas take one
  sender for the whole run, so they do not cover a sender who renames in the
  middle of a dialog. The code reads the names again on every update, and
  an UPDATE by a new first name hits other rows or none. `Turn`, `Deliver`
  and `Conversations.RunChat` take the sender for each update.
- Concurrency and the interleaving of updates from several users are not
  modelled.
- The library's normalisation of command names is taken as done: lower case,
  and the `@botname` suffix removed. A message is either a command or
  non-command text. Captions and other message kinds are not modelled.
- The location is kept as an abstract pair of coordinates, and the model
  stores it as a cell value. The code binds the library's `Location` object
  itself (line 160). The standard `sqlite3` module has no adapter for that
  type, so that UPDATE would raise and the dialog would stay at LOCATION;
  the model follows the stored-location reading of the dialog instead.
- A failure after a statement has committed is not modelled. For example,
  if `reply_text` fails at line 95 after the INSERT at 92-93, the row stays
  written and the step does not change. In the model a callback's write and
  its return happen together.
- SQLite's rowid limit (2^63 − 1) and its fallback to a random free rowid
  are not modelled; ids are unbounded.
- The link import, plotting and restore flows are not part of this model.
