# Trip-journal bot, modelled in Dafny

A Telegram bot that drivers use to log trips. It asks for:

- the start time;
- the start odometer reading;
- the end time;
- the end odometer reading;
- an optional project, an optional address and a comment.

It then shows a summary. On confirmation it appends one thirteen-column row to a Google spreadsheet. Drivers register once by typing their full name, and registrations are kept in `users.json`.

The code is built to do two more things:

- refuse a duplicate submission from the last 30 seconds;
- let a driver edit their latest row within 15 minutes, from a command or a button.

As written it does neither (see "## Findings"):

- The `created_at` stamp it writes never reads back. So the duplicate check never refuses, and the edit window is always closed.
- The edit button looks up the bot's own rows, not the pressing user's.

The model covers both programs. `Bot.Env.build` selects `AsWritten` (the code as it stands) or `Corrected` (a readable `Z` stamp and an edit button that looks up the pressing user). `Bot.CreatedStamp` and `Bot.EditButtonAuthor` are the only two places where the builds differ. The save and duplicate consequences are proved on `Bot.Step`, for both builds. The edit-window consequences are proved on `Bot.StartEditLast`, and on `Bot.Step` through the edit button. A save leaves the session idle, and in the idle state `handle_registration` takes every text but `/start`. So `/new`, `/last`, `/edit_last`, `/export` and `/help` sent straight after a save only bring up the main menu (`BotProperties.IdleTextShowsMenu`, `BotProperties.SavedThenEditCommandShowsMenu`).

This project models the bot's deterministic core:

- the trip record and its row format (`Models`);
- the time utilities: the input parser, the sheet format and the ISO 8601 stamps (`TimeUtils`);
- the spreadsheet client, over an in-memory sequence of rows (`SheetsClient`, class `Ledger`);
- the users repository (`UsersRepo`, value `Registry` and class `UsersRepository`);
- the conversation (`Bot`): the dispatcher's routing in registration order, every handler as a pure action on the user's `(state, data)` session, and one whole update as `Step`;
- the running bot (`BotRuntime.TripBot`), a class holding the in-memory FSM storage, the client and the repository, whose `Handle` method is proved to perform exactly one `Step`;
- what happens when `bot.py` is imported (`Startup`).

`BotProperties` states what the conversation guarantees. `Text` models the Python string built-ins the code relies on:

- `strip`, `split` and `split(sep)`;
- `lower` and `replace`;
- `str(int)` and `int(str)`.

Instants are calendar readings in one fixed zone. They are counted in seconds since 0001-01-01, with the Gregorian month lengths and leap years written out.

Whatever the code gets from outside comes in through `Bot.Env`:

- the current local and UTC time;
- the user's id and the bot's own id;
- a fresh `uuid4`;
- whether the Google service answers;
- `FUEL_BARS`;
- which build runs, as written or corrected.

## Model

| member | source | states |
|---|---|---|
| Models.NewTripEntry | models.py:14-40 | construction fails exactly when `odometer_end < odometer_start`; on success the distance is `end - start` (so never negative) whatever was passed, every other field is kept, and a missing `row_uid` becomes the fresh identifier while a given one is kept |
| Models.HeadersShape | models.py:60-77 | the header list has 13 distinct names, with `created_at`, `author_tg_id` and `row_uid` in columns 10, 11 and 12 |
| Models.ToSheetsRow | models.py:42-58 | the row has one cell per header, and cell i holds the text of the field header i names (`None` project or address as `""`) |
| Models.RowReadsBack | models.py:48-57 | `int` of each numeric cell gives back the field, and the date, times, `created_at` and `row_uid` cells are the fields themselves |
| Text.IntToStringRoundTrip | models.py:48-50 | `int(str(n)) == n` for every integer, which is what reading a stored cell back relies on |
| Text.Strip | bot.py:292 | `strip()` leaves no leading or trailing whitespace and never lengthens the text |
| Text.StripSlice | bot.py:292 | `strip()` is a slice `s[i..j]` of the text, and everything it cuts off before `i` and from `j` on is whitespace |
| Text.Words | bot.py:295 | `split()` yields non-empty parts without whitespace |
| Text.WordsOne | bot.py:295 | `split()` of one word is that word alone |
| Text.WordsNoneIffSpace | bot.py:295 | `split()` finds nothing exactly when the text is all whitespace |
| Text.WordsJoin | bot.py:295 | `split()` of two texts joined by a whitespace character is the words of the first followed by the words of the second |
| Text.SplitOnJoin | utils_time.py:107 | splitting `a + sep + b` at `sep`, where `a` has no separator, gives `a` followed by the parts of `b` |
| Text.ReplaceAllAbsent | bot.py:950 | `replace` changes nothing where the pattern does not occur |
| TimeUtils.DaysInMonth | utils_time.py:46 | a month has 28 to 31 days |
| TimeUtils.DaysBeforeNextYear | utils_time.py:46 | each year adds exactly its own length (365 or 366 days) to the day count |
| TimeUtils.SecondsOrder | utils_time.py:141-143 | comparing two instants of one zone is comparing their calendar fields, and equal counts mean equal readings |
| TimeUtils.ValidateTimeSequence | utils_time.py:141-143 | true exactly when the end is not earlier than the start; equal instants pass |
| TimeUtils.DurationPartsMeaning | utils_time.py:145-149 | for `end >= start`, the minutes are below 60 and `hours * 60 + minutes` is the whole minutes between the two |
| TimeUtils.FormatDurationShape | utils_time.py:151-154 | the duration renders as `"Mм"` without a whole hour and as `"Hч Mм"` otherwise |
| TimeUtils.ParseDateTimeInput | utils_time.py:26-65 | `сейчас`/`now` (after `strip().lower()`) give the current local time; any other accepted input is a valid instant on a whole minute |
| TimeUtils.ParseForm | utils_time.py:34-63 | a `D.M.YYYY H:MM` (day, month and hour of one or two digits, any whitespace between date and clock) or a bare `H:MM`, stripped and lower-cased to that text, gives the minute it names (today's local date for `H:MM`), or `None` when the date or clock reading is impossible |
| TimeUtils.ParsedIsForm | utils_time.py:34-65 | apart from `сейчас`/`now`, every accepted input is, after `strip().lower()`, one of those two shapes and its value is the minute that shape names; every other input gives `None` |
| TimeUtils.ClockIsNotFull | utils_time.py:41-42 | a bare `HH:MM` never matches the full `D.M.YYYY H:MM` pattern |
| TimeUtils.ParseTypedFull | utils_time.py:41-50 | a zero-padded `DD.MM.YYYY HH:MM` gives that minute when it is a real date and clock reading, and `None` otherwise |
| TimeUtils.ParseTypedClock | utils_time.py:53-63 | a zero-padded `HH:MM` gives that minute of the current local date when `H <= 23` and `M <= 59`, and `None` otherwise |
| TimeUtils.DisplayRoundTrip | utils_time.py:83-90 | what `format_datetime_for_display` shows is read back by `parse_datetime_input` as the same minute |
| TimeUtils.FormatForSheets | utils_time.py:67-81 | the date cell has 10 characters and the time cell 5 |
| TimeUtils.ParseSheetsDateTime | utils_time.py:103-125 | a result exists only when the date splits into 3 dot-separated parts and the time into 2 colon-separated parts forming a valid date and clock reading, on a whole minute |
| TimeUtils.SheetsRoundTrip | utils_time.py:67-125 | `parse_sheets_datetime(*format_datetime_for_sheets(dt))` is `dt` with the seconds dropped |
| TimeUtils.UtcIsoStringAsWritten | utils_time.py:92-101 | the stamp as written is the 25-character aware `isoformat()` plus `"Z"`, 26 characters |
| TimeUtils.ZuluIsoString | users_repo.py:68 | the naive UTC `isoformat()` plus `"Z"`, 20 characters |
| TimeUtils.FromIsoFormat | utils_time.py:131 | the model reads only the two shapes this program writes: a valid naive 19-character or aware 25-character stamp; anything else gives `None` |
| TimeUtils.NormalizeZuluString | utils_time.py:131 | `replace('Z', '+00:00')` turns a `Z` stamp into the aware UTC `isoformat()` text |
| TimeUtils.ZuluStampReadsBack | sheets_client.py:196 | a `Z` stamp reads back as the same aware UTC instant |
| TimeUtils.AsWrittenStampUnreadable | utils_time.py:101 | the stamp as written normalises to `…+00:00+00:00` and never reads back |
| TimeUtils.IsWithinEditTimeLimit | utils_time.py:127-139 | true only for a stamp that reads back as an aware instant |
| TimeUtils.AsWrittenEditWindowClosed | utils_time.py:137-139 | with the stamp as written the edit window is always closed |
| TimeUtils.EditWindowClosedInterval | utils_time.py:127-135 | with a `Z` stamp the window is open exactly when `now - created <= limit * 60` seconds |
| SheetsClient.ZipHeaders | sheets_client.py:112 | `dict(zip(headers, row))` maps header i to cell i for exactly the headers that have a cell |
| SheetsClient.StoredRowFields | sheets_client.py:178 | every header of a stored entry's row maps to that field's text |
| SheetsClient.WithHeader | sheets_client.py:42-61 | row 1 becomes the header row; every other existing row is kept, and an empty sheet gets exactly the header |
| SheetsClient.WithHeaderIdempotent | sheets_client.py:54 | repairing a repaired sheet changes nothing |
| SheetsClient.Ledger.EnsureHeader | sheets_client.py:42-61 | the client's rows become the repaired sheet |
| SheetsClient.NewestFirstCons | sheets_client.py:110-113 | a row at the top of the window comes out last, and only when it is full |
| SheetsClient.CollectNewestFirst | sheets_client.py:109-115 | the loop over `reversed(last_rows)` collects the full rows, bottom-most first |
| SheetsClient.WindowStart | sheets_client.py:106 | `rows[-limit:]` for `len(rows) > limit` keeps the newest `limit` rows for a positive limit |
| SheetsClient.LastRowsBound | sheets_client.py:90-115 | at most `limit` rows come back, and no more than the sheet's data rows |
| SheetsClient.LastRowsContent | sheets_client.py:98-115 | the result is, bottom-most first, the dictionary of every row with at least 13 cells among the newest `limit` data rows, and of no other row; the header row is never among them |
| SheetsClient.LastRowsAfterAppend | sheets_client.py:67-115 | right after a full row is appended, it is the first row `get_last_rows` returns |
| SheetsClient.Ledger.GetLastRows | sheets_client.py:90-119 | returns `get_last_rows` of the current sheet: nothing for an empty or header-only sheet, otherwise the full rows of the newest `limit`, newest first |
| SheetsClient.FindByUid | sheets_client.py:121-138 | a result `(i, row)` is the first row from the top with 13 cells, the identifier in column M and the author's id text in column L, with `2 <= i` its sheet row number; `None` exactly when no data row matches |
| SheetsClient.Ledger.FindRowByUid | sheets_client.py:121-142 | the scanning loop returns `FindByUid` of the current sheet |
| SheetsClient.LastUserEntry | sheets_client.py:161-181 | an entry exists exactly when some data row has 12 cells and the author's id text in column L |
| SheetsClient.LastAuthorIndexAt | sheets_client.py:176-179 | the entry is the bottom-most such row, keyed by the headers |
| SheetsClient.LastUserEntryAfterAppend | sheets_client.py:161-181 | right after an author's entry is appended, it is that author's last entry |
| SheetsClient.Ledger.GetLastUserEntry | sheets_client.py:161-185 | the walk up from the bottom returns `LastUserEntry` of the current sheet |
| SheetsClient.UpdatedSheet | sheets_client.py:144-159 | writing row n replaces exactly row n and leaves every other row as it was; a row beyond the end pads with empty rows |
| SheetsClient.Ledger.UpdateRow | sheets_client.py:144-159 | succeeds exactly when the service answers and the row number is at least 1, and only then rewrites row n with the entry's row |
| SheetsClient.EditKeepsRowFindable | sheets_client.py:144-159 | rewriting the found row with an entry that keeps its identifier and author leaves it findable under the same number |
| SheetsClient.RowVerdict | sheets_client.py:198-210 | a row whose author id is not an integer stops the scan (the `int()` error ends in `return False`); a row is a duplicate exactly when it has the same author and a readable stamp less than 30 seconds away |
| SheetsClient.ScanMeaning | sheets_client.py:198-212 | the scan answers true exactly when some row is a duplicate and every row before it lets the scan go on |
| SheetsClient.ScanDupMeaning | sheets_client.py:187-216 | a reported duplicate is a row of the same author within 30 seconds; when every author id is an integer, any such row is reported |
| SheetsClient.ScanDupFirst | sheets_client.py:198-207 | a duplicate newest row is reported |
| SheetsClient.StoredRowIsDup | sheets_client.py:200-207 | a stored row with a `Z` stamp less than 30 seconds from the new stamp is a duplicate of it |
| SheetsClient.ZuluResubmitIsDuplicate | sheets_client.py:187-216 | with `Z` stamps, resubmitting an author's trip within 30 seconds of the stored one is a duplicate |
| SheetsClient.AsWrittenNeverDuplicate | sheets_client.py:214-216 | with the stamp as written no entry is ever a duplicate |
| SheetsClient.Ledger.CheckDuplicate | sheets_client.py:187-216 | the scanning loop over the newest ten rows returns `IsDuplicate` of the current sheet |
| SheetsClient.Ledger.AppendRow | sheets_client.py:67-88 | succeeds exactly when the service answers and the entry is no duplicate; then exactly the entry's row is appended at the end, otherwise nothing is written |
| UsersRepo.Registry.GetUser | users_repo.py:55-57 | a registration comes back exactly for a stored id, and it is the stored one |
| UsersRepo.Registry.GetUserName | users_repo.py:77-80 | a name comes back exactly when `is_registered` holds, and it is the stored registration's full name |
| UsersRepo.Registry.GetAllUsersCount | users_repo.py:82-84 | the count is the number of registered ids |
| UsersRepo.Registry.GetUserList | users_repo.py:86-95 | one `(id, name, created_at)` per registration, in insertion order, carrying that registration's data |
| UsersRepo.Registry.Put | users_repo.py:71 | storing under an id replaces that id's registration only; a new id goes to the end of the insertion order and a known id keeps its place |
| UsersRepo.Registry.Register | users_repo.py:63-80 | afterwards the id is registered under the stripped name with the UTC `Z` stamp, every other id is unchanged, and the count grows by one exactly for a new id, which goes to the end of the insertion order while a known id keeps its place |
| UsersRepo.LoadEntriesStep | users_repo.py:27-29 | each pair of the file is stored under its key, or the load fails at a key that is not an integer |
| UsersRepo.LoadStopsAtBadKey | users_repo.py:35-37 | one key that is not an integer makes the whole load fail |
| UsersRepo.LoadFailsAt | users_repo.py:20-37 | a failed load leaves the repository empty |
| UsersRepo.SaveOrder | users_repo.py:39-48 | the file holds one pair per registered id, in insertion order: the id as text and that id's registration |
| UsersRepo.LoadSaveRoundTrip | users_repo.py:20-53 | what `save_users` writes, `load_users` reads back as the same repository, order included |
| UsersRepo.UsersRepository.constructor | users_repo.py:15-18 | opening the repository loads whatever the file holds |
| UsersRepo.UsersRepository.LoadUsers | users_repo.py:20-37 | the loop leaves the repository as `Load` of the file |
| UsersRepo.UsersRepository.SaveUsers | users_repo.py:39-53 | the file becomes `Save` of the repository, which is unchanged |
| UsersRepo.UsersRepository.RegisterUser | users_repo.py:63-75 | returns the new registration; the repository becomes `Register` of the old one and the file is rewritten with it |
| Bot.RouteText | bot.py:173-1117 | each state's text handler receives text only in its own state, and the manual-reading handler takes every text in its state |
| Bot.RouteCallback | bot.py:130-1186 | the state-filtered button handlers fire only in their state, and "save" only at the confirmation |
| Bot.PhotoConfirmRoundTrip | bot.py:73-136 | the "correct" button's `confirm_photo:uid:odo:bars` decodes back to the same user text, reading and bars |
| Bot.DecodePhotoConfirm | bot.py:133-136 | a decoding exists only for exactly four parts, the second being the user's part |
| Bot.ParseOdoBars | bot.py:180-184 | a manual reading is accepted exactly when the first two whitespace-separated tokens of the stripped text read as integers and `0 <= bars <= FUEL_BARS`, and then it is those two integers |
| Bot.ParseOdoBarsTyped | bot.py:180-184 | `"odo bars"` typed as two integers with the bars in range is read as typed |
| Bot.NameCheckIsWordCount | bot.py:292-299 | the registration check comes down to "at least two words": two words always have three characters |
| Bot.OnRegistration | bot.py:283-312 | a registered user's text, or an unacceptable name, changes nothing; otherwise the name is registered |
| Bot.OnCmdNew | bot.py:314-324 | a registered user starts a trip from an empty session; anyone else is told to register and nothing changes |
| Bot.ReadOdometer | bot.py:430-431 | a reading is accepted exactly when `int` reads it and it is not negative |
| Bot.OnCommentInput | bot.py:668-730 | the stripped comment is stored, even when the summary fails, and the state moves to the confirmation or stays |
| Bot.CreatedStamp | bot.py:757 | as written, the stamp `callback_confirm_save` writes never reads back; corrected, it reads back as the current UTC instant |
| Bot.EditButtonAuthor | bot.py:868-877 | as written, the edit button looks up the bot's own id; corrected, the pressing user's |
| Bot.OnConfirmSave | bot.py:732-760 | asks for the session's trip, stamped by the build's `CreatedStamp`, to be appended, or changes nothing when it cannot be built |
| Bot.StartEditLast | bot.py:875-943 | the user's last entry is opened at the field choice exactly when it exists and its `created_at` is within 15 minutes; otherwise the session stays and the user is told there is no entry or that it expired |
| Bot.OnEditNewValue | bot.py:974-1054 | the edit ends or a rewrite is asked for, and a rewrite targets an existing row (when the rewrite is asked for: `EditNewValueSpec`) |
| Bot.OnPhotoManualInput | bot.py:173-207 | the state never changes and nothing is ever saved |
| Bot.TripAnswer | bot.py:395-674 | every trip answer keeps a consistent session consistent (what each answer stores: `TripAnswerStaysOrAdvances` and the answer lemmas below) |
| Bot.TextAction | bot.py:173-1117 | a text never appends; it rewrites only in the new-value state and registers only in the no-state state |
| Bot.CallbackAction | bot.py:130-1192 | a button only appends at the confirmation for "save", with the session's trip, and "save" there appends or changes nothing; the edit button opens the last entry of the build's `EditButtonAuthor` |
| Bot.Plan | bot.py:81-1192 | the routed handler's action, for either build: appends only at a confirmed save, rewrites only in an edit, registers only a new user's text, and keeps sessions consistent |
| Bot.Perform | bot.py:762-795 | carrying out an action keeps the registry well formed |
| Bot.Step | bot.py:732-796 | for either build, the sheet changes only at a save or an edit; a save appends exactly the session's trip and clears the session; a refused save changes nothing; an edit keeps the row count; only a new user's text changes the registry |
| BotProperties.CancelRoutes | bot.py:1166-1167 | "cancel" reaches its handler from any state |
| BotProperties.MainMenuRoutes | bot.py:1176-1177 | "main menu" reaches its handler from any state |
| BotProperties.GoBackRoutes | bot.py:1185-1186 | "back" reaches its handler from any state |
| BotProperties.EditButtonRoutes | bot.py:868-869 | the edit button reaches its handler from any state, the field choice included |
| BotProperties.ConfirmButtonRoutes | bot.py:732 | "save" reaches the save handler at the confirmation and no handler elsewhere |
| BotProperties.TripAnswerStaysOrAdvances | bot.py:395-674 | a trip answer is refused and changes nothing, or only its own key changes and the next question is asked: a time or reading stores the value it parses to, a project, address or comment stores the stripped text (the comment even when the summary fails) |
| BotProperties.SkipProjectStoresEmpty | bot.py:600-605 | "skip" at the project question stores `""` as the project and asks for the address |
| BotProperties.SkipAddressStoresEmpty | bot.py:633-638 | "skip" at the address question stores `""` as the address and asks for the comment |
| BotProperties.TripTextRouting | bot.py:395-669 | during a trip every text except `/start` and `/new` is taken as the answer |
| BotProperties.TripTextStep | bot.py:395-674 | a trip answer typed as text is performed as its handler decides, with the sheet and users untouched |
| BotProperties.ProjectAnswerStored | bot.py:609-613 | a project answer stores the stripped text and asks for the address |
| BotProperties.AddressAnswerStored | bot.py:642-646 | an address answer stores the stripped text and asks for the comment |
| BotProperties.StartTimeAnswer | bot.py:396-424 | a start time that reads as a date-time is stored and the start reading is asked next |
| BotProperties.UnreadableTimeKept | bot.py:396-545 | a start or end time that does not read as a date-time changes nothing |
| BotProperties.NowStartTime | bot.py:396-424 | `now` as the start time stores the local time |
| BotProperties.TypedStartFull | bot.py:396-424 | a typed `DD.MM.YYYY HH:MM` start stores that minute exactly when it names a real date and clock reading |
| BotProperties.TypedStartClock | bot.py:395-424 | a typed `HH:MM` start stores that minute of today exactly when it is a clock reading |
| BotProperties.TypedOdometerStart | bot.py:426-456 | a typed start reading is stored exactly when it is not negative |
| BotProperties.EndTimeAnswer | bot.py:512-545 | an end time that reads as a date-time is stored, and the end reading asked, exactly when it is not earlier than the start |
| BotProperties.NowEndTime | bot.py:512-545 | `now` as the end time stores the local time exactly when it is not earlier than the start |
| BotProperties.EndTimeCheck | bot.py:527-541 | an end time is stored exactly when it is not earlier than the start, an equal one included; otherwise nothing changes |
| BotProperties.TypedOdometerEnd | bot.py:557-598 | a typed end reading is stored exactly when it is not below the start reading |
| BotProperties.OdometerEndWithoutStart | bot.py:565-566 | a missing start reading makes the end handler raise, and nothing changes |
| BotProperties.CommentLeadsToConfirmation | bot.py:668-730 | in a consistent session a registered user's comment leads to the confirmation |
| BotProperties.TripFromSessionSpec | bot.py:732-760 | the saved entry exists exactly when the trip is complete, commented, of a registered user and not ending below its start; it carries the session's data, the recomputed distance, the registered name, `""` for a skipped field, the build's stamp, the user's id and a fresh identifier |
| BotProperties.ConsistentConfirmationBuilds | bot.py:732-760 | a consistent session at the confirmation always yields an entry |
| BotProperties.ConfirmRoutesToSave | bot.py:732-733 | "save" at the confirmation runs the save handler |
| BotProperties.ConfirmSaves | bot.py:762-795 | for either build, a save appends exactly the trip's row and clears the session when the service answers and it is no duplicate; otherwise sheet and session stay as they were |
| BotProperties.AsWrittenConfirmIgnoresDuplicates | sheets_client.py:187-216 | as written, a save appends the trip whenever the service answers, however recently the same trip was saved |
| BotProperties.CorrectedResubmitRefused | sheets_client.py:187-216 | corrected, saving again less than 30 seconds after the same user's saved row is refused and changes nothing |
| BotProperties.NoDoubleCommit | bot.py:762-780 | after a save changed the sheet the session is cleared, and "save" again changes nothing |
| BotProperties.SavedTripEditableForFifteenMinutes | bot.py:875-903 | corrected, `start_edit_last_entry` for the author opens a saved trip exactly while at most 15 minutes have passed, from any session; later it answers "expired" |
| BotProperties.CorrectedSavedTripEditableByButton | bot.py:868-903 | corrected, the edit button pressed in the session a save leaves opens the saved trip exactly while at most 15 minutes have passed; later the session stays |
| BotProperties.AsWrittenSavedTripNeverEditable | bot.py:862-903 | as written, `/edit_last` after a save, from any state where it reaches its handler, answers "expired" and changes nothing, however soon it is sent |
| BotProperties.IdleTextShowsMenu | bot.py:283-289 | in the idle state every text of a registered user but `/start` only brings up the main menu |
| BotProperties.SavedThenEditCommandShowsMenu | bot.py:283-289 | `/edit_last` sent straight after a save never reaches the edit handler: it only brings up the main menu |
| BotProperties.SavedRowNotOthers | sheets_client.py:177 | a row saved by one user is never attributed to another |
| BotProperties.LastUserEntryIgnoresOthers | sheets_client.py:176-179 | another author's row at the bottom leaves an author's last entry unchanged |
| BotProperties.EditButtonAsWrittenIgnoresSave | bot.py:868-877 | the edit button as written looks up the bot's own entries, which a user's save does not change |
| BotProperties.EditButtonStep | bot.py:868-877 | pressing the edit button writes nothing; it sets the session and reply `start_edit_last_entry` gives for the build's `EditButtonAuthor` |
| BotProperties.EditButtonAsWrittenFindsNothing | bot.py:868-877 | the edit button as written always finds nothing to edit |
| BotProperties.EditButtonOpensOwnEntry | bot.py:868-877 | the corrected edit button opens the pressing user's own last entry |
| BotProperties.EditCommandOpensOwnEntry | bot.py:862-877 | `/edit_last` opens the user's own last entry wherever no earlier handler takes the text |
| BotProperties.FieldChoiceRoutes | bot.py:945-946 | `edit_<f>` at the field choice reaches its handler unless `f` is `last` |
| BotProperties.FieldChoiceStoresField | bot.py:945-972 | choosing a field stores its name and asks for the new value |
| BotProperties.EditedTripDefined | bot.py:996-1028 | an edited row can be rebuilt into an entry exactly when the date and both times read as a sheet date-time, the three readings read as integers, the user is registered, the creation stamp is present and the end reading is not below the start |
| BotProperties.EditedTripSpec | bot.py:1006-1028 | the rebuilt entry keeps the row's date, times, readings, stamp and identifier, recomputes the distance and names the registered user |
| BotProperties.EditNewValueSpec | bot.py:974-1028 | a rewrite is asked for exactly when the edited entry has an identifier, the row carrying it is found among the user's own rows and the entry can be rebuilt, and then it is for that row and that entry, with the chosen field set to the stripped text |
| BotProperties.EditTextRouting | bot.py:974-976 | while a new value is awaited every text except `/start`, `/new`, `/last` and `/edit_last` reaches the edit handler |
| BotProperties.EditStepWritesFoundRow | bot.py:974-1054 | a new value for a found row whose entry can be rebuilt rewrites that row with the rebuilt entry and clears the session; with the sheet unreachable the sheet is kept and the session is cleared too |
| BotProperties.EditStepRewrites | bot.py:1031-1054 | an edit that changes the sheet rewrites exactly the found row |
| BotProperties.EditRewritesOwnRow | bot.py:992-1031 | the rewritten row carried the entry's identifier and the user's id, and still does under the same number |
| BotProperties.EditSetsChosenField | bot.py:979-1028 | a chosen project, address or comment holds the stripped text in the rewritten entry |
| BotProperties.RegistrationDecision | bot.py:283-312 | a new user's text registers them exactly when its stripped form has at least two words, under the stripped text |
| BotProperties.RegistrationStores | bot.py:283-302 | after registration the user is stored with the stripped name and the UTC stamp, and nobody else changes |
| BotProperties.RegistrationStep | bot.py:283-312 | a new user's acceptable name is registered stripped, and nothing else changes |
| BotProperties.PhotoChangesNothing | bot.py:81-128 | a photo changes nothing |
| BotProperties.PhotoConfirmNeverSaves | bot.py:130-161 | confirming a recognised reading never saves it |
| BotProperties.ManualReadingNeverSaves | bot.py:173-207 | in the manual-reading state every text is consumed without a write, and a requested reading is reset |
| BotProperties.ManualReadingUnderstoodNotSaved | bot.py:180-206 | a well-formed `odo bars` is understood, yet not saved |
| BotProperties.CancelClears | bot.py:1166-1183 | "cancel" and "main menu" clear state and data from any state |
| BotProperties.GoBackKeepsData | bot.py:1185-1192 | "back" returns to the comment question with all data kept |
| BotRuntime.TripBot.SessionOf | bot.py:37 | a user without stored state has no state and no data |
| BotRuntime.TripBot.constructor | bot.py:36-50 | the bot starts with empty FSM storage over the client and repository |
| BotRuntime.TripBot.Apply | bot.py:762-795 | the write an action asks for goes through the client or the repository, and the user's session is stored |
| BotRuntime.TripBot.Handle | bot.py:81-1192 | one update stores exactly `Step`'s new session for the user, leaves the sheet and the registry as `Step` says, answers its reply, leaves other users' sessions alone and keeps every session consistent |
| Startup.FirstUnknown | users_repo.py:15 | the first keyword the constructor does not accept, `None` exactly when it accepts them all |
| Startup.RunSucceedsIff | bot.py:40-237 | importing succeeds exactly when every statement runs with the names bound before it |
| Startup.ImportAsWrittenFails | bot.py:40-44 | importing `bot.py` raises `TypeError` at the repository's construction |
| Startup.ImportWithFixedRepositoryFails | bot.py:173 | with that call fixed, the import raises `NameError` for `PhotoStates` |
| Startup.ImportCorrectedSucceeds | bot.py:218-237 | the corrected module imports and binds the three state groups |

## Left out

- Time zones: one fixed zone. There is no pytz, no DST and no `astimezone`. Microseconds are dropped from every instant and stamp.
- Regular expressions: only ASCII digits count as `\d`, and only the whitespace characters `Text.IsSpace` lists count as whitespace.
- Text.ParseInt: accepts ASCII digits only. Python's `int()` also accepts every other Unicode decimal digit (Arabic-Indic, full-width and so on), so a reading, a stored number or an id written in those digits is refused in the model where the code would accept it (bot.py:430-431, 561-562, 1018-1020; sheets_client.py:200; users_repo.py:28).
- Bot.TextAction: `/start` from a registered user always answers `Prompt`. `cmd_start` reads the stored `created_at` with `fromisoformat` and raises on a stamp it cannot read; the registry's own stamps always read back, so this only matters for a hand-edited `users.json`, and that is not modelled.
- Commands: `Command(name)` is matched on the first word alone. Bot mentions (`/new@bot`) and prefix options are not modelled.
- Transport and files: the Google API, the JSON text of `users.json` and the Telegram transport are left out. The sheet is a sequence of rows; the file is a sequence of (id text, registration) pairs; whether the service answers is a parameter.
- UsersRepo.UsersRepository.RegisterUser: always rewrites the file. A failed write, which `save_users` logs and swallows, is not modelled.
- TimeUtils.FromIsoFormat: reads only the naive 19-character and aware 25-character stamps. Python's `fromisoformat` accepts more shapes: fractional seconds, `HH:MM` times, a date alone and others. No stamp this program writes has those shapes.
- TimeUtils.FormatForSheets: always pads the year to four digits. `strftime('%Y')` leaves years below 1000 unpadded with glibc; such years do not occur in trip dates.
- TimeUtils.ParseSheetsDateTime: returns `None` for a year out of range. In Python a year too large for a C integer raises `OverflowError`, which the `except ValueError` does not catch.
- HTTP errors on reads: read failures (`get_last_rows`, `find_row_by_uid` and `get_last_user_entry` returning their fallback on `HttpError`) are not modelled. Only append and update consult `Env.sheetsUp`.
- Message contents: message texts, HTML, keyboards, `asyncio.sleep` and callback answers are left out. `Bot.Reply` keeps only what the user is told, in substance. The 64-byte limit on callback data is not modelled.
- Photo flow: OCR and the float litres and confidence are left out. A photo is answered as "not available", which is what the code does while recognition is switched off. `append_measurement` is not defined on the client, so every photo save fails; the model shows this as `Failed`.
- `FUEL_BARS` and `ADMIN_IDS` from the environment are parameters. The export and help handlers only answer.
- pydantic coercion of other types into `int` and `str` fields is not modelled. Every field is assumed to have its declared type.
- Numeric cells: values the Sheets service might coerce to numbers are read back as the text written.
- SheetsClient.NewestFirst: does not state that the keys of each returned dictionary are the full header list, because that ensures made the window lemmas too costly to verify. `ZipHeaders` states the keys.
- Startup: keeps only the top-level statements that bind or read the constructors and the state groups. Decorators are reduced to their first read, and other module-level statements are not modelled.
- The FastAPI server, the Cloudflare worker and the image-recognition services are not part of this model.

## Findings

| source | as written | input that shows it | evidently intended | confidence | as-written member | corrected member |
|---|---|---|---|---|---|---|
| utils_time.py:101 | `dt.isoformat() + "Z"` on an aware UTC datetime gives `…+00:00Z`, which `replace('Z', '+00:00')` turns into the unparseable `…+00:00+00:00`; so the edit window is always closed and no entry is ever a duplicate | any `created_at`, e.g. 2024-05-01 10:00:00 UTC gives `2024-05-01T10:00:00+00:00Z` | a stamp that reads back, such as `2024-05-01T10:00:00Z` | high, not executed | TimeUtils.AsWrittenStampUnreadable | TimeUtils.ZuluStampReadsBack |
| sheets_client.py:196 | the duplicate check gives up on the as-written stamp | a resubmission of the same trip 5 seconds later | a resubmission within 30 s is refused | high, not executed | BotProperties.AsWrittenConfirmIgnoresDuplicates | BotProperties.CorrectedResubmitRefused |
| utils_time.py:127-139 | the edit window never opens for the as-written stamp | the edit button (corrected author), or `/edit_last` sent from a state other than idle or a trip question, one minute after a save | editable for 15 minutes | high, not executed | BotProperties.AsWrittenSavedTripNeverEditable | BotProperties.SavedTripEditableForFifteenMinutes |
| bot.py:868-877 | the "edit" button hands `callback.message` to `start_edit_last_entry`, which takes the author from `message.from_user`, the bot itself | a user presses "edit last" right after saving | the pressing user's own last entry is opened | high, not executed | BotProperties.EditButtonAsWrittenFindsNothing | BotProperties.EditButtonOpensOwnEntry |
| bot.py:40-44 | `UsersRepository(service_account_path=…, sheet_id=…, users_sheet_name=…)` while its `__init__` takes only `users_file` | importing `bot.py` | `UsersRepository()` or `UsersRepository(users_file=…)` | high, not executed | Startup.ImportAsWrittenFails | Startup.ImportCorrectedSucceeds |
| bot.py:173 | the decorator reads `PhotoStates.waiting_manual_odo_bars` before `class PhotoStates` at line 235 | importing `bot.py` with the constructor fixed | the state groups declared before the handlers | high, not executed | Startup.ImportWithFixedRepositoryFails | Startup.ImportCorrectedSucceeds |
