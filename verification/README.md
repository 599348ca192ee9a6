# Database Guardian in Dafny

Database Guardian is a database backup tool. It has two halves: a React dashboard, and a
Go command-line tool for PostgreSQL. This project models the logic both halves contain as
pure Dafny functions over immutable records, and proves what that logic guarantees.

The dashboard side is modelled as follows:

- **Formatting and run records.** `formatFileSize` and `formatDuration`, and the record
  that `createBackup` builds for one backup run (`BackupUtils`).
- **Connection registry.** The engine default ports (`DatabaseUtils`), and the add, edit,
  delete and engine-change handlers of the connections page (`Connect`).
- **Backup history.** The filters, the delete handler and the connection lookup behind a
  restore (`Backups`). Also what a backup card shows and enables (`BackupCard`).
- **Dialogs.** The schedule form of the backup dialog (`BackupModal`). The two-step
  confirmation and item selection of the restore dialog (`RestoreModal`).
- **Session.** The sign-in state machine with its browser storage (`AuthContext`), and
  the two copies of the avatar initials (`Navbar`, `Home`).

The Go side is modelled as follows:

- **Connection string and SQL restore.** The connection URL builder, and the plain SQL
  restore that drops, recreates and replays a database statement by statement
  (`PgUtils`).
- **Restore dispatch.** Choosing a restore routine by file extension (`PgRestore`).
- **Dump.** The dump file's name, timestamp and path, and the order of the steps of a
  full backup (`PgBackup`).

Shared helper modules:

- `Wrappers`: `Option` and `Result`.
- `Seqs`: order-preserving filters and subsequences.
- `Text`: decimal numerals, split and join, JavaScript and Go white space, ASCII lower
  case, substring search, and JavaScript `parseInt`.
- `GoPath`: Go's `filepath.Ext`, `Clean` and `Join` on Unix paths.

Anything drawn from randomness, the clock or the outside world is passed in as a
parameter:

- a run's success, its size and its id;
- "now" at save time and at dump time;
- the outcome of each database request, as a function `fails(index, request)`;
- the parser of stored text that is not a serialized user;
- the result of the `.gz` restore routine.

## Model

| member | source | states |
|---|---|---|
| BackupUtils.UnitIndex | frontend/src/utils/backupUtils.ts:44-47 | The unit of a positive size is the largest power of 1024 not above it: 1024^i <= bytes < 1024^(i+1) |
| BackupUtils.RoundedHundredths | frontend/src/utils/backupUtils.ts:49 | `toFixed(2)` of bytes / 1024^i, as a count of hundredths: the nearest count, with halves rounded up |
| BackupUtils.RenderHundredths | frontend/src/utils/backupUtils.ts:49 | After `parseFloat`, a rendered number with a fraction never ends in the digit 0 |
| BackupUtils.RenderHundredthsRoundTrip | frontend/src/utils/backupUtils.ts:49 | Reading the rendered number back as a decimal gives exactly the rounded hundredths: dropping trailing zeros loses nothing |
| BackupUtils.FormatFileSize | frontend/src/utils/backupUtils.ts:41-50 | Defined by its body. What it guarantees is stated by FileSizeMeaning, FileSizeBelowKilobyte and FileSizeExamples |
| BackupUtils.FileSizeMeaning | frontend/src/utils/backupUtils.ts:44-49 | A positive size renders as two words. The second is `sizes[i]` for the largest power 1024^i not above the size ("undefined" past TB). The first reads back to within half a hundredth of bytes / 1024^i |
| BackupUtils.FileSizeBelowKilobyte | frontend/src/utils/backupUtils.ts:47-49 | From 1 to 1023 bytes the text is the exact byte count followed by " Bytes" |
| BackupUtils.FileSizeExamples | frontend/src/utils/backupUtils.ts:42-49 | 0 gives "0 Bytes", 1536 gives "1.5 KB" (trailing zero dropped), 2^30 gives "1 GB", and 1048575 rounds up to "1024 KB" |
| BackupUtils.FormatDuration | frontend/src/utils/backupUtils.ts:53-65 | Defined by its body. What it guarantees is stated by SecondsWords, MinutesWords, HoursWords and DurationRoundTrip |
| BackupUtils.SecondsWords | frontend/src/utils/backupUtils.ts:54-55 | Below a minute the text is the number followed by "seconds", plural even for 1 |
| BackupUtils.MinutesWords | frontend/src/utils/backupUtils.ts:56-59 | Below an hour the text counts s div 60 minutes and s mod 60 seconds. Each unit is singular exactly when its count is 1 |
| BackupUtils.HoursWords | frontend/src/utils/backupUtils.ts:60-63 | From an hour on, the text counts s div 3600 hours and (s mod 3600) div 60 minutes. Each unit is singular exactly when its count is 1 |
| BackupUtils.DurationRoundTrip | frontend/src/utils/backupUtils.ts:53-65 | Reading a duration text back gives the seconds. From an hour on, only the seconds past the last whole minute are lost |
| BackupUtils.DurationExamples | frontend/src/utils/backupUtils.ts:53-65 | 1 gives "1 seconds", 45 gives "45 seconds", 125 gives "2 mins 5 secs", 3661 gives "1 hour 1 min" |
| BackupUtils.BackupName | frontend/src/utils/backupUtils.ts:79 | Every ':' of the ISO time is replaced, so a ':' in a backup name can only come from the connection name |
| BackupUtils.StartBackup | frontend/src/utils/backupUtils.ts:76-90 | A new run is in progress, belongs to the connection, carries the config, and has one info log "Starting backup process...". It has no end time, size, path or error yet |
| BackupUtils.CreateBackup | frontend/src/utils/backupUtils.ts:76-150 | The run ends in exactly one terminal state: failed exactly when the drawn outcome is a failure, and success reported exactly when completed. The first log entry is kept. A failure sets the end time and the error, and ends the log with an error entry carrying the same message. A success sets the size and a path ending ".gz" or ".sql", and appends four info entries, the last reporting the formatted size |
| BackupUtils.FailedBackup | frontend/src/utils/backupUtils.ts:98-106 | A failure changes only the status, end time, error and log. The log gains exactly one error entry, with the error's own message |
| BackupUtils.CompletedBackup | frontend/src/utils/backupUtils.ts:116-144 | A success changes only the status, end time, size, path and log. The log becomes five info entries, the first unchanged and the last reporting the formatted size |
| BackupUtils.CompletedPathExtension | frontend/src/utils/backupUtils.ts:119 | The path of a completed run ends ".gz" exactly when compression is on, and ".sql" exactly when it is off |
| BackupUtils.RestoreBackup | frontend/src/utils/backupUtils.ts:154-175 | The simulated restore reports success exactly when the drawn outcome is not a failure |
| DatabaseUtils.DefaultPort | frontend/src/utils/databaseUtils.ts:55-67 | The default port is 0 ("no port") exactly for SQLite, and is always a valid TCP port number |
| DatabaseUtils.StandardPorts | frontend/src/utils/databaseUtils.ts:57-62 | MySQL proposes 3306, PostgreSQL 5432 and MongoDB 27017 |
| DatabaseUtils.DefaultPortsDistinct | frontend/src/utils/databaseUtils.ts:55-67 | No two engines share a default port |
| DatabaseUtils.TypeNamesDistinct | frontend/src/utils/databaseUtils.ts:2 | The four engine names are pairwise distinct |
| Connect.DefaultFormPort | frontend/src/pages/Connect.tsx:31-39 | The initial form targets PostgreSQL on "localhost", its port is that engine's default, and the name is empty |
| Connect.ChangeType | frontend/src/pages/Connect.tsx:96-102 | Choosing an engine sets the port to that engine's default and leaves every other form field unchanged |
| Connect.ChangeTypeLastWins | frontend/src/pages/Connect.tsx:96-102 | Of two engine changes in a row, only the last one matters |
| Connect.ChangeTypeKeepsConsistentForm | frontend/src/pages/Connect.tsx:96-102 | Re-selecting the current engine leaves a form that already has its default port unchanged |
| Connect.SetPortText | frontend/src/pages/Connect.tsx:369 | Typing into the port field keeps every other field. Clearing it makes the port NaN |
| Connect.SetPortReadsNumeral | frontend/src/pages/Connect.tsx:369 | Typing a decimal numeral sets the port to its value |
| Connect.FormOf | frontend/src/pages/Connect.tsx:104-116 | Opening a connection for editing fills the form with its name, engine and port, among the other fields |
| Connect.NewConnection | frontend/src/pages/Connect.tsx:163-169 | The saved record holds exactly the form's fields and is marked "connected" with no error. An edit keeps the edited connection's id, creation time and last backup time. An add gets the fresh id, the current time and no backup yet |
| Connect.EditUnchangedForm | frontend/src/pages/Connect.tsx:104-169 | Saving an edit without touching the form gives back the same connection, now marked "connected" |
| Connect.ReplaceById | frontend/src/pages/Connect.tsx:173-175 | The list keeps its length. Exactly the elements with the edited id are replaced |
| Connect.ReplaceByIdIdempotent | frontend/src/pages/Connect.tsx:173-175 | Replacing by id a second time with the same record changes nothing |
| Connect.SaveConnection | frontend/src/pages/Connect.tsx:152-192 | A name that is blank after trimming is rejected and the list is unchanged. An add appends exactly one connection at the end, with no backup yet. An edit keeps the length and replaces exactly the elements with the edited id by the record built from the form, which keeps that connection's id, creation time and last backup time. Every other element is unchanged |
| Connect.OnlyNameValidated | frontend/src/pages/Connect.tsx:152-169 | Only the name is validated: a form with an empty host, user, password and database is still accepted |
| Connect.ClearedPortSaved | frontend/src/pages/Connect.tsx:152-183 | A named form whose port field was cleared is still saved, with the port NaN |
| Connect.EditKeepsIds | frontend/src/pages/Connect.tsx:164-175 | An edit never changes the id at any position of the list |
| Connect.EditIdempotent | frontend/src/pages/Connect.tsx:152-192 | Saving the same edit twice gives the same list as saving it once |
| Connect.DeleteConnection | frontend/src/pages/Connect.tsx:214-226 | With a connection marked, every connection with its id is removed and every other one is kept. With none marked, nothing changes |
| Connect.DeleteKeepsOrder | frontend/src/pages/Connect.tsx:216 | The remaining connections keep their relative order |
| Connect.DeleteUndoesAdd | frontend/src/pages/Connect.tsx:152-226 | Deleting a connection just added under a fresh id gives back the original list |
| Connect.DeleteIdempotent | frontend/src/pages/Connect.tsx:216 | Deleting the same connection twice has the effect of deleting it once |
| Backups.ApplyFilters | frontend/src/pages/Backups.tsx:154-173 | Soundness: every backup shown comes from the history. Its lower-cased name contains the lower-cased search text, and it matches the status and connection filters unless they are "all" |
| Backups.StagesAreFilters | frontend/src/pages/Backups.tsx:157-170 | Skipping a stage when its filter is empty or "all" is the same as applying that stage's test to every backup |
| Backups.ApplyFiltersIsOneFilter | frontend/src/pages/Backups.tsx:154-173 | The three stages in sequence equal a single filter by the conjunction of the three conditions |
| Backups.ApplyFiltersComplete | frontend/src/pages/Backups.tsx:157-170 | Completeness: every backup meeting all three conditions is shown |
| Backups.ApplyFiltersKeepsOrder | frontend/src/pages/Backups.tsx:155-172 | The list shown is an order-preserving subsequence of the history |
| Backups.ApplyFiltersIdempotent | frontend/src/pages/Backups.tsx:154-173 | Filtering an already filtered list again changes nothing |
| Backups.ApplyFiltersCommute | frontend/src/pages/Backups.tsx:154-173 | Two filter settings applied one after the other give the same list in either order |
| Backups.SearchIgnoresCase | frontend/src/pages/Backups.tsx:157-161 | Lower-casing the search text does not change the result |
| Backups.ResetShowsAll | frontend/src/pages/Backups.tsx:175-181 | The reset filters show the whole history unchanged |
| Backups.DeleteBackup | frontend/src/pages/Backups.tsx:188-201 | The marked backup's id disappears from both the history and the shown list. Every other backup stays in each, and nothing is added. With none marked nothing changes |
| Backups.DeleteKeepsViewCoherent | frontend/src/pages/Backups.tsx:150-191 | If the shown list was the filtered history, after a delete it is still the filtered history |
| Backups.FindConnection | frontend/src/pages/Backups.tsx:209 | `find` returns the first connection with the id, or nothing exactly when no connection has it |
| Backups.RestoreTarget | frontend/src/pages/Backups.tsx:208-211 | A restore goes ahead only with a listed connection whose id is the backup's connection id, and is refused only when no such connection exists |
| Backups.Insert | frontend/src/pages/Backups.tsx:123 | Inserting into a newest-first list keeps it newest-first and adds exactly the one backup |
| Backups.SortNewestFirst | frontend/src/pages/Backups.tsx:123 | The generated history is a permutation of the backups, ordered by start time, newest first |
| BackupCard.RoundSeconds | frontend/src/components/BackupCard.tsx:25-27 | `Math.round(ms / 1000)`: the whole number of seconds within half a second of the milliseconds, halves rounded up |
| BackupCard.RoundSecondsUnique | frontend/src/components/BackupCard.tsx:26 | That whole number is the only one with this property |
| BackupCard.Duration | frontend/src/components/BackupCard.tsx:25-27 | There is a duration exactly when the run has an end time, and it is the rounded number of seconds between start and end |
| BackupCard.DurationNonNegative | frontend/src/components/BackupCard.tsx:25-27 | A run that ends no earlier than it starts has a non-negative duration |
| BackupCard.CreatedBackupEnablement | frontend/src/components/BackupCard.tsx:139-147 | Download and Restore are enabled only for completed backups, so for a new run exactly when it succeeded |
| BackupCard.Badges | frontend/src/components/BackupCard.tsx:50-73 | Exactly one status badge is shown, and it is the status's own label: "Completed", "Pending", "In Progress" or "Failed" |
| BackupCard.BadgesInjective | frontend/src/components/BackupCard.tsx:50-73 | Different statuses show different badges |
| BackupCard.Rows | frontend/src/components/BackupCard.tsx:93-110 | The size row is shown only for a truthy size (size 0 is hidden) and shows the formatted size. The duration row is shown exactly when there is an end time. The error row is shown only for a non-empty error |
| BackupCard.CreatedBackupRows | frontend/src/components/BackupCard.tsx:93-110 | A new run always shows its duration. A success shows its size unless it is 0, and no error. A failure shows the failure message and no size |
| BackupModal.Submit | frontend/src/components/BackupModal.tsx:37-58 | The four backup settings are copied verbatim. A schedule exists exactly when scheduling is on, with the form's frequency and time. It has a day exactly for weekly and monthly schedules, and that day is `parseInt` of the form's text. It never has a custom expression |
| BackupModal.DefaultSubmit | frontend/src/components/BackupModal.tsx:27-34 | The untouched form submits a full, compressed, local backup to "/backups" with no schedule |
| BackupModal.WeekdayOptionsParse | frontend/src/components/BackupModal.tsx:234-240 | The i-th weekday option is submitted as the day number i |
| BackupModal.MonthDayOptionsParse | frontend/src/components/BackupModal.tsx:257-261 | The i-th day-of-month option is submitted as the day number i + 1 |
| BackupModal.WeeklyScheduleCanCarryDay31 | frontend/src/components/BackupModal.tsx:53-56 | The day is one state shared by both frequencies and is never range-checked. Picking day 31 and then switching to weekly submits a weekly schedule whose day 31 is no weekday |
| BackupModal.SubmittedDayRoundTrip | frontend/src/components/BackupModal.tsx:53-56 | Every day text the selects offer parses to a non-negative number that prints back as the same text |
| RestoreModal.Toggle | frontend/src/components/RestoreModal.tsx:79-85 | After a toggle the item is selected exactly when it was not before. Every other selected item stays selected and nothing else is added |
| RestoreModal.ToggleTwiceSameSet | frontend/src/components/RestoreModal.tsx:79-85 | Toggling the same item twice restores the original set of selected items |
| RestoreModal.ToggleTwiceUnselected | frontend/src/components/RestoreModal.tsx:79-85 | Toggling an unselected item twice restores the original list exactly |
| RestoreModal.ToggleNoDuplicates | frontend/src/components/RestoreModal.tsx:79-85 | Toggling never creates a duplicate |
| RestoreModal.HandleRestore | frontend/src/components/RestoreModal.tsx:57-77 | The first press only sets the confirmation and restores nothing. A confirmed press starts loading and hands over exactly the drop, selective and selected-items options |
| RestoreModal.TwoPressesToRestore | frontend/src/components/RestoreModal.tsx:57-77 | From an unconfirmed dialog, the second press, not the first, hands over the options as they stood |
| RestoreModal.Step | frontend/src/components/RestoreModal.tsx:44-184 | Closing or finishing resets all five fields. Options are handed over only by a confirmed press of an enabled button. A press of a disabled button (loading, or a selective restore with nothing selected) changes nothing |
| RestoreModal.StepKeepsSelectionValid | frontend/src/components/RestoreModal.tsx:128-133 | Every action keeps the selection free of duplicates and within the available items |
| RestoreModal.RestoredOptionsValid | frontend/src/components/RestoreModal.tsx:63-73 | Handed-over options select only available items, without duplicates, and a selective restore selects at least one |
| RestoreModal.SelectiveOffKeepsItems | frontend/src/components/RestoreModal.tsx:118-121 | Turning selective restore off keeps the items selected so far |
| AuthContext.Initial | frontend/src/contexts/AuthContext.tsx:21-23 | The provider starts signed out, without a user and not yet initialized |
| AuthContext.Load | frontend/src/contexts/AuthContext.tsx:27-41 | The mount effect always initializes the provider. Absent or empty storage changes nothing else. An entry that fails to parse is removed. One that parses becomes the user and signs in |
| AuthContext.LoadConsistent | frontend/src/contexts/AuthContext.tsx:27-41 | After loading, "authenticated" holds exactly when there is a user, unless the stored text parses to null |
| AuthContext.LoadOfNullIsInconsistent | frontend/src/contexts/AuthContext.tsx:30-33 | A stored "null" parses to no user yet signs in, so authenticated and "no user" hold together |
| AuthContext.Login | frontend/src/contexts/AuthContext.tsx:43-58 | Sign-in succeeds exactly when email and password are both non-empty. It then sets the user to the email with no name, signs in and stores that user. A failed sign-in changes nothing. Neither outcome changes whether the stored session has been loaded |
| AuthContext.Register | frontend/src/contexts/AuthContext.tsx:60-75 | Registration succeeds exactly when name, email and password are all non-empty. It then sets and stores the user with that name. A failure changes nothing. Neither outcome changes whether the stored session has been loaded |
| AuthContext.Logout | frontend/src/contexts/AuthContext.tsx:77-82 | Sign-out clears the user, the authenticated flag and the stored entry |
| AuthContext.TransitionsKeepConsistent | frontend/src/contexts/AuthContext.tsx:43-82 | Sign-in, registration and sign-out all keep "authenticated exactly when there is a user" |
| AuthContext.PasswordNotChecked | frontend/src/contexts/AuthContext.tsx:47 | Any two non-empty passwords give the same sign-in |
| AuthContext.LoginPersists | frontend/src/contexts/AuthContext.tsx:27-58 | After a successful sign-in, a reload restores the same user, signed in |
| AuthContext.LogoutPersists | frontend/src/contexts/AuthContext.tsx:27-82 | After a sign-out, a reload stays signed out |
| Navbar.FirstCharText | frontend/src/components/Navbar.tsx:66 | In the template, the first character of a non-empty word is itself, and that of an empty word is the text "undefined" |
| Navbar.GetUserInitials | frontend/src/components/Navbar.tsx:61-69 | Defined by its body. What it guarantees is stated by NoNameInitials, InitialsOfOneWord, InitialsOfTwoWords and InitialsLength, and the corrected rule by CorrectedInitials |
| Navbar.NoNameInitials | frontend/src/components/Navbar.tsx:62 | No user, or a user without a name, shows "U" |
| Navbar.InitialsOfOneWord | frontend/src/components/Navbar.tsx:64-68 | A name without spaces shows its first character |
| Navbar.InitialsOfTwoWords | frontend/src/components/Navbar.tsx:64-66 | A name of two or more single-space-separated words shows the first characters of the first two; later words are ignored |
| Navbar.InitialsLength | frontend/src/components/Navbar.tsx:64-68 | The initials have at most two characters exactly when the name is one word or its first two words are non-empty |
| Navbar.LeadingSpaceInitials | frontend/src/components/Navbar.tsx:64-66 | The name " Bob" shows "undefinedB"; the corrected rule shows "B" |
| Navbar.CorrectedInitials | frontend/src/components/Navbar.tsx:61-69 | Corrected initials are one or two characters. They are "U" without a name or for a blank one, and otherwise only non-space characters of the name |
| Navbar.CorrectedAgreesOnWellSpacedNames | frontend/src/components/Navbar.tsx:61-69 | On names whose words are all non-empty, the corrected rule and the code agree |
| Home.GetUserInitials | frontend/src/pages/Home.tsx:89-97 | Defined by its body, a copy of the navigation bar's rule; SameAsNavbar states that the two agree |
| Home.SameAsNavbar | frontend/src/pages/Home.tsx:89-97 | The landing page's copy gives the same initials as the navigation bar's for every user |
| Home.LeadingSpaceInitials | frontend/src/pages/Home.tsx:92-94 | The landing page also shows "undefinedB" for " Bob" |
| Text.ParseIntRoundTrip | frontend/src/components/BackupModal.tsx:54 | `parseInt` reads back every decimal numeral |
| GoPath.Ext | pkg/restore/postgres.go:17 | The extension is a suffix of the path. It is empty or starts with the only '.' of the suffix and contains no separator. It is empty exactly when every '.' in the path is followed by a separator |
| GoPath.ExtOfLastElement | pkg/restore/postgres.go:17 | The extension depends only on the final path element |
| GoPath.ExtExamples | pkg/restore/postgres.go:17-18 | "backup.sql.gz" has ".gz", "backup.GZ" has ".GZ", and "dump.gz/backup" has none |
| GoPath.CleanExamples | pkg/backup/postgres.go:34 | Cleaning "" gives ".", "a/.." gives ".", and "/.." gives "/" |
| GoPath.CleanKeepsLastElement | pkg/backup/postgres.go:34 | Cleaning keeps a final element that is not "", "." or "..", as a whole element at the end |
| GoPath.JoinPathKeepsSqlExt | pkg/backup/postgres.go:34 | Joining any directory with a name ending ".sql" gives a path whose extension is ".sql" |
| PgUtils.GenerateConnectionString | pkg/utils/postgres.go:20-25 | An error exactly when a parameter is empty. Otherwise a URL that starts "postgres://" and ends "?sslmode=disable" |
| PgUtils.UrlShape | pkg/utils/postgres.go:24 | The URL is user:password@host:port/name between the fixed prefix and suffix, values inserted verbatim, the database name last although it is the first argument |
| PgUtils.ConnectionStringRoundTrip | pkg/utils/postgres.go:24 | Values free of ':', '@' and '/' can be read back from the URL |
| PgUtils.ConnectionStringAmbiguous | pkg/utils/postgres.go:24 | Without escaping, moving an "@…" tail of the password into the host gives different parameters but the same URL |
| PgUtils.AmbiguousExample | pkg/utils/postgres.go:24 | Password "b@c" with host "d", and password "b" with host "c@d", give the same URL |
| PgUtils.Statements | pkg/utils/postgres.go:146-150 | Trimming and skipping keeps at most as many pieces as the split gave, and none of them is empty |
| PgUtils.SqlStatementsClean | pkg/utils/postgres.go:143-150 | Whatever the file holds, every executed statement is non-empty, contains no ';' and has no white space at either end |
| PgUtils.StatementsAppend | pkg/utils/postgres.go:146-150 | The statements of two runs of pieces are the statements of each, in order |
| PgUtils.SqlStatementsRoundTrip | pkg/utils/postgres.go:143-150 | Clean statements joined with ';' are executed back exactly, in order |
| PgUtils.SqlStatementsWithTrailer | pkg/utils/postgres.go:143-150 | A final ';' followed only by white space adds no statement |
| PgUtils.FirstFailure | pkg/utils/postgres.go:146-156 | The step where the loop stops is the first request that fails, or the end of the plan |
| PgUtils.FirstFailureUnique | pkg/utils/postgres.go:146-156 | That stopping step is the only one with this property |
| PgUtils.Outcome | pkg/utils/postgres.go:82-156 | The requests issued are a prefix of the plan, and all but the last succeeded. The run returns no error exactly when the whole plan ran without a failure. Otherwise it returns the error of the last request issued |
| PgUtils.RunPlan | pkg/utils/postgres.go:146-156 | The loop issues requests in order and stops at the first failure, with the outcome above |
| PgUtils.RestorePlan | pkg/utils/postgres.go:74-156 | The plan opens the admin URL, drops and then creates the database, and opens the target URL. It then executes each statement of the file in order |
| PgUtils.RestoreSqlFile | pkg/utils/postgres.go:74-158 | The restore runs that plan, with an empty URL where a connection string could not be generated |
| PgUtils.RestorePlanOpens | pkg/utils/postgres.go:82-121 | Only two requests open connections: the first opens the admin URL and the fifth the target URL |
| PgUtils.DropAndCreateFirst | pkg/utils/postgres.go:96-110 | No statement of the file runs unless the drop and the create of the target database both succeeded |
| PgUtils.StatementsInOrder | pkg/utils/postgres.go:146-156 | Statements are executed in file order, and every statement before the last one issued succeeded |
| PgUtils.RestoreWithEmptyHostOpensEmptyUrl | pkg/utils/postgres.go:76-82 | As written, an empty host makes the restore open the empty connection string |
| PgUtils.CorrectedRestore | pkg/utils/postgres.go:76-119 | The corrected restore returns the error before any request when the admin parameters are incomplete. When only the target's are incomplete, it stops with an error before opening the target |
| PgUtils.CorrectedNeverOpensEmpty | pkg/utils/postgres.go:76-121 | The corrected restore never opens the empty connection string |
| PgUtils.CorrectedAgreesWhenPresent | pkg/utils/postgres.go:74-158 | With every parameter present, the corrected restore is the restore as written |
| PgRestore.RouteOf | pkg/restore/postgres.go:17-21 | The decompressing route is taken exactly when Go's `filepath.Ext` of the path is ".gz", compared case-sensitively; every other path is restored as plain SQL |
| PgRestore.RouteExamples | pkg/restore/postgres.go:17-21 | "backup.sql.gz" goes through decompression; "backup.GZ" and "dump.gz/backup" are restored as plain SQL |
| PgRestore.RestorePostgres | pkg/restore/postgres.go:13-28 | ".gz" files return the decompression routine's result as it is. The process exits exactly when a plain SQL restore fails, with that error |
| PgRestore.ReturnedErrorsComeFromGz | pkg/restore/postgres.go:18-24 | Any error the caller receives comes from the ".gz" routine |
| PgRestore.BackupsRestoreAsSql | pkg/backup/postgres.go:34 | A file written by a full backup is always restored as plain SQL |
| PgBackup.FormatTimestamp | pkg/backup/postgres.go:34 | Defined by its body: the layout "20060102T150405". What it guarantees is stated by TimestampShape, TimestampFields, TimestampRoundTrip and TimestampInjective |
| PgBackup.TimestampShape | pkg/backup/postgres.go:34 | The layout "20060102T150405" gives fifteen characters: eight digits, 'T', six digits |
| PgBackup.TimestampFields | pkg/backup/postgres.go:34 | The year, month, day, hour, minute and second stand zero-padded at fixed positions |
| PgBackup.TimestampRoundTrip | pkg/backup/postgres.go:34 | The timestamp reads back to the same date and time |
| PgBackup.TimestampInjective | pkg/backup/postgres.go:34 | Two different valid readings of the clock, to the second, never give the same timestamp |
| PgBackup.DumpFileName | pkg/backup/postgres.go:34 | The dump file's name always ends ".sql" |
| PgBackup.DumpPath | pkg/backup/postgres.go:34 | The dump path's extension is always ".sql", although a gzip writer is opened on the file (line 44) |
| PgBackup.FullBackup | pkg/backup/postgres.go:19-57 | A missing parameter exits before anything is touched. The backup is saved exactly when every parameter is present and the directory, the file and the dump all succeed. It is saved at the dump path, and the first step is always the directory |
| PgBackup.BackupSteps | pkg/backup/postgres.go:26-53 | After the connection string, the steps start with the directory and never exit the process. They succeed exactly when no step fails, and save at the given path |
| PgBackup.PortNeverMissing | pkg/backup/postgres.go:19-20 | The port, an integer rendered in decimal, is never the missing parameter |
| PgBackup.FailedDumpRemovesFile | pkg/backup/postgres.go:50-53 | A failed dump removes the file it created, as its last step |
| PgBackup.EffectsUseDumpPath | pkg/backup/postgres.go:34-53 | Every step after the directory acts on the dump path, whose extension is ".sql". The dump reads from the generated URL |

## Left out

- Randomness, timers and I/O are not modelled. This covers the simulated delays, `Math.random`, `Date.now` ids, toasts, navigation, React rendering and animation. One rendering quirk is left out with it: the card's size row is guarded by `{backup.size && …}` (frontend/src/components/BackupCard.tsx:93), so a size of 0 makes React print the number 0 in its place. The outcomes and clock readings these produce are parameters.
- `testDatabaseConnection`, `getConnectionStats` and `generateMockBackups` produce random demo data and are not modelled. The sort of the generated history is modelled.
- BackupUtils.UnitIndex: the code picks the unit with floating-point `Math.log(bytes) / Math.log(1024)`. The model uses the exact largest power of 1024 not above the size, so a rounding of the logarithm at an exact power is not modelled.
- The size number is modelled exactly, not in floating point. The quotient by a power of two is exact, `toFixed(2)` rounds halves up and `parseFloat` drops trailing zeros.
- Strings are sequences of characters, not UTF-16 code units, so characters outside the Basic Multilingual Plane are one character here. Go strings are modelled the same way, not as UTF-8 bytes.
- `toLowerCase` is modelled on the ASCII letters only.
- JSON parsing of the stored session covers a serialized user and other text. Other text goes through a parser given as a parameter.
- The storage-type label, the capitalisation of engine names and the log colours on the cards are presentation only and not modelled.
- Sort stability among backups with equal start times is not modelled. `SortNewestFirst` promises order and permutation only.
- `RestoreGzFile` creates a temporary directory, decompresses the file into `backup.sql` there, and ends by calling `RestoreSqlFile` on that file (pkg/utils/postgres.go:54-70). The temporary directory and the decompression are file I/O and are not modelled, so the route's result is a parameter of `RestorePostgres`. That final step is the SQL restore modelled by `PgUtils.RestoreSqlFile`, and on this route its errors are returned to the caller rather than ending the process through `Fatal`.
- `db.Close`, the deferred closes and all logging are not modelled. The logger's `Fatal` is modelled as the process exiting with the message.
- The gzip writer that `FullBackup` opens on the dump file is not modelled. Nothing is written through it, but its deferred `Close` writes an empty gzip stream (header, empty block, trailer) through the file's own handle, still at offset 0, after the dumper has written the dump by path. That overwrites the first bytes of the dump. The model tracks which files are created and removed, not their bytes.
- `pgdump`, `os.MkdirAll`, `os.Create` and `os.Remove` are modelled as named effects whose failures are parameters.
- `FullBackup` declares the port as `int`, while `GenerateConnectionString` takes a string. The model renders the port in decimal.
- The behaviour of the PostgreSQL driver on an empty connection string (it falls back to its defaults) is not modelled. The model records that the empty string is opened.
- PgBackup.TimestampRoundTrip: years are restricted to 0 to 9999 because the reader takes the year from a fixed four-digit field. Go's "2006" layout prints every digit of a larger year, as `PadNat` does, so the text then has more than fifteen characters.
- PgBackup.TimestampInjective: the timestamp has one-second resolution and is local time. Two backups of the same database within one second, or in the repeated hour when daylight saving time ends, get the same path, and `os.Create` truncates the earlier file. The model takes the clock reading as given and does not model time zones.
- Paths are Unix paths with the separator '/'; Windows volume names are not modelled.
- The `cmd` wiring, the scheduler, storage back ends and the tests need a live database or cloud account, and are not part of this model. So are the documentation site and the pages without logic.

## Findings

| source | as written | input that shows it | evidently intended | confidence | as-written member | corrected member |
|---|---|---|---|---|---|---|
| frontend/src/components/Navbar.tsx:64-66 | The name is split on single spaces and the first character of the first two pieces is taken. An empty piece has no first character and renders as "undefined" | A user named " Bob" (or "Bob  Smith") | Initials of the first two non-empty words: "B" (or "BS") | not executed | Navbar.LeadingSpaceInitials | Navbar.CorrectedAgreesOnWellSpacedNames |
| pkg/utils/postgres.go:76-79 | When the connection string cannot be generated the error is logged but not returned, and `sql.Open` is called with the empty string. The same happens again at lines 116-119 | `RestoreSqlFile` with an empty host | Return the error before any connection is opened | not executed | PgUtils.RestoreWithEmptyHostOpensEmptyUrl | PgUtils.CorrectedNeverOpensEmpty |
