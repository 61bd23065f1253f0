# CanvasCalendar: the Canvas synchronisation core, modelled in Dafny

CanvasCalendar is a .NET MAUI app. It pulls a student's upcoming assignments from the
Canvas LMS REST API and keeps them in a local SQLite store. This project models the
core of that app and proves properties of the model:

- **Sync.** `AssignmentSyncService.SyncWithCanvasAsync` runs in this order:
  1. checks the configured credentials;
  2. asks the gateway once for the upcoming assignments;
  3. stores every embedded course whose CanvasId is not stored yet, first seen wins;
  4. re-parents each assignment to its local course row;
  5. inserts new assignments and merges fetched data into stored ones;
  6. reports the counts of new rows, or the exception that stopped it.
- **The two repositories.** They are modelled as tables with these rules:
  - rows are held in rowid order;
  - IDs are AUTOINCREMENT;
  - the CanvasId column is UNIQUE;
  - a save inserts when the ID is 0 and otherwise updates by ID;
  - delete is by ID, with ordered list and range reads;
  - every assignment read has its course loaded through the course repository.
- **Credential resolution.** Covers the user-secrets/preferences fallback, the settings
  service's validation, and the test dictionary that stands in for MAUI Preferences.
- **Small pure helpers.** The Canvas DTO mapping and URL trimming, the course lookup of
  the assignment plugin, the XAML converters, the exception-to-message classification and
  the calculator plugin.

## Layout

- `wrappers.dfy`: `Option` and `Result`.
- `exceptions.dfy`: the exception types the code distinguishes.
- `text.dfy`: the .NET string operations used, on `seq<char>`.
- `ordering.dfy`: `ORDER BY` as a sort by a key.
- `models.dfy`: the `Course` and `Assignment` records with their defaults.
- `table.dfy`: the SQL semantics both tables share.
- `course_repository.dfy`, `assignment_repository.dfy`: each repository is a pure
  specification over the table, plus a class whose methods are proved equal to it.
- `preferences.dfy`, `configuration.dfy`, `settings.dfy`: credentials.
- `canvas_service.dfy`: the mapping and URL helpers, and the gateway's answer given the
  HTTP outcome.
- `assignment_sync.dfy`: the sync.
  - `Sync` is its pure specification. The two loops are folds: `CoursesPass` and
    `AssignmentsPass`.
  - `AssignmentSyncService` is the class whose loops are proved to compute those folds.
- `assignment_plugin.dfy`, `converters.dfy`, `error_handler.dfy`, `calculator.dfy`: the helpers.

Modelling choices:

- The gateway is a function parameter. `fetch(url, token)` gives the assignments or the
  exception thrown.
- The clock is a parameter `now`. A `DateTime` is its tick count.
- The outcome of each table's `CREATE TABLE` is a constructor argument, `schemaError`.
  `None` means the statement succeeds.

## Model

| member | source | states |
|---|---|---|
| Models.StatusToInt | CanvasCalendar/Models/Assignment.cs:33-40 | the persisted ordinals are 0..4, and 0 is exactly `New` |
| Models.StatusRoundTrip | CanvasCalendar/Data/AssignmentRepository.cs:270 | writing a status as its ordinal and casting it back gives the same status; every ordinal 0..4 belongs to exactly one status |
| Models.Course.ToString | CanvasCalendar/Models/Course.cs:23 | the text is the code, then " - ", then the name |
| Models.Assignment.ToString | CanvasCalendar/Models/Assignment.cs:30 | the text is the title |
| Models.NewCourse | CanvasCalendar/Models/Course.cs:8-21 | a fresh course has ID 0 (not stored yet), empty strings and no assignments |
| Models.NewAssignment | CanvasCalendar/Models/Assignment.cs:8-28 | a fresh assignment has ID 0, CourseID 0, no course, status New, Published false, zero points and empty strings |
| Ordering.SortBy | CanvasCalendar/Data/CourseRepository.cs:66 | the result is sorted by the key and is a permutation of the input |
| Ordering.InsertBySorted | CanvasCalendar/Data/AssignmentRepository.cs:71 | inserting into a sorted sequence keeps it sorted |
| Ordering.PermutationMembers | CanvasCalendar/Data/AssignmentRepository.cs:117 | a permutation holds only members of the original |
| Ordering.IntKeyOrder | CanvasCalendar/Data/AssignmentRepository.cs:117 | ordering by the one-integer key is ordering by the integer |
| Ordering.SortBySortedIsIdentity | CanvasCalendar/Data/CourseRepository.cs:66 | rows already in key order come out unchanged, so rows with one key keep their rowid order |
| Ordering.TiesKeepInputOrder | CanvasCalendar/Data/AssignmentRepository.cs:71 | two rows with equal keys come out in the order they were stored |
| Table.EmptyTable | CanvasCalendar/Data/CourseRepository.cs:235 | a dropped table is empty and valid |
| Table.Distinct | CanvasCalendar/Data/CourseRepository.cs:33-34 | in a valid table no two rows share an ID or a CanvasId, and IDs rise with rowid order |
| Table.FindById | CanvasCalendar/Data/CourseRepository.cs:101 | `WHERE ID = @id` finds a row exactly when one has that ID, and the row it finds has it |
| Table.FindByCanvasId | CanvasCalendar/Data/CourseRepository.cs:136 | `WHERE CanvasId = @canvasId` finds a row exactly when one has that CanvasId |
| Table.FindsItsRow | CanvasCalendar/Data/CourseRepository.cs:101-136 | in a valid table each row is what the lookups by its ID and by its CanvasId find |
| Table.InsertIssuesFreshId | CanvasCalendar/Data/CourseRepository.cs:171-177 | an insert fails with the UNIQUE error exactly when the CanvasId is taken; otherwise it appends one row whose ID is one above every ID issued before, and the table stays valid |
| Table.UpdateReplacesOneRow | CanvasCalendar/Data/CourseRepository.cs:180-187 | an update fails exactly when the row exists and another row holds its CanvasId; otherwise only the row with that ID is replaced, and none is replaced when no row has the ID |
| Table.UpdateKeepsKeys | CanvasCalendar/Data/AssignmentRepository.cs:255-260 | an update that keeps the row's CanvasId succeeds and keeps every ID and CanvasId in place |
| Table.IndexOfId | CanvasCalendar/Data/CourseRepository.cs:219 | the index of the row with the ID, or -1 exactly when there is none |
| Table.RemoveAt | CanvasCalendar/Data/CourseRepository.cs:219 | removing row k keeps every other row in order |
| Table.RemoveAtValid | CanvasCalendar/Data/CourseRepository.cs:219 | removing a row keeps the table valid and leaves no row with its ID |
| Table.DeleteRemovesOneRow | CanvasCalendar/Data/CourseRepository.cs:212-223 | delete removes only the row with the ID, keeps every other row, and reports 1 or 0 rows affected |
| Table.HasCanvasIdAppend | CanvasCalendar/Data/CourseRepository.cs:171-177 | after an append, a CanvasId is present exactly when it was before or the new row has it |
| Table.KeptKeyPresent | CanvasCalendar/Data/AssignmentRepository.cs:255-260 | a CanvasId survives a change that keeps keys |
| CourseRepository.ReadWritten | CanvasCalendar/Data/CourseRepository.cs:107-120 | reading back a row written from a course gives the course, with its new ID and without assignments |
| CourseRepository.GetsItsRow | CanvasCalendar/Data/CourseRepository.cs:94-159 | each stored course is what GetAsync finds by its ID and GetByCanvasIdAsync by its CanvasId |
| CourseRepository.ListIsPermutation | CanvasCalendar/Data/CourseRepository.cs:59-89 | the list holds one course per row, every stored course, and nothing else |
| CourseRepository.ListIsSortedByCode | CanvasCalendar/Data/CourseRepository.cs:66 | the list is ordered by Code, code point by code point |
| CourseRepository.SaveNewCourse | CanvasCalendar/Data/CourseRepository.cs:171-206 | with ID 0, a taken CanvasId fails with the UNIQUE error. Otherwise the new ID is one above every earlier ID and is written back into the item. The course is then found by that ID and its CanvasId, and every earlier course reads as before |
| CourseRepository.SaveExistingCourse | CanvasCalendar/Data/CourseRepository.cs:180-206 | with a non-zero ID and no such row, nothing changes. A CanvasId held by another row fails. Otherwise the row reads back as the item, and every other row reads as before |
| CourseRepository.SaveKeepsValid | CanvasCalendar/Data/CourseRepository.cs:164-206 | a successful save leaves a valid table |
| CourseRepository.DeleteCourse | CanvasCalendar/Data/CourseRepository.cs:212-223 | afterwards no course has the ID; the count is 1 exactly when one had it; every other course reads as before |
| CourseRepository.CourseRepository.Init | CanvasCalendar/Data/CourseRepository.cs:20-54 | CREATE runs until it succeeds once: its error is rethrown, and the flag is set exactly on success |
| CourseRepository.CourseRepository.ListAsync | CanvasCalendar/Data/CourseRepository.cs:59-89 | the read loop's result is the ordered list, or the CREATE error |
| CourseRepository.CourseRepository.GetAsync | CanvasCalendar/Data/CourseRepository.cs:94-124 | the course with that ID, or null, or the CREATE error |
| CourseRepository.CourseRepository.GetByCanvasIdAsync | CanvasCalendar/Data/CourseRepository.cs:129-159 | the course with that CanvasId, or null, or the CREATE error |
| CourseRepository.CourseRepository.SaveItemAsync | CanvasCalendar/Data/CourseRepository.cs:164-206 | the new table and the returned ID are those of the save specification, and the caller's item gets the new ID |
| CourseRepository.CourseRepository.DeleteItemAsync | CanvasCalendar/Data/CourseRepository.cs:212-223 | the table loses the row with the item's ID, and the rows affected are returned |
| CourseRepository.CourseRepository.DropTableAsync | CanvasCalendar/Data/CourseRepository.cs:228-239 | the table is empty and the init flag is cleared |
| AssignmentRepository.SortKeepsStatuses | CanvasCalendar/Data/AssignmentRepository.cs:71 | ordering the rows keeps their count and their valid status ordinals |
| AssignmentRepository.InRange | CanvasCalendar/Data/AssignmentRepository.cs:116 | the rows kept are exactly the stored rows with startDate <= DueDate <= endDate |
| AssignmentRepository.ReadWritten | CanvasCalendar/Data/AssignmentRepository.cs:266-273 | a row written from an assignment reads back as the assignment with its ID. This includes Status (stored as an int) and Published (stored as 1/0, read as == 1). Its course is loaded |
| AssignmentRepository.GetsItsRow | CanvasCalendar/Data/AssignmentRepository.cs:156-230 | each stored assignment is what the lookups by its ID and by its CanvasId find |
| AssignmentRepository.SaveKeepsWellFormed | CanvasCalendar/Data/AssignmentRepository.cs:236-283 | a successful save leaves a valid table whose statuses are all defined ordinals |
| AssignmentRepository.ReadAllMembers | CanvasCalendar/Data/AssignmentRepository.cs:75-99 | the read loop gives one assignment per row, in row order, each with its course |
| AssignmentRepository.ReadAllSorted | CanvasCalendar/Data/AssignmentRepository.cs:71 | rows sorted by DueDate read as assignments ordered by DueDate |
| AssignmentRepository.ListIsSortedPermutation | CanvasCalendar/Data/AssignmentRepository.cs:64-101 | ListAsync holds every stored assignment with its course and nothing else, in ascending DueDate order |
| AssignmentRepository.RangeHasEveryDue | CanvasCalendar/Data/AssignmentRepository.cs:107-150 | every stored assignment due between the two dates, both included, is returned with its course |
| AssignmentRepository.RangeHasOnlyDue | CanvasCalendar/Data/AssignmentRepository.cs:107-150 | every assignment returned is a stored one, with its course, due between the two dates |
| AssignmentRepository.RangeIsOrdered | CanvasCalendar/Data/AssignmentRepository.cs:117 | the range result is in ascending DueDate order |
| AssignmentRepository.SaveNewAssignment | CanvasCalendar/Data/AssignmentRepository.cs:243-283 | with ID 0, a taken CanvasId fails with the UNIQUE error. Otherwise the new ID is one above every earlier ID, is written back, and reads back with its course by ID and by CanvasId. Every earlier row reads as before |
| AssignmentRepository.SaveExistingAssignment | CanvasCalendar/Data/AssignmentRepository.cs:254-283 | with a non-zero ID, every column of that row is overwritten and it reads back as the item. Other rows are as before. A missing row changes nothing, and a clashing CanvasId fails |
| AssignmentRepository.DeleteAssignment | CanvasCalendar/Data/AssignmentRepository.cs:289-300 | only the row with the item's ID is removed, and 1 or 0 is reported |
| AssignmentRepository.CourseIdZeroHasNoCourse | CanvasCalendar/Data/AssignmentRepository.cs:98 | CourseID 0 never matches a course row, so Course is null |
| AssignmentRepository.AssignmentRepository.Init | CanvasCalendar/Data/AssignmentRepository.cs:22-59 | CREATE runs until it succeeds once: its error is rethrown, and the flag is set exactly on success |
| AssignmentRepository.AssignmentRepository.LoadCourses | CanvasCalendar/Data/AssignmentRepository.cs:96-99 | every assignment's Course becomes the course row with its CourseID, or null; the course repository's CREATE error surfaces when at least one assignment was read |
| AssignmentRepository.AssignmentRepository.ReadRows | CanvasCalendar/Data/AssignmentRepository.cs:75-93 | the reader loop builds one assignment per row, in order |
| AssignmentRepository.AssignmentRepository.ListAsync | CanvasCalendar/Data/AssignmentRepository.cs:64-101 | the result is the ordered list with courses, or the first CREATE error |
| AssignmentRepository.AssignmentRepository.GetAssignmentsDueInRangeAsync | CanvasCalendar/Data/AssignmentRepository.cs:107-150 | the result is the range query's rows, ordered, with courses, or the first CREATE error |
| AssignmentRepository.AssignmentRepository.GetAsync | CanvasCalendar/Data/AssignmentRepository.cs:156-190 | the assignment with that ID with its course, or null, or the CREATE error |
| AssignmentRepository.AssignmentRepository.GetByCanvasIdAsync | CanvasCalendar/Data/AssignmentRepository.cs:196-230 | the assignment with that CanvasId with its course, or null, or the CREATE error |
| AssignmentRepository.AssignmentRepository.SaveItemAsync | CanvasCalendar/Data/AssignmentRepository.cs:236-283 | the new table and returned ID are those of the save specification, with the ID written back into the item |
| AssignmentRepository.AssignmentRepository.DeleteItemAsync | CanvasCalendar/Data/AssignmentRepository.cs:289-300 | the table loses the row with the item's ID, and the rows affected are returned |
| AssignmentRepository.AssignmentRepository.DropTableAsync | CanvasCalendar/Data/AssignmentRepository.cs:305-316 | the table is empty and the init flag is cleared |
| Preferences.PresentIffSetSince | CanvasCalendar.Tests/Helpers/TestPreferences.cs:10-33 | after any history of writes, a key is present exactly when it was set and neither removed nor cleared since |
| Preferences.LastWriteWins | CanvasCalendar.Tests/Helpers/TestPreferences.cs:10-18 | Get answers the value of the key's last Set |
| Preferences.OtherKeyUnchanged | CanvasCalendar.Tests/Helpers/TestPreferences.cs:12 | a Set or Remove of another key never changes the answer for a key |
| Preferences.TestPreferences.Set | CanvasCalendar.Tests/Helpers/TestPreferences.cs:10-13 | the dictionary maps the key to the value, and the rest is unchanged |
| Preferences.TestPreferences.Remove | CanvasCalendar.Tests/Helpers/TestPreferences.cs:20-23 | the key is gone and every other key is unchanged |
| Preferences.TestPreferences.Clear | CanvasCalendar.Tests/Helpers/TestPreferences.cs:25-28 | no key is left |
| Preferences.ContainsKeyIffSetSince | CanvasCalendar.Tests/Helpers/TestPreferences.cs:15-33 | ContainsKey holds exactly when the key was set and not removed or cleared since. Get answers the last value set, or the default for an absent key |
| Configuration.Resolve | CanvasCalendar/Services/IConfigurationService.cs:40-58 | the value comes from the secret when it is non-empty, else from the preference, else ""; it is non-empty exactly when one of them is |
| Configuration.SourceImpliesCredentials | CanvasCalendar/Services/IConfigurationService.cs:81-98 | a source other than None means both values resolve non-empty; UserSecrets means both come from the secrets |
| Configuration.CredentialsWithoutSource | CanvasCalendar/Services/IConfigurationService.cs:60-98 | a URL from the secrets and a token from the preferences give credentials but source None |
| Configuration.SaveThenGet | CanvasCalendar/Services/IConfigurationService.cs:67-72 | after a save, each getter answers the saved value unless a secret overrides it |
| Configuration.ClearThenGet | CanvasCalendar/Services/IConfigurationService.cs:75-79 | after a clear, the getters answer the secrets or "", and the source is never Preferences |
| Configuration.ConfigurationService.SaveCanvasSettingsAsync | CanvasCalendar/Services/IConfigurationService.cs:67-73 | both preference keys are written; without a secret, the getters answer the saved values |
| Configuration.ConfigurationService.ClearCanvasSettings | CanvasCalendar/Services/IConfigurationService.cs:75-79 | both preference keys are removed and nothing else |
| Settings.ValidateCredentials | CanvasCalendar/Services/ISettingsService.cs:51-83 | blank input gives IsValid = false with the "enter both" message. Otherwise IsValid is the gateway's answer, and a gateway exception gives false with that error |
| Settings.BlankInputSkipsGateway | CanvasCalendar/Services/ISettingsService.cs:53-60 | with a null, empty or white-space input the answer does not depend on the gateway |
| Settings.WhitespaceTokenRejectedButPresent | CanvasCalendar/Services/ISettingsService.cs:53 | a token " " is rejected here, yet counts as a present credential for the configuration service |
| Settings.LoadMessage | CanvasCalendar/Services/ISettingsService.cs:103-123 | the message is empty exactly for source None |
| Settings.SettingsService.SaveSettingsAsync | CanvasCalendar/Services/ISettingsService.cs:85-96 | both values are written to the preferences, and true is returned |
| Settings.SettingsService.ClearSettings | CanvasCalendar/Services/ISettingsService.cs:98-101 | both preference keys are removed |
| Settings.SettingsService.LoadSettings | CanvasCalendar/Services/ISettingsService.cs:103-123 | URL, token and source come from the configuration service, and the message from the source |
| CanvasService.NormalizeRemovesTrailingSlashes | CanvasCalendar/Services/CanvasService.cs:156-160 | the result is the input without its trailing '/' characters, and never ends in '/' |
| CanvasService.NormalizeIdempotent | CanvasCalendar/Services/CanvasService.cs:156-160 | trimming twice equals trimming once |
| CanvasService.NormalizeAddsNoScheme | CanvasCalendar/Services/CanvasService.cs:156-160 | a URL without a scheme is left without one |
| CanvasService.MapCourse | CanvasCalendar/Services/CanvasService.cs:162-177 | ID 0 and no assignments. CanvasId is the decimal text of the Canvas id, Term is the term's name or "", and CreatedAt is the DTO's or now |
| CanvasService.MapAssignment | CanvasCalendar/Services/CanvasService.cs:179-196 | ID and CourseID are 0 and the status is New. CanvasId is the decimal id, and Course is set exactly when the DTO has one |
| CanvasService.MapBareCourse | CanvasCalendar/Services/CanvasService.cs:162-177 | a course DTO with only an id maps to empty strings, MinValue dates and CreatedAt now |
| CanvasService.MapBareAssignment | CanvasCalendar/Services/CanvasService.cs:184-192 | an assignment DTO with only an id maps to empty strings, DueDate MaxValue, 0 points, Published true and both timestamps now |
| CanvasService.MapIgnoresCourseId | CanvasCalendar/Services/CanvasService.cs:179-196 | the DTO's CourseId does not affect the mapped assignment |
| CanvasService.CanvasIdsDistinct | CanvasCalendar/Services/CanvasService.cs:183 | distinct Canvas ids map to distinct CanvasIds |
| CanvasService.MappedIsAsMapped | CanvasCalendar/Services/CanvasService.cs:179-196 | a mapped assignment and its course carry no local IDs |
| CanvasService.UpcomingWindow | CanvasCalendar/Services/CanvasService.cs:125-126 | the window starts now and is `days` days long; AddDays outside the DateTime range throws |
| CanvasService.DefaultWindowIsAWeek | CanvasCalendar/Services/CanvasService.cs:121 | by default the window is seven days long |
| CanvasService.MapBody | CanvasCalendar/Services/CanvasService.cs:74-83 | a success status with a body maps every DTO in order; anything else gives an empty list |
| CanvasService.UpcomingAreMapped | CanvasCalendar/Services/CanvasService.cs:121-153 | every upcoming assignment is as the mapper builds it; an exception gives an empty list |
| CanvasService.ValidateCredentials | CanvasCalendar/Services/CanvasService.cs:31-60 | true exactly when the request succeeded with a success status; an exception gives false |
| AssignmentSync.ValidateCredentials | CanvasCalendar/Services/AssignmentSyncService.cs:76-98 | success exactly with credentials and a non-empty token; otherwise the matching message with zero counts |
| AssignmentSync.TokenGuardUnreachable | CanvasCalendar/Services/AssignmentSyncService.cs:86-95 | the second guard cannot fire, as credentials imply a non-empty token |
| AssignmentSync.UniqueOfDistinct | CanvasCalendar/Services/AssignmentSyncService.cs:102-108 | the unique courses have distinct CanvasIds |
| AssignmentSync.UniqueOfCovers | CanvasCalendar/Services/AssignmentSyncService.cs:102-108 | every non-null embedded course has its CanvasId among them |
| AssignmentSync.UniqueOfFirstSeen | CanvasCalendar/Services/AssignmentSyncService.cs:102-108 | each unique course is the course of the first assignment carrying its CanvasId |
| AssignmentSync.UpdateExisting | CanvasCalendar/Services/AssignmentSyncService.cs:156-163 | Title, Description, DueDate and PointsPossible come from the fetched assignment; UpdatedAt is now; every other field is the stored one |
| AssignmentSync.CoursesPassSticky | CanvasCalendar/Services/AssignmentSyncService.cs:110-118 | after an exception, the rest of the courses change nothing |
| AssignmentSync.CourseStepStores | CanvasCalendar/Services/AssignmentSyncService.cs:112-117 | a course with a new CanvasId is inserted and counted; a stored CanvasId is skipped and not counted |
| AssignmentSync.CoursesPassAppends | CanvasCalendar/Services/AssignmentSyncService.cs:110-120 | with the course table created, the pass over courses not stored yet never fails and only appends rows |
| AssignmentSync.CoursesPassStores | CanvasCalendar/Services/AssignmentSyncService.cs:110-120 | afterwards the table holds exactly the CanvasIds it held plus those of the courses |
| AssignmentSync.CoursesPassCountsNew | CanvasCalendar/Services/AssignmentSyncService.cs:110-120 | SyncedCourses is the number of courses whose CanvasId the table lacked, which is the growth of the table |
| AssignmentSync.CoursesPassAllStored | CanvasCalendar/Services/AssignmentSyncService.cs:110-118 | courses all stored already change nothing and count nothing |
| AssignmentSync.CoursesPassFailsFirst | CanvasCalendar/Services/AssignmentSyncService.cs:112 | when the course table cannot be created, the first course fails the pass, and nothing is written |
| AssignmentSync.ReparentKeepsRest | CanvasCalendar/Services/AssignmentSyncService.cs:130-138 | re-parenting changes only CourseID and Course, and changes nothing without an embedded course or when its CanvasId is not stored |
| AssignmentSync.ReparentToStoredCourse | CanvasCalendar/Services/AssignmentSyncService.cs:130-138 | an embedded course with a stored CanvasId sets CourseID to that row's positive ID and Course to the stored course |
| AssignmentSync.StepInsertsNew | CanvasCalendar/Services/AssignmentSyncService.cs:140-144 | an assignment with a new CanvasId is appended once, re-parented, and counted |
| AssignmentSync.StepMergesStored | CanvasCalendar/Services/AssignmentSyncService.cs:145-150 | an assignment with a stored CanvasId rewrites only that row and counts nothing. The row keeps its ID and CanvasId, and reads back as the merged assignment |
| AssignmentSync.AssignmentStepStores | CanvasCalendar/Services/AssignmentSyncService.cs:126-151 | one iteration never fails and keeps every ID and CanvasId. It leaves its CanvasId stored and adds no other. It appends and counts exactly when the CanvasId was new |
| AssignmentSync.AssignmentsPassSticky | CanvasCalendar/Services/AssignmentSyncService.cs:126-151 | after an exception, the rest of the assignments change nothing |
| AssignmentSync.AssignmentsPassAppends | CanvasCalendar/Services/AssignmentSyncService.cs:123-154 | with both tables created, the pass never fails and keeps every stored key. SyncedAssignments is the number of rows appended, so a CanvasId repeated in one batch is inserted once |
| AssignmentSync.AssignmentsPassCovers | CanvasCalendar/Services/AssignmentSyncService.cs:123-154 | afterwards every fetched CanvasId is stored |
| AssignmentSync.AssignmentsPassOnly | CanvasCalendar/Services/AssignmentSyncService.cs:123-154 | the pass adds no CanvasId but those fetched |
| AssignmentSync.AssignmentsPassAllStored | CanvasCalendar/Services/AssignmentSyncService.cs:140-150 | assignments all stored already append and count nothing |
| AssignmentSync.AssignmentsPassFailsFirst | CanvasCalendar/Services/AssignmentSyncService.cs:128 | when the assignment table cannot be created, the first lookup fails the pass, and nothing is written |
| AssignmentSync.SyncShortCircuits | CanvasCalendar/Services/AssignmentSyncService.cs:30-51 | without credentials, a gateway exception or an empty answer, the run gives the matching result and both tables are unchanged |
| AssignmentSync.SyncAsksGatewayOnce | CanvasCalendar/Services/AssignmentSyncService.cs:36-40 | the run depends on the gateway only through its answer for the configured URL and token |
| AssignmentSync.CoursePassOfRun | CanvasCalendar/Services/AssignmentSyncService.cs:100-121 | the course pass of a run succeeds, appends exactly the unique courses the table lacked, and leaves every embedded course stored |
| AssignmentSync.SyncStoresEverything | CanvasCalendar/Services/AssignmentSyncService.cs:28-64 | a run with credentials and a non-empty answer succeeds. The message reports the new assignments. The two counts are the rows appended to each table. No stored ID or CanvasId is rewritten, and every fetched assignment and embedded course ends up stored |
| AssignmentSync.SyncStoresOnlyFetched | CanvasCalendar/Services/AssignmentSyncService.cs:28-64 | afterwards each table holds exactly the CanvasIds it held plus those fetched |
| AssignmentSync.SyncAllStoredAddsNothing | CanvasCalendar/Services/AssignmentSyncService.cs:110-150 | when everything fetched is already stored, the run succeeds with zero counts, leaves the course table as it was, and appends no assignment |
| AssignmentSync.SyncTwiceAddsNothing | CanvasCalendar/Services/AssignmentSyncService.cs:110-150 | a second run on the same answer reports 0 and 0, leaves the course table unchanged and keeps the assignment row count |
| AssignmentSync.SyncCourseTableFails | CanvasCalendar/Services/AssignmentSyncService.cs:65-73 | when the course table cannot be created and a course is embedded, the run fails with that exception and writes nothing |
| AssignmentSync.SyncAssignmentTableFails | CanvasCalendar/Services/AssignmentSyncService.cs:65-73 | when the assignment table cannot be created, the run fails with that exception. The courses stored before it stay, since there is no rollback |
| AssignmentSync.AssignmentSyncService.SyncWithCanvasAsync | CanvasCalendar/Services/AssignmentSyncService.cs:28-74 | the result and both tables are those of the specification `Sync` |
| AssignmentSync.AssignmentSyncService.SyncCoursesAsync | CanvasCalendar/Services/AssignmentSyncService.cs:100-121 | the loop computes the course pass: the count, or the exception, and the course table |
| AssignmentSync.AssignmentSyncService.SyncCourseAsync | CanvasCalendar/Services/AssignmentSyncService.cs:111-118 | one iteration is one course step |
| AssignmentSync.AssignmentSyncService.SyncAssignmentAsync | CanvasCalendar/Services/AssignmentSyncService.cs:127-151 | one iteration is one assignment step |
| AssignmentSync.AssignmentSyncService.SaveFetchedAsync | CanvasCalendar/Services/AssignmentSyncService.cs:140-150 | the insert-or-merge at the end of an iteration is the save step |
| AssignmentSync.AssignmentSyncService.SyncAssignmentsAsync | CanvasCalendar/Services/AssignmentSyncService.cs:123-154 | the loop computes the assignment pass: the count, or the exception, and the assignment table |
| AssignmentPlugin.NormalizeFacts | CanvasCalendar/Services/AssignmentPlugin.cs:66-70 | a normalised string holds no '-' and no ' ', and normalising again changes nothing |
| AssignmentPlugin.EmptyCodeMatchesAll | CanvasCalendar/Services/AssignmentPlugin.cs:74 | a course whose code normalises to "" matches every search term |
| AssignmentPlugin.FindCourseIsFirst | CanvasCalendar/Services/AssignmentPlugin.cs:67-75 | nothing is found exactly when no course matches; otherwise the first matching course in list order is found |
| AssignmentPlugin.JoinContainsPart | CanvasCalendar/Services/AssignmentPlugin.cs:82 | every part occurs in the joined text |
| AssignmentPlugin.Listing | CanvasCalendar/Services/AssignmentPlugin.cs:82 | one "Code - Name" entry per course, in order |
| AssignmentPlugin.LookupCourseOutcomes | CanvasCalendar/Services/AssignmentPlugin.cs:41-84 | without URL or token the lookup is rejected before the gateway is used. An empty list is rejected. A course is found exactly when one matches, and it is the first. The no-match message names every course as "Code - Name" |
| AssignmentPlugin.OverdueStays | CanvasCalendar/Services/AssignmentPlugin.cs:108 | an overdue assignment stays overdue as time passes, and a completed one is never overdue |
| AssignmentPlugin.DaysUntilDueBounds | CanvasCalendar/Services/AssignmentPlugin.cs:109 | the day count is the number of whole days between due date and now, truncated toward zero, with the sign of the difference |
| AssignmentPlugin.JustOverdueIsDayZero | CanvasCalendar/Services/AssignmentPlugin.cs:109 | overdue by less than a day still counts 0 days |
| Converters.Converter.Convert | CanvasCalendar/Converters/CommonConverters.cs:7-61 | every converter answers a boxed bool |
| Converters.InvertedBoolNegates | CanvasCalendar/Converters/CommonConverters.cs:7-13 | a bool is negated, and anything else gives false |
| Converters.InvertedBoolRoundTrip | CanvasCalendar/Converters/CommonConverters.cs:7-21 | converting a bool back undoes converting it |
| Converters.OnlyInvertedBoolConvertsBack | CanvasCalendar/Converters/CommonConverters.cs:34-66 | ConvertBack fails exactly for the three other converters, always with NotImplementedException |
| Converters.CountToBoolIsPositive | CanvasCalendar/Converters/CommonConverters.cs:26-32 | true exactly for a positive int |
| Converters.InvertedCountComplements | CanvasCalendar/Converters/CommonConverters.cs:42-48 | the complement of the count converter except on a negative int, where both answer false |
| Converters.StringToBoolIsNotBlank | CanvasCalendar/Converters/CommonConverters.cs:58-61 | false exactly for null or a value whose text is empty or white space; a bool or an int is always true |
| ErrorHandler.UserFriendlyMessageClassifies | CanvasCalendar/Services/ModalErrorHandler.cs:27-36 | the network message exactly for HttpRequestException; the credentials message exactly for UnauthorizedAccessException; the time-out message exactly for TimeoutException; the generic one otherwise |
| ErrorHandler.ShownMessageChoice | CanvasCalendar/Services/ModalErrorHandler.cs:12-25 | a caller's message is shown verbatim for any exception; without one, the classified message is shown |
| Calculator.Wrap | CanvasCalendar/Services/CalculatorPlugin.cs:27 | the result is a 32-bit int congruent to the input modulo 2^32, and equal to it when the input fits |
| Calculator.AddNumbersWraps | CanvasCalendar/Services/CalculatorPlugin.cs:19-33 | the sum is the mathematical sum wrapped to 32 bits, and exact when it fits |
| Calculator.MultiplyNumbersWraps | CanvasCalendar/Services/CalculatorPlugin.cs:43-57 | the product is the mathematical product wrapped to 32 bits, and exact when it fits |
| Calculator.AddOverflowsToMin | CanvasCalendar/Services/CalculatorPlugin.cs:27 | int.MaxValue + 1 gives int.MinValue |
| Calculator.AlgebraicLaws | CanvasCalendar/Services/CalculatorPlugin.cs:27-51 | both operations are commutative; adding 0 and multiplying by 1 change nothing; multiplying by 0 gives 0 |
| Calculator.AddNumbersAssociative | CanvasCalendar/Services/CalculatorPlugin.cs:27 | wrapped addition is associative |

## Left out

- Async and concurrency. Each `async` method is a sequential method, and one caller is assumed, so the init flag is a plain field.
- SQLite plumbing: connections, command text, parameter binding and readers. Only the semantics of the SQL text is kept, as the `Table` module.
- Dates are modelled as ticks. The store writes dates as ISO "O" strings, and the range query compares those strings. That matches tick order only while every stored value has the same `DateTimeKind` and offset, which the model assumes.
- A `DateTime` is modelled as an instant of one fixed kind. The repositories read every date back with a plain `DateTime.Parse`, which turns an "O" string ending in `Z` into a local-time value with different ticks; that conversion is not modelled, so the tick round trips (`CourseRepository.ReadWritten`, `AssignmentRepository.ReadWritten`) hold only for a machine at UTC or for values stored without an offset. The application's own data mixes kinds: Canvas timestamps are UTC, while the assignment list page queries the range with local `DateTime.Now.Date` bounds written with a "+hh:mm" offset, so for such data the string order of the range query and the tick order of the model can disagree.
- A database holding a `Status` outside 0..4, written by another program, is excluded: the model reads only well-formed tables (`AssignmentRepository.ReadAssignment` and the repository's constructor require defined ordinals), although the C# cast accepts any int. The application itself writes only defined ordinals (`AssignmentRepository.SaveKeepsWellFormed`).
- `ORDER BY` does not fix the order of rows with equal keys. The model sorts stably, keeping tied rows in rowid order (`Ordering.TiesKeepInputOrder`), which is one order SQLite may return; any other tie order SQLite might choose is not modelled.
- Foreign keys. SQLite never enforces them here, so `CourseID` is a plain int, and a missing course reads as null.
- The CREATE statement's outcome is one fixed answer per repository (`schemaError`). A failure of any later statement, such as an I/O error or a locked database, is not modelled. The only failures modelled are that one and the UNIQUE violation.
- Integer width. IDs, counts and DTO ids are unbounded integers. Only the calculator models 32-bit wrap-around. It assumes C#'s default unchecked context, because the project file is not part of this model.
- `PointsPossible` is a double that is only copied, so it is modelled as a `real` with no floating-point behaviour.
- `Assignment.EstimatedTime` and `Assignment.ScheduledSessions` are left out. They are neither stored nor read by any modelled code.
- HTTP, headers and JSON in the Canvas service. The gateway is a function parameter. `CanvasService.MapBody` models only how a JSON body becomes a list.
- Every `DateTime.Now` of one run reads the same `now`.
- In-place aliasing in the sync.
  - The source assigns a course's new ID into the embedded course object.
  - It also assigns `CourseID` and `Course` into the fetched assignment in place.
  - The model returns updated values instead.
  - Every embedded course is re-read by CanvasId before use, so the write-back is not observable.
- Console logging in the calculator, the error handler and the Canvas service.
- The UI side of the error handler (`ShowErrorToUser`). The error handler's type switch is modelled on the exact exception types. It does not model subclasses, since the model has no subclasses.
- MAUI `Preferences` is a foreign API. The test dictionary stands in for it.
- Lowercasing is ASCII only. The .NET culture-sensitive `ToLower` is not modelled.
- The assignment plugin after the course lookup:
  - its `GetAssignmentsByCourseAsync` call, which `ICanvasService` does not declare;
  - the JSON serialisation and its catch block;
  - the other kernel functions.
  The plugin is modelled up to the chosen course, plus the `isOverdue` and `daysUntilDue` values of each reported assignment.
- The catch branch of the settings save is not modelled, and the save always returns true. The configuration save it wraps cannot throw in the model, so that branch is never taken.
- Chat service, chat and settings page models, pages, navigation and dialog services, DI wiring, `Constants` (its `DaysToFetchAssignments = 7` is `CanvasService.DefaultDays`) and the unused models `TimeEstimate`, `CalendarEvent` and `UserPreferences`: UI, wiring or LLM calls outside the core.
- `AssignmentListPageModel.SyncWithCanvas` repeats the sync with UI side effects. The sync service model covers the algorithm.
- The URL test at CanvasCalendar.Tests/Services/CanvasServiceTests.cs:58-73 checks an inline copy that adds "https://". The service's own helper only trims trailing slashes, and the model follows the service.
