# codewizard backend: store, guards, request ladders and validators

This project models the core of the codewizard learning-platform backend in Dafny. The model has these parts:

- **`AppDatabase.Store`** (`store.dfy`) is the SQLAlchemy store of `app/database.py`.
  - It is a class over users, lessons, quizzes, quiz submissions, progress rows, hints and sessions.
  - Each writer assigns its table. Its contract equals a pure step function of `AppTables` (`store_spec.dfy`), and the properties of the store are lemmas about those step functions. These cover:
    - the unique email and token;
    - the strict token expiry;
    - the progress upsert with one row per (user, lesson);
    - the append-only submission ledger listed newest first;
    - the expiry cleanups.
- **`LegacyDb.LegacyStore`** (`legacy_store.dfy`, over `LegacyTables` in `legacy_tables.dfy`) is the raw-SQL store of `database.py`.
  - `update_lesson` and `update_quiz` build their `SET` lists by appending. These are methods with loop-free step-by-step proofs that the lists hold exactly the supplied columns, in order.
  - Lemmas show that running the resulting `UPDATE` writes what the application store writes. `update_quiz` is the exception: it ignores a zero total.
  - Other lemmas pin down where the legacy rules differ:
    - login cannot tell its failures apart;
    - raw inserts leave the flags NULL;
    - `save_progress` appends a row on every call.
- **`Guard`** (`guard.dfy`) holds the `auth_required` and `admin_required` decorators.
  - It covers the `Bearer` header parsing (`split(' ')[1]`), token resolution and the binding of the user to the request.
  - It also covers the order of the two decorators on the admin routes.
  - As written, the bound user is the ORM `User` row, which supports neither `["id"]` nor `.get`. Each guard is stated for that binding and for a mapping of the row's columns, and the difference is a finding below.
- **`Handlers`** (`handlers.dfy`) and **`AdminHandlers`** (`admin_handlers.dfy`) are the early-return ladders of the user and admin handlers.
  - Each ladder is a function from the request fields and the store's outcome to a status code. `None` stands for a field the JSON body lacks.
  - Lemmas connect each ladder to the store step it calls.
- **`Validators`** (`validators.dfy`, `app/utils.py`) and **`Utility`** (`utility.py`) are the input validators.
  - Each regular expression is written out as a predicate over indices, including Python's `$`, which also matches before one final newline.
  - Each one also has a hand-written recogniser, and the two are proved equal.
  - Lemmas compare the older rules with the newer ones.
- **`UtcDateTime`** (`datetime.dfy`) is the `_DateTime` column type.
- **`Records`** (`records.dfy`) holds the rows, their column defaults, and the token lifetime.

Other conventions of the model:

- Time is an integer count of seconds.
- The password hash is a function parameter.
- A freshly generated token is a parameter that no row holds yet.
- Row ids are strictly increasing. A new row gets the largest id plus one, as SQLite assigns rowids.

## Model

| member | source | states |
|---|---|---|
| Records.TokenExpiry | app/utils.py:60-64 | a new token expires exactly 24 hours after `now`, strictly later |
| Records.NewUser | app/models.py:36-47 | a new user is neither admin nor verified, holds the given fields and was created `now` |
| Records.NewSubmission | app/models.py:98 | a new submission is completed and stamped `now` |
| Records.DefaultProgress | app/models.py:105-115 | a new progress row starts incomplete at 0.0 percent and 0 minutes |
| Records.NextId | app/models.py:39 | the next row id is larger than every id and keeps the ids increasing |
| UtcDateTime.BindParam | app/models.py:20-26 | None passes through; every bound value is UTC; an aware value keeps its instant; a naive one keeps its wall clock |
| UtcDateTime.ResultValue | app/models.py:28-31 | a value read back is aware with its wall clock unchanged; an aware value is returned as it is |
| UtcDateTime.RoundTrip | app/models.py:11-31 | binding, storing and reading back an aware value gives a UTC value with the same instant |
| UtcDateTime.BindIdempotent | app/models.py:20-26 | binding twice is binding once |
| UtcDateTime.NaiveUtcAndAwareUtcBindAlike | app/models.py:20-26 | a naive UTC reading and the aware UTC reading of the same clock bind to the same value |
| UtcDateTime.BindPreservesOrder | app/models.py:20-26 | after binding, comparing stored wall clocks compares the instants |
| Validators.IsValidEmail | app/utils.py:26-36 | accepts exactly the strings the anchored pattern matches, or such a string followed by one newline |
| Validators.EmailCoreMatchesPattern | app/utils.py:26-36 | the hand-written recogniser accepts exactly the strings of the pattern |
| Validators.EmailCoreSound | app/utils.py:26-36 | whatever the recogniser accepts has the pattern's shape |
| Validators.EmailCoreComplete | app/utils.py:30-34 | a local part, one `@` and dot-separated labels whose first label does not start with `-` and whose last label has two or more letters are accepted |
| Validators.EmailDomainComplete | app/utils.py:32-34 | every domain of the pattern's shape passes the domain recogniser |
| Validators.EmailRejectsDoubleDot | app/utils.py:29 | no string containing `..` is a valid email |
| Validators.LabelListSound | app/utils.py:33 | the label-list recogniser accepts only dot-separated non-empty labels |
| Validators.LabelListComplete | app/utils.py:33 | every list of dot-separated non-empty labels is accepted |
| Validators.IsValidUsername | app/utils.py:38-43 | true iff non-empty and every character is a letter, digit or `_` |
| Validators.IsValidPassword | app/utils.py:45-47 | true iff at least eight characters, so never empty |
| Validators.IsValidPhone | app/utils.py:49-51 | true iff only ASCII digits and at least ten of them; the empty string is refused |
| Validators.IsValidFilename | app/utils.py:12-14 | true iff non-empty and none of the nine characters `\ / : * ? " < > \|` occurs |
| Validators.UrlCoreMatchesPattern | app/utils.py:53-57 | the URL recogniser accepts exactly `http`, `https` or `ftp`, then `://`, then one character that is not whitespace (Python's Unicode `\s` set) or one of `/ $ . ? #`, then any character but a newline, then only non-whitespace |
| Validators.IsValidUrl | app/utils.py:53-57 | accepts the URL pattern, or it followed by one newline |
| Validators.UrlRefusesNoBreakSpace | app/utils.py:53-57 | `http://ab` passes and `http://ab` followed by U+00A0 is refused, since `\s` matches the no-break space |
| Validators.PathName | app/utils.py:8-10 | the final path component has no `/` and is never `.` |
| Validators.GetFileExtension | app/utils.py:8-10 | the suffix has no dot and no slash; it is what follows the last dot of the final component, unless that dot is its first or last character |
| Utility.GetFileExtension | utility.py:3-6 | empty iff there is no dot or the string ends in one; otherwise the text after the last dot |
| Utility.IsValidFilename | utility.py:8-13 | the same rule as the application's `is_valid_filename` |
| Utility.IsValidUsername | utility.py:30-35 | non-empty and free of the nine forbidden filename characters |
| Utility.PwdMatch | utility.py:18-21 | true iff the stored digest equals the password's digest |
| Utility.PwdMatchAcceptsSameDigest | utility.py:14-21 | a digest matches its own password, and any password with the same digest |
| Utility.IsValidEmail | utility.py:24-29 | accepts exactly the older pattern, or it followed by one newline |
| Utility.EmailCoreMatchesPattern | utility.py:24-29 | the older recogniser accepts exactly the older pattern |
| Utility.EmailCoreComplete | utility.py:27 | a local part, one `@`, one label, a dot and a rest of labels and dots are accepted |
| Utility.AppEmailIsLegacyEmail | utility.py:24-29 | every address the application accepts, the older rule accepts |
| Utility.AppCoreIsLegacyCore | utility.py:24-29 | the same inclusion, for the patterns without the final newline |
| Utility.AppDomainIsLegacyDomain | utility.py:27 | every application domain is an older-style domain |
| Utility.LegacyEmailAcceptsShortTld | utility.py:27 | `a@b.c` passes the older rule but not the newer one |
| Utility.LegacyEmailAcceptsDoubleDot | utility.py:27 | `a..b@c.de` passes the older rule but not the newer one |
| Utility.AppUsernameIsLegacyUsername | utility.py:30-35 | every application username is an older-style username |
| Utility.LegacyUsernameIsWeaker | utility.py:30-35 | `a.b c` passes the older username rule but not the newer one |
| Utility.ExtensionsAgreeOnPlainNames | utility.py:3-6 | for a bare name whose last dot is inside it, both extension rules give the text after that dot |
| Utility.ExtensionsDiffer | utility.py:3-6 | the two rules differ on `.bashrc` and on `v1.2/readme` |
| AppTables.FindUserByEmail | app/database.py:68-72 | finds a row with that email, the only one when emails are unique; none iff no row has it |
| AppTables.EmailRegistered | app/database.py:68-72 | true iff some row has exactly that email |
| AppTables.GetUserById | app/database.py:84-87 | a user with that id, or none iff no row has it |
| AppTables.UserByToken | app/database.py:74-82 | a user is returned iff its token equals the one given and its expiry is strictly after `now` |
| AppTables.ResolvesAtMostOne | app/models.py:43 | with unique tokens, at most one row resolves a token |
| AppTables.ExpiredTokenDoesNotResolve | app/database.py:78-81 | a token whose expiry is at or before `now` resolves to nobody, though its row remains |
| AppTables.RegisterStep | app/database.py:19-31 | an existing email leaves the table unchanged; otherwise one row is appended with the hashed password, the fresh token and its expiry, and that token is returned |
| AppTables.RegisterPreservesValid | app/models.py:40-44 | registration keeps emails and tokens unique and each token paired with its expiry |
| AppTables.RegisterThenResolve | app/database.py:19-31 | the token registration returns resolves to the new user until it expires |
| AppTables.LoginStep | app/database.py:33-66 | not found and wrong password leave the table unchanged; a live token is returned as it is; otherwise that user alone gets the fresh token and a new expiry |
| AppTables.LoginPreservesValid | app/database.py:44-66 | login keeps the users table valid |
| AppTables.SetTokenPreservesValid | app/database.py:50-52 | writing a fresh token into one row keeps the table valid |
| AppTables.LoginTokenResolves | app/database.py:44-66 | the token a login returns resolves to the user of that email |
| AppTables.LoginTwiceSameToken | app/database.py:44-48 | a second login before expiry returns the first login's token |
| AppTables.UpdateProfileStep | app/database.py:89-101 | unknown id: nothing changes; the commit fails on the unique email exactly when a truthy email is held by another user; otherwise only truthy name and email are written, and only to that user |
| AppTables.UpdateProfilePreservesValid | app/database.py:89-101 | a profile update keeps the users table valid |
| AppTables.UpdateProfileTouchesOneRow | app/database.py:89-101 | every other user is unchanged |
| AppTables.MakeAdminStep | app/database.py:130-139 | unknown id: nothing changes; otherwise that user alone becomes an admin |
| AppTables.MakeAdminPreservesValid | app/database.py:130-139 | promotion keeps the users table valid |
| AppTables.ClearExpiredTokens | app/database.py:411-428 | token and expiry are cleared together for exactly the users whose expiry is before `now` |
| AppTables.ExpiredTokenCount | app/database.py:411-428 | the count of cleared users is zero iff no token had expired |
| AppTables.ClearExpiredTokensPreservesValid | app/database.py:411-428 | the cleanup keeps the users table valid |
| AppTables.CleanupKeepsLiveTokens | app/database.py:411-428 | after the cleanup no token is expired, and every token resolves later exactly as before |
| AppTables.FindLessonById | app/database.py:178-181 | finds the lesson with that id, or none iff no row has it |
| AppTables.CreateLessonStep | app/database.py:183-189 | one lesson with the given fields is appended |
| AppTables.UpdateLessonStep | app/database.py:191-209 | unknown id: nothing changes; otherwise truthy texts and a present order are written to that lesson only |
| AppTables.EmptyLessonUpdateChangesNothing | app/database.py:195-207 | for every update whose texts are each `None` or empty and whose order is `None`, the lesson is found and the table is unchanged |
| AppTables.DeleteLessonStep | app/database.py:211-219 | unknown id: nothing changes; otherwise exactly that lesson is removed and the others remain, unchanged and in their order |
| AppTables.LessonStats | app/database.py:360-366 | the total counts every lesson; each difficulty count is the number of lessons with that difficulty, zero iff none has it; the three add up to at most the total |
| AppTables.QuizForLesson | app/database.py:221-224 | no quiz, exactly one quiz, or several, as the lesson has none, one or more |
| AppTables.CreateQuizStep | app/database.py:226-232 | one quiz with the given fields is appended |
| AppTables.FindQuizById | app/database.py:236-239 | finds the quiz with that id, or none iff no row has it; with increasing ids the found row is the only one with that id |
| AppTables.UpdateQuizStep | app/database.py:234-248 | unknown id: nothing changes; otherwise a truthy title, non-empty questions and any present total are written to that quiz only, which keeps its id, lesson and creation time |
| AppTables.SubmitStep | app/database.py:250-256 | one completed submission stamped `now` is appended with the given fields |
| AppTables.SubmitKeepsEarlier | app/database.py:250-256 | every earlier submission is kept unchanged |
| AppTables.InsertByTime | app/database.py:258-261 | inserting into a newest-first list keeps it newest first and is a permutation |
| AppTables.SortNewestFirst | app/database.py:258-261 | the result is newest first and a permutation of the input |
| AppTables.SubmissionsOf | app/database.py:258-261 | exactly that user's submissions, newest first |
| AppTables.SortWithNewest | app/database.py:258-261 | a submission later than all others comes first |
| AppTables.SubmitThenListNewestFirst | app/database.py:250-261 | right after a submission, it heads the user's list |
| AppTables.FindProgress | app/database.py:291-294 | finds the row of the (user, lesson) pair, the only one when pairs are unique |
| AppTables.LessonProgress | app/database.py:291-294 | the progress row of the pair, or none iff it has none |
| AppTables.ProgressOf | app/database.py:286-289 | exactly the rows of that user |
| AppTables.SaveProgressStep | app/database.py:263-284 | a new pair gets one appended row; an existing one has completed, percentage, time spent and last access replaced, and nothing else changes |
| AppTables.SaveProgressUpserts | app/database.py:263-284 | after a save, the pair's row holds the saved values, pairs stay unique, and every other pair reads as before |
| AppTables.SaveProgressTwiceReplaces | app/database.py:272-281 | a second save replaces the first; values do not accumulate |
| AppTables.ProgressStats | app/database.py:368-373 | the completed count is the number of completed rows, zero iff none is; the average is absent iff there are no rows |
| AppTables.AverageWithinBounds | app/database.py:368-373 | the average lies between any bounds of the percentages |
| AppTables.CreateHintStep | app/database.py:332-338 | one hint with the given fields is appended |
| AppTables.UserStats | app/database.py:353-358 | the verified and admin counts are the numbers of verified and admin rows, each zero iff no user has the flag |
| AppTables.MakeAdminCount | app/database.py:130-139 | promoting a non-admin raises the admin count by one |
| AppTables.FindSession | app/database.py:383-386 | finds the session with that token, or none iff no session has it |
| AppTables.CreateSessionStep | app/database.py:375-381 | a taken token leaves the sessions unchanged; otherwise one session is appended; tokens stay unique |
| AppTables.GetSession | app/database.py:383-386 | the session with that token, or none iff none has it |
| AppTables.DeleteSessionStep | app/database.py:388-396 | an unknown token changes nothing; otherwise that session alone is removed |
| AppTables.DeleteSessionRemovesToken | app/database.py:388-396 | after the delete no session holds the token, and the others remain |
| AppTables.LiveSessions | app/database.py:398-409 | exactly the sessions that had not expired before `now` remain |
| AppTables.CleanupSessionsPreservesValid | app/database.py:398-409 | the cleanup keeps session tokens unique |
| AppDatabase.Store.constructor | app/database.py:15-17 | a new store is valid and empty |
| AppDatabase.Store.RegisterUser | app/database.py:19-31 | the new users table and outcome are those of `RegisterStep`; the other tables are unchanged |
| AppDatabase.Store.LoginUser | app/database.py:33-66 | the new users table and outcome are those of `LoginStep`; the other tables are unchanged |
| AppDatabase.Store.UpdateUserProfile | app/database.py:89-101 | the new users table and outcome are those of `UpdateProfileStep`; the other tables are unchanged |
| AppDatabase.Store.MakeUserAdmin | app/database.py:130-139 | the users table and result are those of `MakeAdminStep`; the other tables are unchanged |
| AppDatabase.Store.CreateLesson | app/database.py:183-189 | the lessons table and new lesson are those of `CreateLessonStep` |
| AppDatabase.Store.UpdateLesson | app/database.py:191-209 | the lessons table and result are those of `UpdateLessonStep` |
| AppDatabase.Store.DeleteLesson | app/database.py:211-219 | the lessons table and result are those of `DeleteLessonStep` |
| AppDatabase.Store.CreateQuiz | app/database.py:226-232 | the quizzes table and new quiz are those of `CreateQuizStep` |
| AppDatabase.Store.UpdateQuiz | app/database.py:234-248 | the quizzes table and result are those of `UpdateQuizStep` |
| AppDatabase.Store.SubmitQuiz | app/database.py:250-256 | the submissions table and new row are those of `SubmitStep` |
| AppDatabase.Store.SaveProgress | app/database.py:263-284 | the progress table and row are those of `SaveProgressStep`, so the pair stays unique |
| AppDatabase.Store.CreateHint | app/database.py:332-338 | the hints table and new hint are those of `CreateHintStep` |
| AppDatabase.Store.CreateSession | app/database.py:375-381 | the sessions table and result are those of `CreateSessionStep` |
| AppDatabase.Store.DeleteSession | app/database.py:388-396 | the sessions table and result are those of `DeleteSessionStep` |
| AppDatabase.Store.CleanupExpiredSessions | app/database.py:398-409 | exactly the live sessions remain, and the call reports success |
| AppDatabase.Store.CleanupExpiredTokens | app/database.py:411-428 | expired tokens are cleared and their number returned |
| AppDatabase.ClearExpired | app/database.py:418-428 | the loop yields the cleared table and the count of expired users |
| LegacyTables.RegisterStep | database.py:174-177 | a taken email or token leaves the table unchanged; otherwise a row with NULL admin and verified flags is appended |
| LegacyTables.LoginUser | database.py:179-193 | a token comes back only for a row of that email with a non-empty password whose digest matches |
| LegacyTables.LoginCannotTellFailures | database.py:179-193 | unknown email, empty stored password and wrong password all give the same `None` |
| LegacyTables.GetUser | database.py:195-199 | true iff some row has exactly that email |
| LegacyTables.GetUserByToken | database.py:201-204 | a user holding that token, with no expiry check |
| LegacyTables.UpdateProfileStep | database.py:211-224 | neither field truthy: nothing runs; a clashing email raises; otherwise the truthy fields are written to that id's row only |
| LegacyTables.UpdateProfileKeepsValid | database.py:211-224 | an executed profile update keeps emails unique |
| LegacyTables.UnknownIdIsExecuted | database.py:211-224 | an update of an unknown id runs and changes nothing |
| LegacyTables.ExecUpdate | database.py:305-307 | the `UPDATE … WHERE id = ?` applies the `SET` list to the row with that id and to no other |
| LegacyTables.ExecUpdatesOneRow | database.py:305-307 | with unique ids, exactly the matching row is rewritten |
| LegacyTables.ApplyFilteredInOrder | database.py:286-306 | applying the supplied columns in list order is applying each supplied column in turn |
| LegacyTables.AssignLessonChanges | database.py:281-307 | the built `SET` list writes truthy texts and a present order, as the application's update does |
| LegacyTables.LessonUpdateMatchesApp | database.py:281-307 | running the built query gives the lessons the application's `update_lesson` gives |
| LegacyTables.LessonUpdateOfExisting | database.py:281-307 | for an existing lesson the built query is well formed and rewrites that row |
| LegacyTables.TruthyTotal | database.py:338-340 | the total is supplied iff present and non-zero |
| LegacyTables.AssignQuizChanges | database.py:327-347 | the built `SET` list writes truthy title, questions and total |
| LegacyTables.QuizUpdateMatchesApp | database.py:327-347 | running the built query equals the application's `update_quiz` with a zero total dropped |
| LegacyTables.ZeroTotalIgnored | database.py:338-343 | a total of 0 alone builds no query and leaves the quiz unchanged |
| LegacyTables.SaveProgressStep | database.py:363-368 | every call appends a row, and the pair's row count grows by one |
| LegacyTables.LegacyLessonProgress | database.py:375-378 | some row of the pair, or none iff the pair has no row |
| LegacyTables.LegacyProgressOf | database.py:370-373 | exactly the rows of that user |
| LegacyTables.SaveTwiceKeepsBoth | database.py:363-368 | two saves of one pair leave two rows |
| LegacyTables.SaveThenReadIsStale | database.py:375-378 | once a pair has a row, a save leaves the pair's read returning that same older row |
| LegacyTables.StaleReadExample | database.py:363-378 | a save at 10.0 %, then one at 100.0 % for the same pair: the read returns the 10.0 % row |
| LegacyTables.LegacyUserStats | database.py:437-444 | the verified and admin counts are the numbers of rows whose flag is true (NULL is not), each zero iff none is |
| LegacyTables.RegisterCountsInTotalOnly | database.py:174-177 | a registration raises the total but neither flag count |
| LegacyTables.LegacyProgressStats | database.py:456-463 | the completed count is the number of completed rows, zero iff none is; the average is absent iff there are no rows |
| LegacyTables.SaveCountsEveryCall | database.py:363-368 | each save adds a progress record to the statistics |
| LegacyTables.CreateSessionStep | database.py:467-470 | a taken token leaves the sessions unchanged; otherwise one session is appended |
| LegacyTables.CleanupSessionsStep | database.py:482-484 | exactly the sessions whose expiry is not before `now` remain |
| LegacyTables.CleanupSessionsPreservesValid | database.py:482-484 | the cleanup keeps session tokens unique |
| LegacyDb.BuildLessonUpdate | database.py:281-307 | no query iff nothing is supplied; otherwise the columns are the supplied ones in the order title, description, difficulty, content, order, the parameters are their values, and the id comes last |
| LegacyDb.BuildQuizUpdate | database.py:327-347 | no query iff nothing is supplied; otherwise the supplied columns in the order title, questions, total, their values, and the id last |
| LegacyDb.LessonListBuilt | database.py:283-303 | the appended list equals the supplied columns in order, and it is empty iff nothing is supplied |
| LegacyDb.QuizListBuilt | database.py:329-343 | the appended quiz list equals the supplied columns in order |
| LegacyDb.LegacyStore.constructor | database.py:133-170 | the store opens over a valid database as it is |
| LegacyDb.LegacyStore.RegisterUser | database.py:174-177 | the users table and new id are those of `RegisterStep` |
| LegacyDb.LegacyStore.UpdateUserProfile | database.py:211-224 | the users table and outcome are those of `UpdateProfileStep` |
| LegacyDb.LegacyStore.UpdateLesson | database.py:281-307 | a statement runs iff something is supplied, and the lessons become those the application's update gives |
| LegacyDb.LegacyStore.UpdateQuiz | database.py:327-347 | a statement runs iff something truthy is supplied, and the quizzes become the application's update with a zero total dropped |
| LegacyDb.LegacyStore.SaveProgress | database.py:363-368 | the progress table gains the row `SaveProgressStep` appends |
| LegacyDb.LegacyStore.CreateSession | database.py:467-470 | the sessions table and id are those of `CreateSessionStep` |
| LegacyDb.LegacyStore.CleanupExpiredSessions | database.py:482-484 | exactly the unexpired sessions remain |
| LegacyDb.LessonUpdateKeepsIds | database.py:281-307 | an update never changes the lesson ids |
| LegacyDb.QuizUpdateKeepsIds | database.py:327-347 | an update never changes the quiz ids |
| Guard.Field | app/main.py:37 | the first field of a space split: a space-free prefix ending at a space or the end |
| Guard.BearerToken | app/main.py:30-37 | a token iff the header is present and starts with `Bearer `; the token follows the prefix, has no space and ends at a space or the end |
| Guard.BearerRoundTrip | app/main.py:37 | `Bearer <t>` followed by nothing or a space gives back `t` |
| Guard.Authenticate | app/main.py:26-47 | 401 "Authentication required" iff there is no bearer token; 401 "Invalid token" iff it resolves to no user; otherwise the resolved user |
| Guard.Bind | app/main.py:45 | the bound user carries the resolved identity, as the ORM row exactly when bound as written |
| Guard.UserIdOf | app/main.py:250 | `request.user["id"]` raises on the ORM row and reads the id from a mapping |
| Guard.IsAdminOf | app/main.py:54 | `request.user.get('is_admin')` raises on the ORM row and reads the flag from a mapping |
| Guard.Request.constructor | app/main.py:26-47 | a fresh request has no bound user |
| Guard.AuthRequired | app/api/user_endpoints.py:22-43 | refuses as `Authenticate` says with the request unchanged, or binds the resolved user (as written, the ORM row) and lets the handler run |
| Guard.LiveTokenAuthenticates | app/main.py:37-46 | a live token of a valid table binds its own user |
| Guard.ExpiredTokenIsInvalid | app/main.py:37-43 | an expired token gives 401 "Invalid token" |
| Guard.AdminCheck | app/main.py:50-60 | 403 when no user is bound; raises on the ORM row; otherwise passes iff the user is an admin, else 403 |
| Guard.AuthThenAdmin | app/main.py:665-667 | the admin route's decision, with the user bound iff authentication succeeded |
| Guard.AdminRoute | app/main.py:886-888 | the request passes iff the user is bound as a mapping and its token resolves to an admin; it raises iff the token resolves and the user is bound as the ORM row |
| Guard.AdminRouteAsWrittenNeverPasses | app/main.py:45-60 | as written no request passes an admin route: an admin's live token raises where the mapping would pass |
| Guard.AdminRouteRefusesInOrder | app/main.py:665-667 | with the mapping binding, an unauthenticated request gets 401, never 403; 403 goes only to a resolved non-admin |
| Handlers.RegisterLadder | app/main.py:122-176 | 400 iff a field is missing or the email or password is invalid; then 409 iff the email exists; then 500 iff no token came back; otherwise 200 with the token |
| Handlers.RegisterAgainstStore | app/api/user_endpoints.py:62-113 | against the store, registration answers 200, 400 or 409, and a 200 token resolves to the new user |
| Handlers.RegisterRaceIsServerError | app/api/user_endpoints.py:109-113 | an email registered between the check and the insert gives 500, not 409, and nothing changes |
| Handlers.LoginLadder | app/main.py:179-220 | 400 for a missing field or bad email, then 404 for an unknown email, 401 for a wrong password, otherwise 200 with the token |
| Handlers.LoginAgainstStore | app/api/user_endpoints.py:115-155 | 404 iff the email is unregistered, and a 200 token resolves to that email's user |
| Handlers.UpdateProfileLadder | app/main.py:246-282 | 400 when neither field is given or a given email is invalid; 500 when the store reports no update; otherwise 200 |
| Handlers.UpdateProfile | app/main.py:246-282 | a raise reading the id gives 500 with the table unchanged; otherwise the ladder's answer on the store's outcome, with the table changed only on success |
| Handlers.UpdateProfileAsWrittenFails | app/main.py:246-282 | with the ORM row bound, renaming answers 500 and changes nothing; with the mapping it succeeds and writes the name |
| Handlers.UpdateProfileOfBoundUser | app/api/user_endpoints.py:180-213 | for a user bound as a mapping, past the 400 checks the answer is 500 exactly when another user holds the email, and a success changes no other user |
| Handlers.QuizIdOf | app/main.py:364 | `quiz["id"]` raises on the ORM `Quiz` row and reads the id from a mapping |
| Handlers.SubmitLadder | app/main.py:340-386 | 400 for empty answers, 404 for no quiz, 500 for several or when the one quiz's id read raises, otherwise the found quiz's id with score 0 and max score 100 by default |
| Handlers.SubmitLessonQuiz | app/api/user_endpoints.py:270-316 | 500 for the ORM user row; otherwise the ladder's status for the way the quiz is handed back; a refusal leaves the ledger unchanged; a 200 appends one submission to the lesson's quiz |
| Handlers.SubmitLessonQuizAsWrittenFails | app/api/user_endpoints.py:286-296 | with the quiz returned as the ORM row, no request stores a submission, and on a lesson with one quiz a user bound as a mapping gets 500 |
| Handlers.SubmitToOnlyQuizStores | app/api/user_endpoints.py:270-316 | with user and quiz read as mappings, answers on a lesson with one quiz append one submission for that user, lesson and quiz, scored 0 out of 100 |
| Handlers.UpdateLessonProgress | app/api/user_endpoints.py:335-360 | 200 iff the user is bound as a mapping, else 500 with nothing changed; on 200 the pair's row holds the supplied or default values, and every other pair reads as before |
| Handlers.EmptyProgressRequestResets | app/main.py:403-432 | for a user bound as a mapping, an empty request resets the pair to incomplete, 0.0 percent and 0 minutes |
| AdminHandlers.CreateLessonAdmin | app/api/admin_endpoints.py:85-117 | 400 iff the title is missing or empty; otherwise the lesson is appended with defaults "", "beginner", "" and 0 |
| AdminHandlers.CreateQuizAdmin | app/api/admin_endpoints.py:171-205 | 400 iff the title or questions are missing or empty; otherwise the quiz is appended with a total of 100 by default |
| AdminHandlers.CreateHintAdmin | app/api/admin_endpoints.py:207-235 | 400 iff the hint text is missing or empty; otherwise the hint is appended at level 1 by default |
| AdminHandlers.MakeAdmin | app/api/admin_endpoints.py:65-83 | 500 iff no user has the id; otherwise that user alone becomes an admin |
| AdminHandlers.UpdateLessonAdmin | app/api/admin_endpoints.py:119-149 | 500 iff no lesson has the id, with nothing changed; otherwise that lesson gets the truthy texts and a present order, keeps its id and creation time, and the others are unchanged |
| AdminHandlers.DeleteLessonAdmin | app/api/admin_endpoints.py:151-169 | 500 iff no lesson has the id, with nothing changed; otherwise that lesson is gone and the others remain, unchanged and in their order |

## Left out

**External effects.**
- Hashing and randomness: bcrypt, sha256 and `secrets.token_urlsafe` are not modelled. The hash is a function parameter and a new token is a parameter absent from the table.
- Clocks: `datetime.now`, `utcnow` and SQL `datetime('now')` are not modelled. `now` is an integer argument. SQL `datetime('now')` compares text, which is not modelled.
- Persistence: engines, sessions, commit, refresh, rollback, table creation and the connection manager of `database.py` are not modelled. Tables are sequences, and an integrity error is an explicit check.
- Concurrency: `async`/`await` is not modelled. The check-then-insert races of `register` and `save_progress` are not modelled, except `Handlers.RegisterRaceIsServerError`, which takes the table before and after as two arguments.
- Floating point: percentages and scores are `real`. Rounding and `AVG` are not computed, and the average is stated only as present or absent and as bounded.

**HTTP framework.**
- HTTP plumbing is not modelled: routing, `JSONResponse` bodies, error-message formatting other than the guard denials, the `index`/`run` functions and the admin dashboard and listing handlers.
- A request field is `None` when the JSON body lacks it. An explicit JSON `null` is the same `None` only for fields read without a default; the fields read with `data.get(key, default)` are listed below. Fields of the wrong JSON type are not modelled.
- Handlers.SubmitLadder: a `"score": null` or `"max_score": null` reaches `submit_quiz` as `None` and is stored NULL (the columns have no default, app/models.py:95-96); the model stores 0.0 and 100.0, the values for an absent field.
- Handlers.SubmitLessonQuiz: the same NULL score and maximum are not modelled, and the answers are stored as `json.dumps` text where the model stores the list.
- Handlers.UpdateLessonProgress: a `null` `completed`, `completion_percentage` or `time_spent` writes NULL over an existing row (app/database.py:277-279); the model writes false, 0.0 and 0, the values for an absent field.
- AdminHandlers.CreateLessonAdmin: a `null` description, difficulty, content or order is stored NULL (these columns have no default, app/models.py:62-65); the model stores "", "beginner", "" and 0, the values for an absent field.
- AdminHandlers.CreateQuizAdmin: the questions are stored as `json.dumps` text where the model stores the list.
- Path parameters are integers. Their string-to-int conversion is not modelled.
- Guard.AuthRequired: the bound user is reduced to its id and admin flag. The framework's response to an exception that escapes a guard (`Guard.Gate.Raise`) is not modelled.
- Guard.AdminCheck: the reads of `request.user` other than the id and the admin flag (`get_profile` and the listing handlers) are not modelled.
- Guard.AdminCheck: the handlers of `app/api/admin_endpoints.py` carry `admin_required` alone; how they are wired to routes is outside the model, and the contract gives only that with no user bound the answer is 403.
- Handlers.UpdateLessonProgress: requires the store's invariant of one row per (user, lesson). The store keeps that invariant for every writer.

**Out of scope.**
- The AI and code-evaluation stubs are not modelled, nor chat history, hints by lesson and listing reads (`get_all_users`, `get_all_lessons`, `get_hint`). `get_lesson_by_id` is modelled by `AppTables.FindLessonById`.
- Password change, verification, admin removal, banning and user deletion are not modelled.
- `run.py`, `app/config.py`, `test.py` and the top-level `main.py` are not part of this model.
- Records.TokenExpiry: `app/config.py:19` reads the token lifetime from `USER_TOKEN_LIFETIME_HOURS`; the model fixes it at the default, 24 hours.

**Simplifications.**
- Validators.IsValidPhone: `str.isdigit` also accepts non-ASCII digits; the model accepts ASCII digits only.
- AppTables.ProgressStats: the average is an exact quotient of reals, not SQLite's floating-point `AVG`.
- LegacyTables.LegacyProgressStats: the average is an exact quotient of reals, not SQLite's floating-point `AVG`.
- The older `is_valid_password`, `is_valid_phone` and `is_valid_url` of `utility.py` (lines 36-48) are the same text as those of `app/utils.py`. They are modelled once, by `Validators.IsValidPassword`, `Validators.IsValidPhone` and `Validators.IsValidUrl`.
- The legacy `get_lesson_stats` (database.py:446-454) counts the same things as the application's and is modelled once, by `AppTables.LessonStats`.
- AppTables.DeleteLessonStep: the foreign keys from quizzes, progress and hints to the deleted lesson are not modelled.
- AppDatabase.Store.DeleteLesson: `session.delete(lesson)` (app/database.py:217) with the default cascade of the `Lesson` relationships (app/models.py:69-73) and nullable `lesson_id` columns sets `lesson_id` to NULL in the lesson's quizzes, submissions, progress rows and hints; the model leaves those rows as they were, so for example `QuizForLesson` still finds a quiz of the deleted lesson where the source's `get_quiz` finds none.
- AdminHandlers.CreateLessonAdmin: the success body carries the `Lesson` row `create_lesson` returns as `"lesson_id"` (app/api/admin_endpoints.py:108), not its id; the model assumes the framework's `JSONResponse` encodes it and answers 200 with the id. If encoding the row raises, the source answers 500 after the row is stored; the framework is not part of this model.
- AdminHandlers.CreateQuizAdmin: the same for the `Quiz` row sent as `"quiz_id"` (app/api/admin_endpoints.py:197).
- AdminHandlers.CreateHintAdmin: the same for the `AIHint` row sent as `"hint_id"` (app/api/admin_endpoints.py:231).
- AppTables.SubmissionsOf: the order among submissions with equal timestamps is whatever the sort gives. SQL leaves it unspecified.
- AppTables.LiveSessions: a session with no expiry is kept, because comparing SQL NULL is never true.

## Findings

| source | as written | input that shows it | evidently intended | confidence | as-written member | corrected member |
|---|---|---|---|---|---|---|
| database.py:64-75, 363-368, 375-378 | the progress table has no uniqueness on (user_id, lesson_id), so `INSERT OR REPLACE` appends a row on every save, and `get_lesson_progress` returns one of the rows of the pair | save (user 1, lesson 1, 10.0 %), then save (user 1, lesson 1, 100.0 %), then read (user 1, lesson 1): two rows exist and the read returns the 10.0 % row | one row per (user, lesson) that the second save replaces, as `app/database.py:263-284` does | not executed | LegacyTables.StaleReadExample | AppTables.SaveProgressTwiceReplaces |
| app/main.py:45, 250, 345, 408 | `auth_required` binds the ORM `User` row that `get_user_by_token` returns, and `update_profile`, `submit_lesson_quiz` and `update_lesson_progress` read `request.user["id"]`; the ORM class defines no `__getitem__`, so the read raises `TypeError`, which the handler's `try` answers with 500 before any check | a live token and `PUT /api/v1/profile` with `{"name": "x"}`: 500 "'User' object is not subscriptable", and the name is not written | bind a mapping of the row's columns (or read `request.user.id`), so that the handlers run their checks and store calls (`submit_lesson_quiz` then still fails at `quiz["id"]`, next row) | not executed | Handlers.UpdateProfileAsWrittenFails | Handlers.UpdateProfileOfBoundUser |
| app/main.py:364 | `get_quiz` returns the ORM `Quiz` row (`scalar_one_or_none`, app/database.py:221-224) and `submit_lesson_quiz` passes `quiz["id"]` to `submit_quiz`; the class defines no `__getitem__`, so the read raises `TypeError`, which the `try` answers with 500, even once the user is bound as a mapping | a user bound as a mapping, a lesson with exactly one quiz and the body `{"answers": ["a"]}`: 500 "'Quiz' object is not subscriptable", and no submission is stored | read the quiz's id (`quiz.id`), so that the submission is stored | not executed | Handlers.SubmitLessonQuizAsWrittenFails | Handlers.SubmitToOnlyQuizStores |
| app/main.py:45-60 | on an admin route, `admin_required` runs after `auth_required` has bound the ORM row and calls `request.user.get('is_admin')`; the ORM class has no `get`, so the call raises `AttributeError` outside any `try`, and neither the handler nor the 403 is ever reached | an admin's live token on `POST /api/v1/admin/lessons`: the guard raises instead of running the handler | read the admin flag of the bound user, letting admins through and answering 403 to others | not executed | Guard.AdminRouteAsWrittenNeverPasses | Guard.AdminRouteRefusesInOrder |
