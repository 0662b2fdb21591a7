# NEET exam-prep backend: admin directory, auth gate, question/exam/practice use cases, MedMCQA migration

This project models the core of the Go backend of an exam-preparation
service (NEET, NEET-PG and related medical entrance exams) in Dafny. It
proves properties of that model.

- **Admin use case** (`internal/usecase/admin/admin.go`):
  - an in-memory directory of console users, as a class whose `users` map the methods update;
  - the listing, with filtering, newest-first ordering and paging;
  - create, update, delete, bulk status and bulk delete;
  - the fixed dashboard read models: time series, subject accuracy, weak topics, upcoming events, referral summary and invite;
  - the helpers: `splitName`, `slugifyName`, `normalizeRole`, `rangeToDays`, `metricValue`.
- **Admin user routes** (`internal/controller/http/v1/admin_users_routes.go`):
  - query-integer parsing;
  - the comma-separated status list parser, a loop proved against a reference reading;
  - status and role validation;
  - the list filter built from the query;
  - the HTTP status each handler maps an outcome to.
- **Auth middleware** (`internal/controller/http/middleware/auth.go`):
  - bearer-token extraction;
  - the 401/403 decision for user and admin routes.
- **Question, exam and practice use cases** (`internal/usecase/{question,exam,practice}`):
  - the records handed to the repository;
  - the field-by-field partial updates;
  - answer scoring;
  - the error wrapping around repository calls;
  - the exam list filter loop.
- **MedMCQA migration generator** (`scripts/gen_medmcqa_dev_migration.go`):
  - SQL literal escaping, with a proved read-back;
  - subject and topic normalisation;
  - the topic-gathering loop over records, proved against a reference fold;
  - the sorted topic pairs;
  - the question row fields.

Go semantics the model relies on are written out in two support modules.
`GoStrings` covers `strings.Fields`, `Split`, `Join`, `TrimSpace`, `ToLower`, `EqualFold`, `ReplaceAll` and `<` on strings. `GoInts` covers `strconv.Atoi`/`Itoa`, int64 wrap-around and truncating division.

Representations:

- Ids are naturals, with `uuid.Nil` as 0.
- Times are Unix seconds.
- Enumerations are strings.
- `float64` constants are reals.
- Repositories are function-valued parameters. `GetByID`, for example, is a `Uuid -> Result<Question, string>`.
- The clock and fresh ids are parameters.

## Model

| member | source | states |
|---|---|---|
| AdminUsers.SeedUser | internal/usecase/admin/admin.go:49-68 | the bootstrap user keeps the profile's id and e-mail, takes its first and last name from splitting the display name and its username (without spaces) from slugifying it, has the fixed bootstrap phone, is active, has the profile's role normalised into the admin roles, and is created and updated at the profile's time or, when that is zero, at the clock's |
| AdminUsers.UseCase.constructor | internal/usecase/admin/admin.go:39-47 | a new use case holds exactly the seeded bootstrap user, and the directory invariant holds |
| AdminUsers.UseCase.UsernameExists | internal/usecase/admin/admin.go:389-399 | the scan answers true exactly when some user other than the excluded id has the username up to letter case |
| AdminUsers.UseCase.EmailExists | internal/usecase/admin/admin.go:401-411 | the same for e-mails |
| AdminUsers.UseCase.CreateUser | internal/usecase/admin/admin.go:263-290 | a username taken by anyone is a duplicate-username error; failing that, a taken e-mail is a duplicate-email error; otherwise the request is stored under the new id with both times `now`; on an error nothing changes; the invariant (no two users fold-equal in username or e-mail) is kept |
| AdminUsers.UseCase.UpdateUser | internal/usecase/admin/admin.go:293-334 | a missing id is not-found; a changed username or e-mail that another user holds is a duplicate error, username first; otherwise only that user changes, to the merge of the request; the invariant is kept |
| AdminUsers.UseCase.DeleteUser | internal/usecase/admin/admin.go:337-346 | a missing id is not-found and changes nothing; otherwise exactly that key is removed |
| AdminUsers.UseCase.BulkStatus | internal/usecase/admin/admin.go:349-364 | the same ids stay; every listed user that exists gets the status and update time, and the others are untouched; the count is the number of list entries that exist, repeats included |
| AdminUsers.UseCase.BulkDelete | internal/usecase/admin/admin.go:367-379 | afterwards the directory is the old one minus every listed id; the count is the number of distinct listed ids that existed |
| AdminUsers.UseCase.MatchingUsers | internal/usecase/admin/admin.go:224-236 | the scan returns each stored user that passes the filter exactly once, and nothing else |
| AdminUsers.UseCase.ListUsers | internal/usecase/admin/admin.go:213-260 | the page and size default to 1 and 20; the matching users are ordered newest first; the items are that order cut to the page; the total is the number of matches |
| AdminUsers.CopyPresentFields | internal/usecase/admin/admin.go:309-330 | copying the present request fields one by one gives the merged user |
| AdminUsers.MergeUserLaws | internal/usecase/admin/admin.go:309-330 | a merge is idempotent; the empty update only touches the update time; a present field wins and an absent one keeps the stored value; id and creation time stay; the password is never stored |
| AdminUsers.CreateKeepsInvariant | internal/usecase/admin/admin.go:267-288 | adding a user whose username and e-mail nobody holds, up to case, keeps the directory invariant |
| AdminUsers.UpdateKeepsInvariant | internal/usecase/admin/admin.go:302-331 | an update that passed both clash checks keeps the directory invariant |
| AdminUsers.NotTakenApart | internal/usecase/admin/admin.go:302-307 | after both clash checks, the merged username and e-mail fold-equal no other user's |
| AdminUsers.SameIdentities | internal/usecase/admin/admin.go:349-364 | a change that touches no id, username or e-mail keeps the invariant |
| AdminUsers.SubmapKeepsInvariant | internal/usecase/admin/admin.go:367-379 | removing users keeps the invariant |
| AdminUsers.CountPresentDistinct | internal/usecase/admin/admin.go:349-364 | for a list without repeats, the bulk-status count is the number of listed ids that exist |
| AdminUsers.CountFirstPresentIsOverlap | internal/usecase/admin/admin.go:367-379 | the bulk-delete count equals the size of the overlap between the listed ids and the stored ones |
| AdminUsers.CountPresentRepeats | internal/usecase/admin/admin.go:354-360 | an id listed twice is counted twice by the bulk status change |
| AdminUsers.DeleteStep | internal/usecase/admin/admin.go:370-376 | one more listed id removes that user if still present and nothing otherwise |
| AdminUsers.StatusStep | internal/usecase/admin/admin.go:353-361 | one more listed id gives that user, if present, the new status and time, and leaves every other user as it was |
| AdminUsers.PermutationKeepsSelection | internal/usecase/admin/admin.go:238-240 | sorting the matches keeps exactly the matching users |
| AdminUsers.NilBootstrapAdmitsDuplicate | internal/usecase/admin/admin.go:267-272 | with the bootstrap user stored under the nil id, the check as written lets a create reuse its username, and the directory then holds two fold-equal usernames |
| AdminUsers.CreateConflictAgrees | internal/usecase/admin/admin.go:267-272 | when no user has the nil id, the check as written and the corrected check agree |
| AdminHelpers.SplitNameWords | internal/usecase/admin/admin.go:444-453 | a blank name gives "Admin" "User"; otherwise the first name is the first word, the last name is empty for one word, and for more words first and last name re-joined give the same words |
| AdminHelpers.SlugifyNameShape | internal/usecase/admin/admin.go:455-458 | a slug holds no space, no upper-case letter and no doubled underscore |
| AdminHelpers.CollapseUnderscores | internal/usecase/admin/admin.go:457 | replacing "__" by "." leaves no "__" |
| AdminHelpers.ReplaceAllChars | internal/usecase/admin/admin.go:455-458 | every character of a replacement result comes from the input or from the replacement text |
| AdminHelpers.NormalizeRoleClosed | internal/usecase/admin/admin.go:460-471 | the result is always one of the four roles: the lower-cased role when it is one of them, admin otherwise; it ignores letter case |
| AdminHelpers.RangeToDaysCases | internal/usecase/admin/admin.go:422-433 | today, the 7-day spellings and the 30-day spellings, in any letter case, give 1, 7 and 30 days; anything else is the invalid-range error |
| AdminHelpers.MetricValueBounds | internal/usecase/admin/admin.go:435-442 | after 1970 the value lies in [base+100, base+300); before it, truncating division keeps it within [base-99, base+300) |
| AdminHelpers.MetricValuePeriodic | internal/usecase/admin/admin.go:435-442 | from 1970 on, the value repeats every 200 days |
| AdminAnalytics.TargetExam | internal/usecase/admin/admin.go:91-94 | the requested exam when it is given and non-empty, the profile's primary exam otherwise |
| AdminAnalytics.BuildPoints | internal/usecase/admin/admin.go:96-104 | the loop builds one point per day, oldest first, for the last `days` days |
| AdminAnalytics.TimeSeries | internal/usecase/admin/admin.go:76-112 | an unknown metric (after lower-casing) is the invalid-metric error; an empty window means 7d; a bad window is the invalid-range error; otherwise the points of the window, with the metric lower-cased and the window and target exam echoed |
| AdminAnalytics.SeriesPointsConsecutive | internal/usecase/admin/admin.go:98-104 | the points cover consecutive calendar days ending today |
| AdminAnalytics.DayOfShift | internal/usecase/admin/admin.go:99 | going back k whole days moves the calendar day back by k |
| AdminAnalytics.SeriesPointsBounded | internal/usecase/admin/admin.go:96-104 | every point's value lies within the metric's bounds |
| AdminAnalytics.TimeSeriesShape | internal/usecase/admin/admin.go:76-112 | a successful series has 1, 7 or 30 points on consecutive days ending today, each within the metric's bounds |
| AdminAnalytics.SubjectAccuracy | internal/usecase/admin/admin.go:115-132 | the four fixed subjects, reported for the target exam, each with an accuracy strictly between 0 and 1 |
| AdminAnalytics.AllWeakTopics | internal/usecase/admin/admin.go:140-147 | four fixed weak topics |
| AdminAnalytics.WeakTopics | internal/usecase/admin/admin.go:135-154 | the first `limit` of the four items, or all four when the limit is not positive or exceeds four |
| AdminAnalytics.WeakTopicNamesHaveNoUnderscore | internal/usecase/admin/admin.go:140 | no subject name keeps an underscore of the exam name |
| AdminAnalytics.UpcomingEvents | internal/usecase/admin/admin.go:157-185 | two scheduled events for the target exam: a mock 72 hours from now, named after the exam with underscores as spaces, and a daily test 24 hours from now |
| AdminAnalytics.UpcomingMockNameHasNoUnderscore | internal/usecase/admin/admin.go:166 | the mock's name never keeps an underscore of the exam name |
| AdminAnalytics.ReferralSummary | internal/usecase/admin/admin.go:188-210 | an empty window reads as 30d; "7d" and "today" have their own figures; every other window reports the 30-day figures |
| AdminAnalytics.ReferralSummaryBounds | internal/usecase/admin/admin.go:193-207 | for every window, each figure lies between the "today" figure and the thirty-day one; a window reports today's total exactly when it is "today", and the thirty-day total exactly when it is neither "today" nor "7d" |
| AdminAnalytics.InviteUser | internal/usecase/admin/admin.go:382-387 | an invite is always accepted and expires 72 hours from now |
| AdminListing.InsertDesc | internal/usecase/admin/admin.go:238-240 | insertion adds exactly the one user |
| AdminListing.InsertDescSorted | internal/usecase/admin/admin.go:238-240 | inserting into a newest-first list keeps it newest first |
| AdminListing.SortDesc | internal/usecase/admin/admin.go:238-240 | the result is a permutation of the input, ordered newest first |
| AdminListing.SortedDescPairwise | internal/usecase/admin/admin.go:238-240 | in a newest-first list every earlier user is at least as new as every later one |
| AdminListing.PageBounds | internal/usecase/admin/admin.go:242-250 | the page's bounds are clamped to the list |
| AdminListing.PageBoundsTile | internal/usecase/admin/admin.go:242-250 | a page holds at most pageSize users; page p starts where page p-1 ends; a page past the end is empty |
| AdminListing.SecondPageOfThree | internal/usecase/admin/admin.go:242-250 | page 2 of size 1 over three users is the middle one |
| AdminListing.PageBoundsAsWrittenAgrees | internal/usecase/admin/admin.go:242-250 | while the products stay inside int64, the computation as written and the clamped bounds agree |
| AdminListing.PageEndOverflows | internal/usecase/admin/admin.go:242-250 | page 2 of size MaxInt64 wraps the end below the start, which makes the Go slice expression panic |
| AdminListing.PageStartWraps | internal/usecase/admin/admin.go:242-250 | a page number whose offset wraps to zero returns the first users instead of an empty page |
| AdminRoutes.ParseQueryInt | internal/controller/http/v1/admin_users_routes.go:256-263 | a value that parses as an int and is positive is used; anything else gives the default |
| AdminRoutes.ParseQueryIntItoa | internal/controller/http/v1/admin_users_routes.go:256-263 | a positive number written out in decimal reads back as itself; zero and negatives give the default |
| AdminRoutes.IsValidAdminStatus | internal/controller/http/v1/admin_users_routes.go:281-288 | true exactly for the four statuses |
| AdminRoutes.IsValidAdminRole | internal/controller/http/v1/admin_users_routes.go:290-297 | true exactly for the four roles |
| AdminRoutes.NormalizeAll | internal/controller/http/v1/admin_users_routes.go:268-269 | each piece is trimmed and lower-cased, in order |
| AdminRoutes.KeptStatuses | internal/controller/http/v1/admin_users_routes.go:265-279 | only valid statuses are kept, in order |
| AdminRoutes.ParseStatusesMeaning | internal/controller/http/v1/admin_users_routes.go:265-279 | the parse succeeds exactly when every piece is blank or valid, and then yields the valid ones in order; otherwise the error names the first piece that is neither |
| AdminRoutes.ParseStep | internal/controller/http/v1/admin_users_routes.go:267-277 | one step of the reading: skip a blank piece, stop at an invalid one, keep a valid one |
| AdminRoutes.PrependTwice | internal/controller/http/v1/admin_users_routes.go:276 | appending two valid pieces in turn is appending both at once |
| AdminRoutes.ParseUserStatuses | internal/controller/http/v1/admin_users_routes.go:265-279 | the loop returns exactly the reference reading of the comma-split pieces |
| AdminRoutes.ListFilter | internal/controller/http/v1/admin_users_routes.go:38-59 | a 400 reply exactly when the status list fails to parse or the lower-cased role is not one of the four; otherwise page and size default to 1 and 20, the statuses are the valid pieces and the role is lower-cased |
| AdminRoutes.ListFilterWellFormed | internal/controller/http/v1/admin_users_routes.go:38-59 | every filter the route builds has a positive page and size, valid statuses and a valid role |
| AdminRoutes.ReplyCodes | internal/controller/http/v1/admin_users_routes.go:81-169 | 409 exactly for a duplicate, 404 exactly for a missing user, and 201/200/204 exactly on success; every failure is a 4xx or 5xx |
| AuthMiddleware.HeaderToken | internal/controller/http/middleware/auth.go:11-23 | a token exactly when the header has two space-separated fields and the first is "bearer" in any case; the token is the second field |
| AuthMiddleware.HeaderTokenRoundTrip | internal/controller/http/middleware/auth.go:11-23 | "scheme token" yields the token exactly when the scheme is "bearer" in any case |
| AuthMiddleware.Authorize | internal/controller/http/middleware/auth.go:33-56 | a bad header is 401 "missing or invalid token"; a token the parser rejects is 401 "invalid token"; on an admin route a role other than admin or super-admin is 403; otherwise the request continues with the claims' user id and role |
| AuthMiddleware.BadHeaderSkipsParse | internal/controller/http/middleware/auth.go:35-38 | without a bearer token the parser is never consulted |
| AuthMiddleware.RoleGate | internal/controller/http/middleware/auth.go:25-31 | user routes only ever reject with 401; admin routes answer 403 exactly for a valid token with a non-admin role; admin routes let through only what user routes let through |
| QuestionUseCase.StringPointer | internal/usecase/question/question.go:143-149 | nil exactly for the empty string, otherwise a pointer to it |
| QuestionUseCase.StringPointerRoundTrip | internal/usecase/question/question.go:143-149 | reading the pointer back, with nil as "", gives the string |
| QuestionUseCase.NewQuestion | internal/usecase/question/question.go:35-53 | the new record carries the fresh id and every request field; the explanation is absent exactly when it was empty |
| QuestionUseCase.NewQuestionKeepsRequest | internal/usecase/question/question.go:35-53 | the request can be read back from the new question |
| QuestionUseCase.AdminCreate | internal/usecase/question/question.go:34-61 | the repository's answer, its error wrapped with "question - Create: " |
| QuestionUseCase.MergeQuestionFields | internal/usecase/question/question.go:80-124 | each present field replaces the stored one and each absent one keeps it; id and exam never change |
| QuestionUseCase.MergeIdempotent | internal/usecase/question/question.go:80-124 | the empty request keeps the question; repeating a request changes nothing more |
| QuestionUseCase.MergeOverlay | internal/usecase/question/question.go:80-124 | two requests in turn equal one request in which the later fields win |
| QuestionUseCase.MergeFullUpdate | internal/usecase/question/question.go:80-124 | a request carrying every field rewrites the question to the one it was read from |
| QuestionUseCase.UpdateNeverClearsExplanation | internal/usecase/question/question.go:105-107 | an update never clears a stored explanation; an empty one is stored as present |
| QuestionUseCase.AdminUpdate | internal/usecase/question/question.go:74-132 | a failed load is "question - GetByID: " plus the error; otherwise the repository's answer for the merged record, its error wrapped with "question - Update: " |
| QuestionUseCase.MissingQuestionSkipsUpdate | internal/usecase/question/question.go:75-78 | when the load fails, the repository's update is never consulted |
| ExamUseCase.OfExamCount | internal/usecase/exam/exam.go:31-38 | the filter keeps every config of the exam with its multiplicity and drops all others |
| ExamUseCase.OfExamMeaning | internal/usecase/exam/exam.go:31-38 | a config is kept exactly when it is listed and of the exam |
| ExamUseCase.OfExamAppend | internal/usecase/exam/exam.go:31-38 | filtering distributes over concatenation |
| ExamUseCase.AdminList | internal/usecase/exam/exam.go:24-42 | a repository error is wrapped with "exam - ListConfigs: "; with no exam every config is returned; with an exam, the configs of that exam in order |
| ExamUseCase.NewConfig | internal/usecase/exam/exam.go:46-60 | the new config carries the fresh id and every request field, and is a draft |
| ExamUseCase.NewConfigKeepsRequest | internal/usecase/exam/exam.go:46-60 | the request can be read back from the new config, so distinct requests give distinct configs |
| ExamUseCase.AdminCreate | internal/usecase/exam/exam.go:45-68 | the repository's answer, its error wrapped with "exam - CreateConfig: " |
| ExamUseCase.MergeConfig | internal/usecase/exam/exam.go:87-119 | each present field replaces the stored one and each absent one keeps it; id and exam never change |
| ExamUseCase.MergeIdempotent | internal/usecase/exam/exam.go:87-119 | the empty request keeps the config; repeating a request changes nothing more |
| ExamUseCase.MergeOverlay | internal/usecase/exam/exam.go:87-119 | two requests in turn equal one request in which the later fields win |
| ExamUseCase.ScheduleNeverCleared | internal/usecase/exam/exam.go:111-116 | an update never clears a stored schedule time |
| ExamUseCase.AdminUpdate | internal/usecase/exam/exam.go:81-127 | a failed load is "exam - GetConfig: " plus the error; otherwise the repository's answer for the merged config, its error wrapped with "exam - UpdateConfig: " |
| ExamUseCase.MissingConfigSkipsUpdate | internal/usecase/exam/exam.go:82-85 | when the load fails, the repository's update is never consulted |
| PracticeUseCase.NewSession | internal/usecase/practice/practice.go:26-32 | the new session is in progress from now, in the request's mode and exam, with nothing planned or completed |
| PracticeUseCase.NewSessionIgnoresSelection | internal/usecase/practice/practice.go:26-32 | two requests give the same session exactly when they agree on mode and exam |
| PracticeUseCase.CreateSession | internal/usecase/practice/practice.go:25-40 | the repository's answer, its error wrapped with "practice - CreateSession: " |
| PracticeUseCase.Answer | internal/usecase/practice/practice.go:74-77 | the choice is recorded; the question is marked correct exactly when the choice is its correct option; the time taken is replaced; the rest is kept |
| PracticeUseCase.AnswerLaws | internal/usecase/practice/practice.go:74-77 | every answer leaves the question consistently scored, and a later answer overrides an earlier one completely |
| PracticeUseCase.AnswerQuestion | internal/usecase/practice/practice.go:68-85 | a failed load is "practice - GetSessionQuestion: " plus the error; otherwise the repository's answer for the scored question, its error wrapped with "practice - UpdateSessionQuestion: " |
| PracticeUseCase.MissingQuestionSkipsUpdate | internal/usecase/practice/practice.go:69-72 | when the load fails, the repository's update is never consulted |
| MigrationSql.Escape | scripts/gen_medmcqa_dev_migration.go:302-306 | an escaped value holds no newline |
| MigrationSql.EscapeIsCharwise | scripts/gen_medmcqa_dev_migration.go:302-306 | the two replacement passes escape each character on its own |
| MigrationSql.UnescapeEscape | scripts/gen_medmcqa_dev_migration.go:302-306 | reading the SQL literal body back gives the value, with newlines as spaces |
| MigrationSql.EscapePtr | scripts/gen_medmcqa_dev_migration.go:308-313 | a missing value is written as nothing, a present one escaped |
| MigrationSql.NullOrQuote | scripts/gen_medmcqa_dev_migration.go:315-320 | a missing value is NULL; a present one is a quoted literal without newlines that reads back as the value, with newlines as spaces |
| MigrationSql.Comma | scripts/gen_medmcqa_dev_migration.go:322-327 | no separator exactly after the last item, a comma otherwise |
| MigrationSql.CommaSeparates | scripts/gen_medmcqa_dev_migration.go:322-327 | every row of a VALUES list but the last is followed by a comma |
| MigrationSql.AliasesCover | scripts/gen_medmcqa_dev_migration.go:36-42 | the alias map holds the key of every listed subject, and maps only to listed subjects |
| MigrationSql.Canonical | scripts/gen_medmcqa_dev_migration.go:130-132 | a name resolves to a listed subject or to "" |
| MigrationSql.CanonicalSubject | scripts/gen_medmcqa_dev_migration.go:130-132 | the result is one of the twenty subjects or "" |
| MigrationSql.CanonicalFindsSubject | scripts/gen_medmcqa_dev_migration.go:130-132 | with distinct keys, a name resolves to the listed subject with the same trimmed, lower-cased key |
| MigrationSql.KeyShape | scripts/gen_medmcqa_dev_migration.go:131 | the key of a name with no white space at its ends has the name's length and its lower-cased first two letters |
| MigrationSql.SubjectKeyPosition | scripts/gen_medmcqa_dev_migration.go:13-42 | the key of each of the twenty subjects identifies its place in the list |
| MigrationSql.SubjectKeysDistinct | scripts/gen_medmcqa_dev_migration.go:13-42 | no two of the twenty subjects share a trimmed, lower-cased key, so the alias map keeps all of them |
| MigrationSql.SubjectListNoRepeats | scripts/gen_medmcqa_dev_migration.go:13-34 | no subject is listed twice |
| MigrationSql.CanonicalSubjectFinds | scripts/gen_medmcqa_dev_migration.go:130-132 | a name resolves to the listed subject with the same trimmed, lower-cased key; each listed subject resolves to itself |
| MigrationSql.CanonicalUnknown | scripts/gen_medmcqa_dev_migration.go:130-132 | a name whose key matches no listed subject resolves to "" |
| MigrationSql.CanonicalTopic | scripts/gen_medmcqa_dev_migration.go:134-143 | "General" for a missing or blank topic, the trimmed topic otherwise; never "" |
| MigrationSql.CanonicalTopicTrimmed | scripts/gen_medmcqa_dev_migration.go:134-143 | a topic name has no white space at either end, and normalising it again changes nothing |
| MigrationSql.NormalizeCorrectOption | scripts/gen_medmcqa_dev_migration.go:245-248 | 1 to 4 are kept; anything else becomes 1 |
| MigrationSql.NormalizeChoiceType | scripts/gen_medmcqa_dev_migration.go:240-243 | "multi" exactly when the value trims and lower-cases to "multi", "single" otherwise |
| MigrationSql.NormalizeIdempotent | scripts/gen_medmcqa_dev_migration.go:240-248 | normalising a normalised option or choice type changes nothing |
| MigrationTopics.Entries | scripts/gen_medmcqa_dev_migration.go:110-118 | one normalised subject/topic entry per record |
| MigrationTopics.TopicsOfMeaning | scripts/gen_medmcqa_dev_migration.go:110-120 | a topic is gathered for a subject exactly when some record normalises to that pair |
| MigrationTopics.UnknownSubjectSkipped | scripts/gen_medmcqa_dev_migration.go:110-113 | a record with an unknown subject adds no topic |
| MigrationTopics.GatherMeaning | scripts/gen_medmcqa_dev_migration.go:99-121 | the fold keeps the subject keys and adds to each subject exactly its records' topics |
| MigrationTopics.GatherPrefix | scripts/gen_medmcqa_dev_migration.go:99-121 | the fold over one more record is one more insertion |
| MigrationTopics.StartSubjects | scripts/gen_medmcqa_dev_migration.go:91-96 | every listed subject starts with exactly the topic "General" |
| MigrationTopics.GatherTopics | scripts/gen_medmcqa_dev_migration.go:84-128 | the result is keyed by exactly the listed subjects, and each holds "General" plus exactly the topics of the records that resolve to it |
| MigrationTopics.PairLessAsymmetric | scripts/gen_medmcqa_dev_migration.go:191-196 | the pair order is a strict order |
| MigrationTopics.PairLessTotal | scripts/gen_medmcqa_dev_migration.go:191-196 | any two distinct pairs are ordered |
| MigrationTopics.PairLessTransitive | scripts/gen_medmcqa_dev_migration.go:191-196 | the pair order is transitive |
| MigrationTopics.InsertPair | scripts/gen_medmcqa_dev_migration.go:191-196 | insertion adds exactly the one pair |
| MigrationTopics.InsertPairSorted | scripts/gen_medmcqa_dev_migration.go:191-196 | inserting into a sorted list keeps it sorted |
| MigrationTopics.SortPairs | scripts/gen_medmcqa_dev_migration.go:191-196 | the result is a permutation of the pairs, sorted by subject and then topic |
| MigrationTopics.PairsSortedPairwise | scripts/gen_medmcqa_dev_migration.go:191-196 | in a sorted list no later pair precedes an earlier one |
| MigrationTopics.AppendTopics | scripts/gen_medmcqa_dev_migration.go:186-188 | the inner loop appends one pair per topic of the subject, no two with the same topic, and keeps what came before |
| MigrationTopics.NoRepeatsOnce | scripts/gen_medmcqa_dev_migration.go:184-189 | a sequence without repeats holds each element at most once |
| MigrationTopics.AppendNoRepeats | scripts/gen_medmcqa_dev_migration.go:184-189 | appending a new subject's distinct topics to pairs without repeats leaves no repeats |
| MigrationTopics.CollectPairs | scripts/gen_medmcqa_dev_migration.go:184-189 | the pairs are exactly the stored (listed subject, topic) pairs, and from a list without repeats (as `SubjectList` is) each appears once |
| MigrationTopics.TopicInserts | scripts/gen_medmcqa_dev_migration.go:178-208 | the topic rows are sorted, each is a stored pair, every stored pair appears, and from a list without repeats none appears twice |
| MigrationTopics.QuestionRowOf | scripts/gen_medmcqa_dev_migration.go:230-274 | no row exactly for an unknown subject; otherwise the id and question are escaped, each option is its escaped value or empty when missing, the correct option is the record's when 1 to 4 and 1 otherwise, the explanation is NULL or quoted, the choice type is the normalised single or multi, subject and topic are the escaped normalised names, and no quoted field holds a newline |
| MigrationTopics.QuestionRowsFindTopics | scripts/gen_medmcqa_dev_migration.go:250-274 | every question row's subject and topic were gathered, so its topic join finds a row |
| GoStrings.FieldsOfJoin | internal/controller/http/middleware/auth.go:17-18 | splitting space-joined words with `strings.Fields` gives the words back |
| GoStrings.SplitJoin | internal/controller/http/v1/admin_users_routes.go:266 | joining the pieces of `strings.Split` with the separator gives the input back |
| GoStrings.SplitPiecesClean | internal/controller/http/v1/admin_users_routes.go:266 | no piece of `strings.Split` holds the separator |
| GoStrings.TrimSpaceOfTrimmed | scripts/gen_medmcqa_dev_migration.go:138 | trimming a trimmed string changes nothing |
| GoStrings.ToLowerIdempotent | internal/usecase/admin/admin.go:460-471 | lower-casing twice is lower-casing once |
| GoStrings.ReplaceCharRemoves | internal/usecase/admin/admin.go:140 | replacing a character by text without it leaves none |
| GoStrings.LessTransitive | scripts/gen_medmcqa_dev_migration.go:193-195 | string order is transitive |
| GoStrings.LessTotal | scripts/gen_medmcqa_dev_migration.go:193-195 | two distinct strings are ordered |
| GoInts.AtoiItoa | internal/controller/http/v1/admin_users_routes.go:256-263 | `strconv.Atoi` reads back what `strconv.Itoa` writes, for every int64 |
| GoInts.TruncMod | internal/usecase/admin/admin.go:440 | Go's `%` on int: the remainder of truncating division, which takes the sign of the dividend and is smaller than the divisor in magnitude |
| GoInts.Wrap64 | internal/usecase/admin/admin.go:242-250 | the int64 wrap-around lies in range, is congruent mod 2^64 and leaves in-range values alone |

## Left out

- Concurrency: the admin use case's mutex is not modelled. Every method runs alone.
- Unicode: `strings.ToLower` and `EqualFold` are modelled on ASCII letters only. Unicode case folding is not modelled.
- Floating point: the `float64` accuracies are exact reals.
- Clock: `time.Now`, `uuid.New` and the JWT parser are parameters. `CreateUser` requires its fresh id to be unused, as `uuid.New` makes it in practice.
- Dates: formatting a day as "2006-01-02" is a day number since 1970-01-01, and `AddDate(0, 0, -i)` is a step of 86400 seconds. No calendar or time zone is modelled.
- AdminUsers.UseCase.BulkStatus: every user gets the same `now`, where the source reads the clock once per user.
- AdminListing.SortDesc: `sort.Slice` is modelled as an insertion sort. It fixes one order among users created at the same instant, while Go's order of ties is unspecified.
- Profile: `Profile` only returns the stored profile field, which the model exposes as `AdminUsers.UseCase.profile`.
- Email validation, request binding and field validation are not modelled. These are `validate` tags, Fiber's `BodyParser` and the `invalid id`/`invalid body` replies. Only their 400 reply is a constant.
- The Fiber handlers' JSON plumbing is not modelled. This covers the context locals and the logger. The HTTP status each admin handler chooses is modelled.
- Pass-through use-case methods are not modelled: they forward to the repository unchanged. They are question `AdminList`, `AdminGet` and `AdminDelete`; exam `AdminGet`, `AdminDelete` and `ListEvents`; and practice `ListSessions` and `GetSessionDetail`.
- PracticeUseCase.AnswerQuestion: the session and user ids the source receives are unused there, so the model does not take them.
- MigrationTopics: NDJSON decoding, blank-line skipping, file I/O, the SQL text around the values, the progress comments, `writeSubjectInserts`, `writeDown` and `main` are not modelled. The records are given already decoded. The subject list is a parameter, instantiated with `MigrationSql.SubjectList`.
- MigrationTopics.GatherTopics: the `topic == ""` fallback after `canonicalTopic` is dead code, since `CanonicalTopic` never returns "". It is not modelled.
- The repositories (`internal/repo/persistent/store.go`) are not part of this model. Their answers are function parameters.

## Findings

| source | as written | input that shows it | evidently intended | confidence | as-written member | corrected member |
|---|---|---|---|---|---|---|
| internal/usecase/admin/admin.go:267-272 | `CreateUser` checks duplicates with `uuid.Nil` as the id to skip, so a user stored under the nil id is never compared | a bootstrap profile whose id is the nil UUID, then a create with the same username | compare against every stored user | not executed | AdminUsers.NilBootstrapAdmitsDuplicate | AdminUsers.UseCase.CreateUser |
| internal/usecase/admin/admin.go:242-250 | the page offsets `(page-1)*pageSize` and `start+pageSize` are int64 arithmetic that can wrap before the clamp | page 2 with pageSize 9223372036854775807 makes the end wrap below the start, so the slice panics; page 4611686018427387905 with pageSize 4 wraps the start to 0 | clamp without overflow: a page past the end is empty | not executed | AdminListing.PageEndOverflows | AdminListing.PageBoundsTile |
