/** Records and enumerations shared by the use cases and handlers. Go's
    string-backed enumerations stay strings, because the use cases store
    whatever string a request carries; the named constants and the
    validity predicates say which values are the documented ones. */
module Entity {
  import opened Wrappers

  /** A UUID; the nil UUID is 0. */
  type Uuid = nat
  const NilUuid: Uuid := 0

  /** An instant, in seconds since the Unix epoch. */
  type Time = int
  /** Go's zero `time.Time` (January 1 of year 1, UTC) in Unix seconds. */
  const ZeroTime: Time := -62135596800
  const SecondsPerDay: int := 86400

  // ---------------------------------------------------------------------
  // Enumerations

  type ExamCategory = string
  const ExamCategoryNeetPg: ExamCategory := "NEET_PG"
  const ExamCategoryNeetUg: ExamCategory := "NEET_UG"
  const ExamCategoryJee: ExamCategory := "JEE"
  const ExamCategoryUpsc: ExamCategory := "UPSC"

  /** Role carried in a token's claims. */
  type UserRole = string
  const UserRoleUser: UserRole := "USER"
  const UserRoleAdmin: UserRole := "ADMIN"
  const UserRoleSuperAdmin: UserRole := "SUPER_ADMIN"

  type QuestionChoiceType = string
  const ChoiceTypeSingle: QuestionChoiceType := "single"
  const ChoiceTypeMulti: QuestionChoiceType := "multi"

  type PracticeMode = string
  type PracticeSessionStatus = string
  const PracticeStatusInProgress: PracticeSessionStatus := "in_progress"
  const PracticeStatusCompleted: PracticeSessionStatus := "completed"
  const PracticeStatusAbandoned: PracticeSessionStatus := "abandoned"

  type ExamConfigType = string
  type ExamStatus = string
  const ExamTypeMock: ExamConfigType := "MOCK"
  const ExamTypeDailyTest: ExamConfigType := "DAILY_TEST"
  const ExamStatusDraft: ExamStatus := "DRAFT"
  const ExamStatusScheduled: ExamStatus := "SCHEDULED"
  const ExamStatusOngoing: ExamStatus := "ONGOING"
  const ExamStatusCompleted: ExamStatus := "COMPLETED"

  type AdminUserStatus = string
  const AdminUserStatusActive: AdminUserStatus := "active"
  const AdminUserStatusInactive: AdminUserStatus := "inactive"
  const AdminUserStatusInvited: AdminUserStatus := "invited"
  const AdminUserStatusSuspended: AdminUserStatus := "suspended"
  /** The closed set of console-user states. */
  const AdminUserStatuses: seq<AdminUserStatus> :=
    [AdminUserStatusActive, AdminUserStatusInactive, AdminUserStatusInvited, AdminUserStatusSuspended]

  type AdminUserRole = string
  const AdminUserRoleSuperAdmin: AdminUserRole := "superadmin"
  const AdminUserRoleAdmin: AdminUserRole := "admin"
  const AdminUserRoleManager: AdminUserRole := "manager"
  const AdminUserRoleCashier: AdminUserRole := "cashier"
  /** The closed set of console roles. */
  const AdminUserRoles: seq<AdminUserRole> :=
    [AdminUserRoleSuperAdmin, AdminUserRoleAdmin, AdminUserRoleManager, AdminUserRoleCashier]

  // ---------------------------------------------------------------------
  // Admin console

  /** The bootstrap operator taken from configuration. */
  datatype AdminProfile = AdminProfile(
    id: Uuid,
    displayName: string,
    email: string,
    role: string,
    primaryExam: ExamCategory,
    createdAt: Time,
    permissions: seq<string>)

  datatype AdminUser = AdminUser(
    id: Uuid,
    firstName: string,
    lastName: string,
    username: string,
    email: string,
    phoneNumber: string,
    status: AdminUserStatus,
    role: AdminUserRole,
    createdAt: Time,
    updatedAt: Time)

  datatype AdminUsersMeta = AdminUsersMeta(page: int, pageSize: int, total: nat)

  datatype AdminUserList = AdminUserList(items: seq<AdminUser>, meta: AdminUsersMeta)

  /** An empty `statuses` and an empty `username` mean "no condition". */
  datatype AdminUserFilter = AdminUserFilter(
    page: int,
    pageSize: int,
    statuses: seq<AdminUserStatus>,
    role: Option<AdminUserRole>,
    username: string)

  datatype AdminUserCreateRequest = AdminUserCreateRequest(
    firstName: string,
    lastName: string,
    username: string,
    email: string,
    phoneNumber: string,
    role: AdminUserRole,
    status: AdminUserStatus,
    password: string)

  /** Every field optional: `None` (absent) differs from `Some("")`. */
  datatype AdminUserUpdateRequest = AdminUserUpdateRequest(
    firstName: Option<string>,
    lastName: Option<string>,
    username: Option<string>,
    email: Option<string>,
    phoneNumber: Option<string>,
    role: Option<AdminUserRole>,
    status: Option<AdminUserStatus>,
    password: Option<string>)

  datatype AdminBulkStatusRequest = AdminBulkStatusRequest(userIds: seq<Uuid>, status: AdminUserStatus)

  datatype AdminBulkDeleteRequest = AdminBulkDeleteRequest(userIds: seq<Uuid>)

  datatype AdminInviteRequest = AdminInviteRequest(email: string, role: AdminUserRole, message: string)

  datatype AdminInviteResponse = AdminInviteResponse(invited: bool, expiresAt: Time)

  /** `date` is the UTC calendar day, counted in days since 1970-01-01. */
  datatype AnalyticsPoint = AnalyticsPoint(date: int, value: int)

  datatype AnalyticsTimeSeries = AnalyticsTimeSeries(
    metric: string,
    exam: ExamCategory,
    range: string,
    points: seq<AnalyticsPoint>)

  /** `accuracy` is a float64 constant in the source; here an exact decimal. */
  datatype WeakTopicItem = WeakTopicItem(
    subjectId: string,
    subjectName: string,
    topicId: string,
    topicName: string,
    accuracy: real,
    attempts: int)

  /** `accuracy` is a float64 constant in the source; here an exact decimal. */
  datatype SubjectAccuracyItem = SubjectAccuracyItem(subjectId: string, subjectName: string, accuracy: real)

  datatype SubjectAccuracyResponse = SubjectAccuracyResponse(exam: ExamCategory, subjects: seq<SubjectAccuracyItem>)

  datatype AdminEventSummary = AdminEventSummary(
    id: string,
    name: string,
    exam: ExamCategory,
    eventType: ExamConfigType,
    startAt: Time,
    registeredCount: int,
    status: ExamStatus)

  datatype AdminReferralSummary = AdminReferralSummary(
    range: string,
    totalReferrals: int,
    rewardsPaid: int,
    newUsers: int)

  // ---------------------------------------------------------------------
  // Questions, exams and practice

  datatype Question = Question(
    id: Uuid,
    exam: ExamCategory,
    subjectId: Uuid,
    topicId: Uuid,
    questionText: string,
    optionA: string,
    optionB: string,
    optionC: string,
    optionD: string,
    correctOption: int,
    explanation: Option<string>,
    difficultyLevel: int,
    choiceType: QuestionChoiceType,
    isClinical: bool,
    isImageBased: bool,
    isHighYield: bool,
    isActive: bool)

  datatype QuestionCreateRequest = QuestionCreateRequest(
    exam: ExamCategory,
    subjectId: Uuid,
    topicId: Uuid,
    questionText: string,
    optionA: string,
    optionB: string,
    optionC: string,
    optionD: string,
    correctOption: int,
    explanation: string,
    difficultyLevel: int,
    choiceType: QuestionChoiceType,
    isClinical: bool,
    isImageBased: bool,
    isHighYield: bool,
    isActive: bool)

  datatype QuestionUpdateRequest = QuestionUpdateRequest(
    subjectId: Option<Uuid>,
    topicId: Option<Uuid>,
    questionText: Option<string>,
    optionA: Option<string>,
    optionB: Option<string>,
    optionC: Option<string>,
    optionD: Option<string>,
    correctOption: Option<int>,
    explanation: Option<string>,
    difficultyLevel: Option<int>,
    choiceType: Option<QuestionChoiceType>,
    isClinical: Option<bool>,
    isImageBased: Option<bool>,
    isHighYield: Option<bool>,
    isActive: Option<bool>)

  datatype PracticeSession = PracticeSession(
    id: Uuid,
    mode: PracticeMode,
    exam: ExamCategory,
    status: PracticeSessionStatus,
    totalQuestionsPlanned: Option<int>,
    startedAt: Time,
    completedAt: Option<Time>)

  datatype PracticeSessionCreateRequest = PracticeSessionCreateRequest(
    mode: PracticeMode,
    exam: ExamCategory,
    subjectIds: seq<Uuid>,
    topicIds: seq<Uuid>,
    difficultyLevels: seq<int>,
    numQuestions: int,
    timeLimitMinutes: Option<int>)

  datatype PracticeSessionQuestion = PracticeSessionQuestion(
    id: Uuid,
    sequenceIndex: int,
    question: Question,
    selectedOption: Option<int>,
    isCorrect: Option<bool>,
    timeTakenMs: Option<int>,
    answeredAt: Option<Time>)

  datatype PracticeAnswerRequest = PracticeAnswerRequest(
    sessionQuestionId: Uuid,
    selectedOption: int,
    timeTakenMs: Option<int>)

  /** The float64 marks are exact reals here: the use cases only copy them. */
  datatype ExamConfig = ExamConfig(
    id: Uuid,
    exam: ExamCategory,
    name: string,
    configType: ExamConfigType,
    description: string,
    numQuestions: int,
    timeLimitMinutes: int,
    marksPerCorrect: real,
    negativePerWrong: real,
    entryFee: int,
    scheduleStartAt: Option<Time>,
    scheduleEndAt: Option<Time>,
    status: ExamStatus)

  datatype ExamConfigCreateRequest = ExamConfigCreateRequest(
    exam: ExamCategory,
    name: string,
    configType: ExamConfigType,
    description: string,
    numQuestions: int,
    timeLimitMinutes: int,
    marksPerCorrect: real,
    negativePerWrong: real,
    entryFee: int,
    scheduleStartAt: Option<Time>,
    scheduleEndAt: Option<Time>)

  datatype ExamConfigUpdateRequest = ExamConfigUpdateRequest(
    name: Option<string>,
    configType: Option<ExamConfigType>,
    description: Option<string>,
    numQuestions: Option<int>,
    timeLimitMinutes: Option<int>,
    marksPerCorrect: Option<real>,
    negativePerWrong: Option<real>,
    entryFee: Option<int>,
    scheduleStartAt: Option<Time>,
    scheduleEndAt: Option<Time>,
    status: Option<ExamStatus>)

  // ---------------------------------------------------------------------
  // Request validation (the `validate` tags). `required` rejects the zero
  // value of the field's type: "" for strings, 0 for ints, nil for UUIDs.

  /** The e-mail syntax check of the validator is not modelled; only
      presence is. */
  predicate ValidAdminUserCreateRequest(req: AdminUserCreateRequest) {
    && req.firstName != "" && req.lastName != "" && req.username != ""
    && req.email != "" && req.phoneNumber != "" && req.role != ""
    && req.status != "" && req.password != ""
  }

  /** At least one id, and no nil id (`required,min=1,dive,required`). */
  predicate ValidBulkStatusRequest(req: AdminBulkStatusRequest) {
    |req.userIds| >= 1 && NilUuid !in req.userIds && req.status != ""
  }

  predicate ValidBulkDeleteRequest(req: AdminBulkDeleteRequest) {
    |req.userIds| >= 1 && NilUuid !in req.userIds
  }

  /** `correctOption` must lie in 1..4. */
  predicate ValidQuestionCreateRequest(req: QuestionCreateRequest) {
    && req.exam != "" && req.subjectId != NilUuid && req.topicId != NilUuid
    && req.questionText != "" && req.optionA != "" && req.optionB != ""
    && req.optionC != "" && req.optionD != ""
    && 1 <= req.correctOption <= 4
  }
}
