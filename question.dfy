/** The admin question use case (internal/usecase/question/question.go).
    The question repository is a pair of parameters: what `GetByID` answers
    for each id, and what `Create` or `Update` answers for the record it is
    given. Errors are the repository's message, wrapped as `fmt.Errorf`
    wraps it. A fresh id (`uuid.New`) is a parameter as well. */
module QuestionUseCase {
  import opened Wrappers
  import opened Entity

  /** `stringPointer`: nil for the empty string, a pointer to it otherwise. */
  function StringPointer(value: string): (r: Option<string>)
    ensures r.None? <==> value == ""
    ensures r.Some? ==> r.value == value
  {
    if value == "" then None else Some(value)
  }

  /** Reading the pointer back, with nil as "", gives the string again. */
  lemma StringPointerRoundTrip(value: string, p: Option<string>)
    ensures StringPointer(value).GetOr("") == value
    ensures p != Some("") ==> StringPointer(p.GetOr("")) == p
  {
  }

  /** The record `AdminCreate` hands to the repository. */
  function NewQuestion(req: QuestionCreateRequest, id: Uuid): (q: Question)
    ensures q.id == id && q.exam == req.exam
    ensures q.subjectId == req.subjectId && q.topicId == req.topicId
    ensures q.questionText == req.questionText
    ensures q.optionA == req.optionA && q.optionB == req.optionB
    ensures q.optionC == req.optionC && q.optionD == req.optionD
    ensures q.correctOption == req.correctOption && q.difficultyLevel == req.difficultyLevel
    ensures q.explanation.None? <==> req.explanation == ""
    ensures q.explanation.Some? ==> q.explanation.value == req.explanation
    ensures q.choiceType == req.choiceType
    ensures q.isClinical == req.isClinical && q.isImageBased == req.isImageBased
    ensures q.isHighYield == req.isHighYield && q.isActive == req.isActive
  {
    Question(id, req.exam, req.subjectId, req.topicId, req.questionText,
      req.optionA, req.optionB, req.optionC, req.optionD, req.correctOption,
      StringPointer(req.explanation), req.difficultyLevel, req.choiceType,
      req.isClinical, req.isImageBased, req.isHighYield, req.isActive)
  }

  /** The create request a question answers to, a missing explanation read
      as "". */
  function CreateRequestOf(q: Question): QuestionCreateRequest {
    QuestionCreateRequest(q.exam, q.subjectId, q.topicId, q.questionText,
      q.optionA, q.optionB, q.optionC, q.optionD, q.correctOption,
      q.explanation.GetOr(""), q.difficultyLevel, q.choiceType,
      q.isClinical, q.isImageBased, q.isHighYield, q.isActive)
  }

  /** Creating loses nothing of the request: it can be read back from the
      new question. */
  lemma NewQuestionKeepsRequest(req: QuestionCreateRequest, id: Uuid)
    ensures CreateRequestOf(NewQuestion(req, id)) == req
  {
  }

  /** `AdminCreate`: the repository's answer for the new record, its error
      wrapped. */
  function AdminCreate(req: QuestionCreateRequest, id: Uuid, create: Question -> Result<Question, string>): (r: Result<Question, string>)
    ensures create(NewQuestion(req, id)).Ok? ==> r == create(NewQuestion(req, id))
    ensures create(NewQuestion(req, id)).Err? ==> r == Err("question - Create: " + create(NewQuestion(req, id)).error)
  {
    match create(NewQuestion(req, id))
    case Ok(created) => Ok(created)
    case Err(e) => Err("question - Create: " + e)
  }

  /** The field-by-field merge of `AdminUpdate`. */
  function MergeQuestion(q: Question, req: QuestionUpdateRequest): Question {
    q.(
      subjectId := req.subjectId.GetOr(q.subjectId),
      topicId := req.topicId.GetOr(q.topicId),
      questionText := req.questionText.GetOr(q.questionText),
      optionA := req.optionA.GetOr(q.optionA),
      optionB := req.optionB.GetOr(q.optionB),
      optionC := req.optionC.GetOr(q.optionC),
      optionD := req.optionD.GetOr(q.optionD),
      correctOption := req.correctOption.GetOr(q.correctOption),
      explanation := if req.explanation.Some? then req.explanation else q.explanation,
      difficultyLevel := req.difficultyLevel.GetOr(q.difficultyLevel),
      choiceType := req.choiceType.GetOr(q.choiceType),
      isClinical := req.isClinical.GetOr(q.isClinical),
      isImageBased := req.isImageBased.GetOr(q.isImageBased),
      isHighYield := req.isHighYield.GetOr(q.isHighYield),
      isActive := req.isActive.GetOr(q.isActive))
  }

  /** What the merge does to each field: a field the request carries
      replaces the stored one, an absent one keeps it; id and exam are not
      in the request and never change. */
  lemma MergeQuestionFields(q: Question, req: QuestionUpdateRequest)
    ensures MergeQuestion(q, req).id == q.id && MergeQuestion(q, req).exam == q.exam
    ensures req.subjectId.Some? ==> MergeQuestion(q, req).subjectId == req.subjectId.value
    ensures req.subjectId.None? ==> MergeQuestion(q, req).subjectId == q.subjectId
    ensures req.topicId.Some? ==> MergeQuestion(q, req).topicId == req.topicId.value
    ensures req.topicId.None? ==> MergeQuestion(q, req).topicId == q.topicId
    ensures req.questionText.Some? ==> MergeQuestion(q, req).questionText == req.questionText.value
    ensures req.questionText.None? ==> MergeQuestion(q, req).questionText == q.questionText
    ensures req.optionA.Some? ==> MergeQuestion(q, req).optionA == req.optionA.value
    ensures req.optionA.None? ==> MergeQuestion(q, req).optionA == q.optionA
    ensures req.optionB.Some? ==> MergeQuestion(q, req).optionB == req.optionB.value
    ensures req.optionB.None? ==> MergeQuestion(q, req).optionB == q.optionB
    ensures req.optionC.Some? ==> MergeQuestion(q, req).optionC == req.optionC.value
    ensures req.optionC.None? ==> MergeQuestion(q, req).optionC == q.optionC
    ensures req.optionD.Some? ==> MergeQuestion(q, req).optionD == req.optionD.value
    ensures req.optionD.None? ==> MergeQuestion(q, req).optionD == q.optionD
    ensures req.correctOption.Some? ==> MergeQuestion(q, req).correctOption == req.correctOption.value
    ensures req.correctOption.None? ==> MergeQuestion(q, req).correctOption == q.correctOption
    ensures req.explanation.Some? ==> MergeQuestion(q, req).explanation == req.explanation
    ensures req.explanation.None? ==> MergeQuestion(q, req).explanation == q.explanation
    ensures req.difficultyLevel.Some? ==> MergeQuestion(q, req).difficultyLevel == req.difficultyLevel.value
    ensures req.difficultyLevel.None? ==> MergeQuestion(q, req).difficultyLevel == q.difficultyLevel
    ensures req.choiceType.Some? ==> MergeQuestion(q, req).choiceType == req.choiceType.value
    ensures req.choiceType.None? ==> MergeQuestion(q, req).choiceType == q.choiceType
    ensures req.isClinical.Some? ==> MergeQuestion(q, req).isClinical == req.isClinical.value
    ensures req.isClinical.None? ==> MergeQuestion(q, req).isClinical == q.isClinical
    ensures req.isImageBased.Some? ==> MergeQuestion(q, req).isImageBased == req.isImageBased.value
    ensures req.isImageBased.None? ==> MergeQuestion(q, req).isImageBased == q.isImageBased
    ensures req.isHighYield.Some? ==> MergeQuestion(q, req).isHighYield == req.isHighYield.value
    ensures req.isHighYield.None? ==> MergeQuestion(q, req).isHighYield == q.isHighYield
    ensures req.isActive.Some? ==> MergeQuestion(q, req).isActive == req.isActive.value
    ensures req.isActive.None? ==> MergeQuestion(q, req).isActive == q.isActive
  {
  }

  /** The request that changes nothing. */
  const NoChange: QuestionUpdateRequest := QuestionUpdateRequest(
    None, None, None, None, None, None, None, None, None, None, None, None, None, None, None)

  /** The request that sets every field to the question's own value. */
  function FullUpdate(q: Question): QuestionUpdateRequest {
    QuestionUpdateRequest(Some(q.subjectId), Some(q.topicId), Some(q.questionText),
      Some(q.optionA), Some(q.optionB), Some(q.optionC), Some(q.optionD),
      Some(q.correctOption), q.explanation, Some(q.difficultyLevel), Some(q.choiceType),
      Some(q.isClinical), Some(q.isImageBased), Some(q.isHighYield), Some(q.isActive))
  }

  /** Two requests applied in turn: the later one's fields win. */
  function Overlay(first: QuestionUpdateRequest, second: QuestionUpdateRequest): QuestionUpdateRequest {
    QuestionUpdateRequest(
      if second.subjectId.Some? then second.subjectId else first.subjectId,
      if second.topicId.Some? then second.topicId else first.topicId,
      if second.questionText.Some? then second.questionText else first.questionText,
      if second.optionA.Some? then second.optionA else first.optionA,
      if second.optionB.Some? then second.optionB else first.optionB,
      if second.optionC.Some? then second.optionC else first.optionC,
      if second.optionD.Some? then second.optionD else first.optionD,
      if second.correctOption.Some? then second.correctOption else first.correctOption,
      if second.explanation.Some? then second.explanation else first.explanation,
      if second.difficultyLevel.Some? then second.difficultyLevel else first.difficultyLevel,
      if second.choiceType.Some? then second.choiceType else first.choiceType,
      if second.isClinical.Some? then second.isClinical else first.isClinical,
      if second.isImageBased.Some? then second.isImageBased else first.isImageBased,
      if second.isHighYield.Some? then second.isHighYield else first.isHighYield,
      if second.isActive.Some? then second.isActive else first.isActive)
  }

  /** An empty request keeps the question, and repeating a request changes
      nothing more. */
  lemma MergeIdempotent(q: Question, a: QuestionUpdateRequest)
    ensures MergeQuestion(q, NoChange) == q
    ensures MergeQuestion(MergeQuestion(q, a), a) == MergeQuestion(q, a)
  {
  }

  /** Two requests in turn are one overlaid request. */
  lemma MergeOverlay(q: Question, a: QuestionUpdateRequest, b: QuestionUpdateRequest)
    ensures MergeQuestion(MergeQuestion(q, a), b) == MergeQuestion(q, Overlay(a, b))
  {
  }

  /** A request carrying every field, explanation included, rewrites the
      question to the one it was read from, whatever was stored. */
  lemma MergeFullUpdate(q: Question, p: Question)
    requires p.explanation.Some? && p.id == q.id && p.exam == q.exam
    ensures MergeQuestion(q, FullUpdate(p)) == p
  {
  }

  /** Unlike creation, an update never clears the explanation: an absent
      one keeps it, and an empty one is stored as present and empty. */
  lemma UpdateNeverClearsExplanation(q: Question, req: QuestionUpdateRequest)
    requires q.explanation.Some?
    ensures MergeQuestion(q, req).explanation.Some?
    ensures req.explanation == Some("") ==> MergeQuestion(q, req).explanation == Some("")
  {
  }

  /** `AdminUpdate`: load, merge, store. A failed load is answered with
      its error, before anything is stored. */
  function AdminUpdate(id: Uuid, req: QuestionUpdateRequest,
                       getById: Uuid -> Result<Question, string>,
                       update: Question -> Result<Question, string>): (r: Result<Question, string>)
    ensures getById(id).Err? ==> r == Err("question - GetByID: " + getById(id).error)
    ensures getById(id).Ok? && update(MergeQuestion(getById(id).value, req)).Ok? ==>
      r == update(MergeQuestion(getById(id).value, req))
    ensures getById(id).Ok? && update(MergeQuestion(getById(id).value, req)).Err? ==>
      r == Err("question - Update: " + update(MergeQuestion(getById(id).value, req)).error)
  {
    match getById(id)
    case Err(e) => Err("question - GetByID: " + e)
    case Ok(question) =>
      match update(MergeQuestion(question, req))
      case Ok(updated) => Ok(updated)
      case Err(e) => Err("question - Update: " + e)
  }

  /** When the load fails the repository's update is never consulted: the
      answer is the same whatever it would do. */
  lemma MissingQuestionSkipsUpdate(id: Uuid, req: QuestionUpdateRequest,
                                   getById: Uuid -> Result<Question, string>,
                                   update1: Question -> Result<Question, string>,
                                   update2: Question -> Result<Question, string>)
    requires getById(id).Err?
    ensures AdminUpdate(id, req, getById, update1) == AdminUpdate(id, req, getById, update2)
    ensures AdminUpdate(id, req, getById, update1).Err?
  {
  }
}
