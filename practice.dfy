/** Practice sessions (internal/usecase/practice/practice.go): starting a
    session and scoring an answer. The session repository is a set of
    parameters, as are the fresh id and the clock reading of
    `CreateSession`. */
module PracticeUseCase {
  import opened Wrappers
  import opened Entity

  /** The record `CreateSession` hands to the repository: in progress from
      `now`, in the request's mode and exam, nothing planned or finished. */
  function NewSession(req: PracticeSessionCreateRequest, id: Uuid, now: Time): (s: PracticeSession)
    ensures s.id == id && s.mode == req.mode && s.exam == req.exam
    ensures s.status == PracticeStatusInProgress && s.startedAt == now
    ensures s.totalQuestionsPlanned.None? && s.completedAt.None?
  {
    PracticeSession(id, req.mode, req.exam, PracticeStatusInProgress, None, now, None)
  }

  /** The session's settings are what the request chose; the rest of the
      request (subjects, topics, difficulty, size, time limit) does not
      reach the session record. */
  lemma NewSessionIgnoresSelection(a: PracticeSessionCreateRequest, b: PracticeSessionCreateRequest, id: Uuid, now: Time)
    ensures NewSession(a, id, now) == NewSession(b, id, now) <==> a.mode == b.mode && a.exam == b.exam
  {
    if NewSession(a, id, now) == NewSession(b, id, now) {
      assert NewSession(a, id, now).mode == NewSession(b, id, now).mode;
    }
  }

  /** `CreateSession`: the repository's answer for the new record. */
  function CreateSession(req: PracticeSessionCreateRequest, id: Uuid, now: Time,
                         create: PracticeSession -> Result<PracticeSession, string>): (r: Result<PracticeSession, string>)
    ensures create(NewSession(req, id, now)).Ok? ==> r == create(NewSession(req, id, now))
    ensures create(NewSession(req, id, now)).Err? ==>
      r == Err("practice - CreateSession: " + create(NewSession(req, id, now)).error)
  {
    match create(NewSession(req, id, now))
    case Ok(created) => Ok(created)
    case Err(e) => Err("practice - CreateSession: " + e)
  }

  /** The session question after an answer: the choice recorded, scored
      against the question's correct option, and the time taken replaced by
      the request's, even an absent one. */
  function Answer(q: PracticeSessionQuestion, req: PracticeAnswerRequest): (r: PracticeSessionQuestion)
    ensures r.selectedOption == Some(req.selectedOption)
    ensures r.isCorrect.Some? && (r.isCorrect.value <==> q.question.correctOption == req.selectedOption)
    ensures r.timeTakenMs == req.timeTakenMs
    ensures r.id == q.id && r.sequenceIndex == q.sequenceIndex && r.question == q.question
    ensures r.answeredAt == q.answeredAt
  {
    var correct := q.question.correctOption == req.selectedOption;
    q.(selectedOption := Some(req.selectedOption), isCorrect := Some(correct), timeTakenMs := req.timeTakenMs)
  }

  /** A session question is scored consistently: it is marked correct
      exactly when the recorded choice is the correct option. */
  predicate Scored(q: PracticeSessionQuestion) {
    q.selectedOption.Some? && q.isCorrect.Some?
    && (q.isCorrect.value <==> q.selectedOption.value == q.question.correctOption)
  }

  /** Every answer leaves the question consistently scored, and answering
      again overrides the earlier answer completely. */
  lemma AnswerLaws(q: PracticeSessionQuestion, a: PracticeAnswerRequest, b: PracticeAnswerRequest)
    ensures Scored(Answer(q, a))
    ensures Answer(Answer(q, a), b) == Answer(q, b)
  {
  }

  /** `AnswerQuestion`: load the session question, score it, store it. A
      failed load is answered with its error before anything is stored. */
  function AnswerQuestion(req: PracticeAnswerRequest,
                          getQuestion: Uuid -> Result<PracticeSessionQuestion, string>,
                          update: PracticeSessionQuestion -> Result<PracticeSessionQuestion, string>): (r: Result<PracticeSessionQuestion, string>)
    ensures getQuestion(req.sessionQuestionId).Err? ==>
      r == Err("practice - GetSessionQuestion: " + getQuestion(req.sessionQuestionId).error)
    ensures getQuestion(req.sessionQuestionId).Ok? ==>
      var answered := Answer(getQuestion(req.sessionQuestionId).value, req);
      (update(answered).Ok? ==> r == update(answered))
      && (update(answered).Err? ==> r == Err("practice - UpdateSessionQuestion: " + update(answered).error))
  {
    match getQuestion(req.sessionQuestionId)
    case Err(e) => Err("practice - GetSessionQuestion: " + e)
    case Ok(question) =>
      match update(Answer(question, req))
      case Ok(updated) => Ok(updated)
      case Err(e) => Err("practice - UpdateSessionQuestion: " + e)
  }

  /** When the load fails the repository's update is never consulted. */
  lemma MissingQuestionSkipsUpdate(req: PracticeAnswerRequest,
                                   getQuestion: Uuid -> Result<PracticeSessionQuestion, string>,
                                   update1: PracticeSessionQuestion -> Result<PracticeSessionQuestion, string>,
                                   update2: PracticeSessionQuestion -> Result<PracticeSessionQuestion, string>)
    requires getQuestion(req.sessionQuestionId).Err?
    ensures AnswerQuestion(req, getQuestion, update1) == AnswerQuestion(req, getQuestion, update2)
    ensures AnswerQuestion(req, getQuestion, update1).Err?
  {
  }
}
