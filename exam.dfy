/** The admin exam-configuration use case (internal/usecase/exam/exam.go).
    As for questions, the repository is a set of parameters: the answer of
    `ListConfigs`, what `GetConfig` answers for each id, and what
    `CreateConfig` or `UpdateConfig` answers for the record it is given. */
module ExamUseCase {
  import opened Wrappers
  import opened Entity

  // ---------------------------------------------------------------------
  // AdminList

  /** The configurations of one exam category, in their stored order. */
  function OfExam(configs: seq<ExamConfig>, exam: ExamCategory): seq<ExamConfig> {
    if configs == [] then []
    else
      var last := configs[|configs| - 1];
      OfExam(configs[..|configs| - 1], exam) + (if last.exam == exam then [last] else [])
  }

  /** Each configuration of the category is kept as often as it was
      stored, and no other is kept. */
  lemma {:induction false} OfExamCount(configs: seq<ExamConfig>, exam: ExamCategory)
    ensures forall c :: multiset(OfExam(configs, exam))[c] == if c.exam == exam then multiset(configs)[c] else 0
  {
    if configs != [] {
      var init := configs[..|configs| - 1];
      var last := configs[|configs| - 1];
      OfExamCount(init, exam);
      assert configs == init + [last];
      assert multiset(configs) == multiset(init) + multiset{last};
    }
  }

  /** A configuration is kept exactly when it is of the category, and the
      answer is never longer than the stored list. */
  lemma OfExamMeaning(configs: seq<ExamConfig>, exam: ExamCategory)
    ensures forall c :: c in OfExam(configs, exam) <==> c in configs && c.exam == exam
    ensures |OfExam(configs, exam)| <= |configs|
  {
    OfExamCount(configs, exam);
    forall c ensures c in OfExam(configs, exam) <==> c in configs && c.exam == exam {
      assert c in OfExam(configs, exam) <==> multiset(OfExam(configs, exam))[c] > 0;
      assert c in configs <==> multiset(configs)[c] > 0;
    }
    assert multiset(OfExam(configs, exam)) <= multiset(configs);
  }

  /** Filtering respects concatenation, so the order of the stored list is
      kept: what comes first in the store comes first in the answer. */
  lemma {:induction false} OfExamAppend(a: seq<ExamConfig>, b: seq<ExamConfig>, exam: ExamCategory)
    ensures OfExam(a + b, exam) == OfExam(a, exam) + OfExam(b, exam)
    decreases |b|
  {
    if b == [] {
      assert a + b == a;
    } else {
      var init := b[..|b| - 1];
      OfExamAppend(a, init, exam);
      assert (a + b)[..|a + b| - 1] == a + init;
    }
  }

  /** What `AdminList` answers for a list the repository returned: all of
      it without a category, the category's configurations otherwise. */
  function Listed(configs: seq<ExamConfig>, exam: Option<ExamCategory>): seq<ExamConfig> {
    if exam.None? || exam.value == "" then configs else OfExam(configs, exam.value)
  }

  /** `AdminList`: the loop over the repository's list keeps, in order,
      the configurations of the requested category. */
  method AdminList(listed: Result<seq<ExamConfig>, string>, exam: Option<ExamCategory>)
    returns (r: Result<seq<ExamConfig>, string>)
    ensures listed.Err? ==> r == Err("exam - ListConfigs: " + listed.error)
    ensures listed.Ok? ==> r == Ok(Listed(listed.value, exam))
  {
    if listed.Err? {
      return Err("exam - ListConfigs: " + listed.error);
    }
    var configs := listed.value;
    if exam.None? || exam.value == "" {
      return Ok(configs);
    }
    var filtered: seq<ExamConfig> := [];
    var i := 0;
    while i < |configs|
      invariant 0 <= i <= |configs|
      invariant filtered == OfExam(configs[..i], exam.value)
    {
      var cfg := configs[i];
      assert configs[..i + 1][..i] == configs[..i];
      if cfg.exam == exam.value {
        filtered := filtered + [cfg];
      }
      i := i + 1;
    }
    assert configs[..i] == configs;
    return Ok(filtered);
  }

  // ---------------------------------------------------------------------
  // AdminCreate

  /** The record `AdminCreate` hands to the repository: the request's
      fields, a fresh id, and the draft status. */
  function NewConfig(req: ExamConfigCreateRequest, id: Uuid): (c: ExamConfig)
    ensures c.id == id && c.status == ExamStatusDraft
    ensures c.exam == req.exam && c.name == req.name && c.configType == req.configType
    ensures c.description == req.description && c.numQuestions == req.numQuestions
    ensures c.timeLimitMinutes == req.timeLimitMinutes
    ensures c.marksPerCorrect == req.marksPerCorrect && c.negativePerWrong == req.negativePerWrong
    ensures c.entryFee == req.entryFee
    ensures c.scheduleStartAt == req.scheduleStartAt && c.scheduleEndAt == req.scheduleEndAt
  {
    ExamConfig(id, req.exam, req.name, req.configType, req.description, req.numQuestions,
      req.timeLimitMinutes, req.marksPerCorrect, req.negativePerWrong, req.entryFee,
      req.scheduleStartAt, req.scheduleEndAt, ExamStatusDraft)
  }

  /** The create request a configuration answers to. */
  function CreateRequestOf(c: ExamConfig): ExamConfigCreateRequest {
    ExamConfigCreateRequest(c.exam, c.name, c.configType, c.description, c.numQuestions,
      c.timeLimitMinutes, c.marksPerCorrect, c.negativePerWrong, c.entryFee,
      c.scheduleStartAt, c.scheduleEndAt)
  }

  /** Creating loses nothing of the request, and two configurations created
      with the same id differ only if their requests do. */
  lemma NewConfigKeepsRequest(req: ExamConfigCreateRequest, other: ExamConfigCreateRequest, id: Uuid)
    ensures CreateRequestOf(NewConfig(req, id)) == req
    ensures NewConfig(req, id) == NewConfig(other, id) ==> req == other
  {
    assert CreateRequestOf(NewConfig(other, id)) == other;
  }

  /** `AdminCreate`: the repository's answer for the new record, its error
      wrapped. */
  function AdminCreate(req: ExamConfigCreateRequest, id: Uuid, create: ExamConfig -> Result<ExamConfig, string>): (r: Result<ExamConfig, string>)
    ensures create(NewConfig(req, id)).Ok? ==> r == create(NewConfig(req, id))
    ensures create(NewConfig(req, id)).Err? ==> r == Err("exam - CreateConfig: " + create(NewConfig(req, id)).error)
  {
    match create(NewConfig(req, id))
    case Ok(created) => Ok(created)
    case Err(e) => Err("exam - CreateConfig: " + e)
  }

  // ---------------------------------------------------------------------
  // AdminUpdate

  /** The field-by-field merge of `AdminUpdate`: a field the request carries
      replaces the stored one; id and exam are not in the request. */
  function MergeConfig(c: ExamConfig, req: ExamConfigUpdateRequest): (r: ExamConfig)
    ensures r.id == c.id && r.exam == c.exam
    ensures req.name.Some? ==> r.name == req.name.value
    ensures req.name.None? ==> r.name == c.name
    ensures req.configType.Some? ==> r.configType == req.configType.value
    ensures req.configType.None? ==> r.configType == c.configType
    ensures req.description.Some? ==> r.description == req.description.value
    ensures req.description.None? ==> r.description == c.description
    ensures req.numQuestions.Some? ==> r.numQuestions == req.numQuestions.value
    ensures req.numQuestions.None? ==> r.numQuestions == c.numQuestions
    ensures req.timeLimitMinutes.Some? ==> r.timeLimitMinutes == req.timeLimitMinutes.value
    ensures req.timeLimitMinutes.None? ==> r.timeLimitMinutes == c.timeLimitMinutes
    ensures req.marksPerCorrect.Some? ==> r.marksPerCorrect == req.marksPerCorrect.value
    ensures req.marksPerCorrect.None? ==> r.marksPerCorrect == c.marksPerCorrect
    ensures req.negativePerWrong.Some? ==> r.negativePerWrong == req.negativePerWrong.value
    ensures req.negativePerWrong.None? ==> r.negativePerWrong == c.negativePerWrong
    ensures req.entryFee.Some? ==> r.entryFee == req.entryFee.value
    ensures req.entryFee.None? ==> r.entryFee == c.entryFee
    ensures req.scheduleStartAt.Some? ==> r.scheduleStartAt == req.scheduleStartAt
    ensures req.scheduleStartAt.None? ==> r.scheduleStartAt == c.scheduleStartAt
    ensures req.scheduleEndAt.Some? ==> r.scheduleEndAt == req.scheduleEndAt
    ensures req.scheduleEndAt.None? ==> r.scheduleEndAt == c.scheduleEndAt
    ensures req.status.Some? ==> r.status == req.status.value
    ensures req.status.None? ==> r.status == c.status
  {
    c.(
      name := req.name.GetOr(c.name),
      configType := req.configType.GetOr(c.configType),
      description := req.description.GetOr(c.description),
      numQuestions := req.numQuestions.GetOr(c.numQuestions),
      timeLimitMinutes := req.timeLimitMinutes.GetOr(c.timeLimitMinutes),
      marksPerCorrect := req.marksPerCorrect.GetOr(c.marksPerCorrect),
      negativePerWrong := req.negativePerWrong.GetOr(c.negativePerWrong),
      entryFee := req.entryFee.GetOr(c.entryFee),
      scheduleStartAt := if req.scheduleStartAt.Some? then req.scheduleStartAt else c.scheduleStartAt,
      scheduleEndAt := if req.scheduleEndAt.Some? then req.scheduleEndAt else c.scheduleEndAt,
      status := req.status.GetOr(c.status))
  }

  /** The request that changes nothing. */
  const NoChange: ExamConfigUpdateRequest := ExamConfigUpdateRequest(
    None, None, None, None, None, None, None, None, None, None, None)

  /** Two requests applied in turn: the later one's fields win. */
  function Overlay(first: ExamConfigUpdateRequest, second: ExamConfigUpdateRequest): ExamConfigUpdateRequest {
    ExamConfigUpdateRequest(
      if second.name.Some? then second.name else first.name,
      if second.configType.Some? then second.configType else first.configType,
      if second.description.Some? then second.description else first.description,
      if second.numQuestions.Some? then second.numQuestions else first.numQuestions,
      if second.timeLimitMinutes.Some? then second.timeLimitMinutes else first.timeLimitMinutes,
      if second.marksPerCorrect.Some? then second.marksPerCorrect else first.marksPerCorrect,
      if second.negativePerWrong.Some? then second.negativePerWrong else first.negativePerWrong,
      if second.entryFee.Some? then second.entryFee else first.entryFee,
      if second.scheduleStartAt.Some? then second.scheduleStartAt else first.scheduleStartAt,
      if second.scheduleEndAt.Some? then second.scheduleEndAt else first.scheduleEndAt,
      if second.status.Some? then second.status else first.status)
  }

  /** An empty request keeps the configuration, and repeating a request
      changes nothing more. */
  lemma MergeIdempotent(c: ExamConfig, a: ExamConfigUpdateRequest)
    ensures MergeConfig(c, NoChange) == c
    ensures MergeConfig(MergeConfig(c, a), a) == MergeConfig(c, a)
  {
  }

  /** Two requests in turn are one overlaid request. */
  lemma MergeOverlay(c: ExamConfig, a: ExamConfigUpdateRequest, b: ExamConfigUpdateRequest)
    ensures MergeConfig(MergeConfig(c, a), b) == MergeConfig(c, Overlay(a, b))
  {
  }

  /** An update can move a schedule but never remove one: a stored start or
      end stays present. */
  lemma ScheduleNeverCleared(c: ExamConfig, req: ExamConfigUpdateRequest)
    ensures c.scheduleStartAt.Some? ==> MergeConfig(c, req).scheduleStartAt.Some?
    ensures c.scheduleEndAt.Some? ==> MergeConfig(c, req).scheduleEndAt.Some?
  {
  }

  /** `AdminUpdate`: load, merge, store; a failed load is answered with its
      error before anything is stored. */
  function AdminUpdate(id: Uuid, req: ExamConfigUpdateRequest,
                       getConfig: Uuid -> Result<ExamConfig, string>,
                       update: ExamConfig -> Result<ExamConfig, string>): (r: Result<ExamConfig, string>)
    ensures getConfig(id).Err? ==> r == Err("exam - GetConfig: " + getConfig(id).error)
    ensures getConfig(id).Ok? && update(MergeConfig(getConfig(id).value, req)).Ok? ==>
      r == update(MergeConfig(getConfig(id).value, req))
    ensures getConfig(id).Ok? && update(MergeConfig(getConfig(id).value, req)).Err? ==>
      r == Err("exam - UpdateConfig: " + update(MergeConfig(getConfig(id).value, req)).error)
  {
    match getConfig(id)
    case Err(e) => Err("exam - GetConfig: " + e)
    case Ok(config) =>
      match update(MergeConfig(config, req))
      case Ok(updated) => Ok(updated)
      case Err(e) => Err("exam - UpdateConfig: " + e)
  }

  /** When the load fails the repository's update is never consulted. */
  lemma MissingConfigSkipsUpdate(id: Uuid, req: ExamConfigUpdateRequest,
                                 getConfig: Uuid -> Result<ExamConfig, string>,
                                 update1: ExamConfig -> Result<ExamConfig, string>,
                                 update2: ExamConfig -> Result<ExamConfig, string>)
    requires getConfig(id).Err?
    ensures AdminUpdate(id, req, getConfig, update1) == AdminUpdate(id, req, getConfig, update2)
    ensures AdminUpdate(id, req, getConfig, update1).Err?
  {
  }
}
