/** The dashboard read models of the admin use case
    (internal/usecase/admin/admin.go): the metric time series, the weak-topic
    list, the referral summary and the invite answer. The bootstrap
    profile's primary exam and the current instant are parameters. */
module AdminAnalytics {
  import opened Wrappers
  import opened GoStrings
  import opened Entity
  import opened AdminHelpers

  /** The exam asked for, unless it is absent or empty. */
  function TargetExam(exam: Option<ExamCategory>, primaryExam: ExamCategory): (e: ExamCategory)
    ensures exam.Some? && exam.value != "" ==> e == exam.value
    ensures exam.None? || exam.value == "" ==> e == primaryExam
  {
    if exam.Some? && exam.value != "" then exam.value else primaryExam
  }

  predicate IsMetric(metric: string) {
    metric == MetricActiveUsers || metric == MetricQuestionsAnswered
  }

  /** An empty window means seven days. */
  function DefaultWindow(window: string): string {
    if window == "" then "7d" else window
  }

  /** The UTC calendar day of an instant, in days since 1970-01-01. */
  function DayOf(t: Time): int {
    t / SecondsPerDay
  }

  /** The point for the day `back` days before `now`. */
  function PointAt(metric: string, now: Time, back: int): AnalyticsPoint {
    var day := now - back * SecondsPerDay;
    AnalyticsPoint(DayOf(day), MetricValue(metric, day))
  }

  /** The series of `days` points, oldest first, ending today. */
  function SeriesPoints(metric: string, now: Time, days: nat): (ps: seq<AnalyticsPoint>)
    ensures |ps| == days
  {
    seq(days, j requires 0 <= j < days => PointAt(metric, now, days - 1 - j))
  }

  /** Stepping back `k` whole days moves the calendar day back by `k`. */
  lemma DayOfShift(t: Time, k: int)
    ensures DayOf(t - k * SecondsPerDay) == DayOf(t) - k
  {
    var d := t / SecondsPerDay;
    var m := t % SecondsPerDay;
    assert t - k * SecondsPerDay == (d - k) * SecondsPerDay + m;
  }

  /** The series covers consecutive calendar days and ends on today's. */
  lemma SeriesPointsConsecutive(metric: string, now: Time, days: nat)
    ensures var ps := SeriesPoints(metric, now, days);
      && (days > 0 ==> ps[days - 1].date == DayOf(now))
      && forall j :: 0 <= j < days - 1 ==> ps[j + 1].date == ps[j].date + 1
  {
    var ps := SeriesPoints(metric, now, days);
    if days > 0 {
      assert ps[days - 1] == PointAt(metric, now, 0);
      DayOfShift(now, 0);
    }
    forall j | 0 <= j < days - 1
      ensures ps[j + 1].date == ps[j].date + 1
    {
      assert ps[j] == PointAt(metric, now, days - 1 - j);
      assert ps[j + 1] == PointAt(metric, now, days - 2 - j);
      DayOfShift(now, days - 1 - j);
      DayOfShift(now, days - 2 - j);
    }
  }

  /** `TimeSeries`: lower-cases the metric and rejects unknown ones, fills in
      the default window and rejects unknown windows, then builds one point
      per day, oldest first. */
  method TimeSeries(metric: string, exam: Option<ExamCategory>, window: string,
                    primaryExam: ExamCategory, now: Time)
    returns (r: Result<AnalyticsTimeSeries, AdminError>)
    ensures !IsMetric(ToLower(metric)) ==> r == Err(InvalidMetric)
    ensures IsMetric(ToLower(metric)) && RangeToDays(DefaultWindow(window)).Err? ==> r == Err(InvalidRange)
    ensures r.Ok? <==> IsMetric(ToLower(metric)) && RangeToDays(DefaultWindow(window)).Ok?
    ensures r.Ok? ==>
      && r.value.metric == ToLower(metric)
      && r.value.exam == TargetExam(exam, primaryExam)
      && r.value.range == DefaultWindow(window)
      && r.value.points == SeriesPoints(ToLower(metric), now, RangeToDays(DefaultWindow(window)).value)
  {
    var m := ToLower(metric);
    if m != MetricActiveUsers && m != MetricQuestionsAnswered {
      return Err(InvalidMetric);
    }
    var w := window;
    if w == "" {
      w := "7d";
    }
    var days := RangeToDays(w);
    if days.Err? {
      return Err(days.error);
    }
    var targetExam := primaryExam;
    if exam.Some? && exam.value != "" {
      targetExam := exam.value;
    }
    var points := BuildPoints(m, now, days.value);
    r := Ok(AnalyticsTimeSeries(m, targetExam, w, points));
  }

  /** The point loop of `TimeSeries`: from `days - 1` days back to today. */
  method BuildPoints(metric: string, now: Time, days: nat) returns (points: seq<AnalyticsPoint>)
    ensures points == SeriesPoints(metric, now, days)
  {
    points := [];
    var i: int := days - 1;
    while i >= 0
      invariant -1 <= i < days
      invariant |points| == days - 1 - i
      invariant forall j :: 0 <= j < |points| ==> points[j] == PointAt(metric, now, days - 1 - j)
    {
      points := points + [PointAt(metric, now, i)];
      i := i - 1;
    }
  }

  /** From the thirtieth day after 1970 on, every point of a series of up
      to thirty days lies in [base + 100, base + 300). */
  lemma SeriesPointsBounded(metric: string, now: Time, days: nat)
    requires days <= 30 && now >= 30 * SecondsPerDay
    ensures forall j :: 0 <= j < days ==>
      MetricBase(metric) + 100 <= SeriesPoints(metric, now, days)[j].value < MetricBase(metric) + 300
  {
    var ps := SeriesPoints(metric, now, days);
    forall j | 0 <= j < days
      ensures MetricBase(metric) + 100 <= ps[j].value < MetricBase(metric) + 300
    {
      var day := now - (days - 1 - j) * SecondsPerDay;
      assert ps[j] == PointAt(metric, now, days - 1 - j);
      assert day >= 0;
      MetricValueBounds(metric, day);
    }
  }

  /** A successful series has 1, 7 or 30 points, one per consecutive day up
      to today's, each valued within 200 of the metric's base plus 100. */
  lemma TimeSeriesShape(metric: string, now: Time, window: string)
    requires IsMetric(ToLower(metric)) && RangeToDays(DefaultWindow(window)).Ok?
    ensures var ps := SeriesPoints(ToLower(metric), now, RangeToDays(DefaultWindow(window)).value);
      && |ps| in {1, 7, 30}
      && ps[|ps| - 1].date == DayOf(now)
      && (forall j :: 0 <= j < |ps| - 1 ==> ps[j + 1].date == ps[j].date + 1)
      && (now >= 30 * SecondsPerDay ==>
            forall j :: 0 <= j < |ps| ==>
              MetricBase(ToLower(metric)) + 100 <= ps[j].value < MetricBase(ToLower(metric)) + 300)
  {
    var days := RangeToDays(DefaultWindow(window)).value;
    RangeToDaysCases(DefaultWindow(window), DefaultWindow(window));
    SeriesPointsConsecutive(ToLower(metric), now, days);
    if now >= 30 * SecondsPerDay {
      SeriesPointsBounded(ToLower(metric), now, days);
    }
  }

  // ---------------------------------------------------------------------
  // Fixed read models

  /** The four fixed weak topics, subject names prefixed by the exam with
      underscores shown as spaces. */
  function AllWeakTopics(exam: ExamCategory): (items: seq<WeakTopicItem>)
    ensures |items| == 4
  {
    var prefix := ReplaceAll(exam, "_", " ");
    [ WeakTopicItem("subj_pharma", prefix + " Pharmacology", "topic_autonomic", "Autonomic Drugs", 0.42, 1240),
      WeakTopicItem("subj_path", prefix + " Pathology", "topic_neoplasia", "Neoplasia", 0.48, 980),
      WeakTopicItem("subj_micro", prefix + " Microbiology", "topic_virology", "Virology", 0.45, 1110),
      WeakTopicItem("subj_anat", prefix + " Anatomy", "topic_neuro", "Neuro Anatomy", 0.41, 890) ]
  }

  /** `WeakTopics`: the first `limit` fixed items, all four when the limit
      is not positive or exceeds four. */
  function WeakTopics(exam: Option<ExamCategory>, limit: int, primaryExam: ExamCategory): (items: seq<WeakTopicItem>)
    ensures 1 <= limit <= 4 ==> |items| == limit
    ensures limit <= 0 || limit > 4 ==> |items| == 4
    ensures items == AllWeakTopics(TargetExam(exam, primaryExam))[..|items|]
  {
    var all := AllWeakTopics(TargetExam(exam, primaryExam));
    var n := if limit <= 0 || limit > |all| then |all| else limit;
    all[..n]
  }

  /** A subject name never keeps an underscore of the exam name. */
  lemma WeakTopicNamesHaveNoUnderscore(exam: Option<ExamCategory>, limit: int, primaryExam: ExamCategory)
    ensures forall k :: 0 <= k < |WeakTopics(exam, limit, primaryExam)| ==>
      '_' !in WeakTopics(exam, limit, primaryExam)[k].subjectName
  {
    var e := TargetExam(exam, primaryExam);
    var prefix := ReplaceAll(e, "_", " ");
    ReplaceCharRemoves(e, '_', " ");
    var all := AllWeakTopics(e);
    var items := WeakTopics(exam, limit, primaryExam);
    var suffixes := [" Pharmacology", " Pathology", " Microbiology", " Anatomy"];
    forall k | 0 <= k < |items|
      ensures '_' !in items[k].subjectName
    {
      assert items[k] == all[k];
      assert all[k].subjectName == prefix + suffixes[k];
      assert '_' !in suffixes[k];
    }
  }

  /** `SubjectAccuracy`: four fixed subjects, reported for the exam asked
      for or else the primary one. */
  function SubjectAccuracy(exam: Option<ExamCategory>, primaryExam: ExamCategory): (r: SubjectAccuracyResponse)
    ensures r.exam == TargetExam(exam, primaryExam)
    ensures |r.subjects| == 4
    ensures forall k :: 0 <= k < |r.subjects| ==> 0.0 < r.subjects[k].accuracy < 1.0
  {
    SubjectAccuracyResponse(TargetExam(exam, primaryExam), [
      SubjectAccuracyItem("subj_anat", "Anatomy", 0.72),
      SubjectAccuracyItem("subj_biochem", "Biochemistry", 0.64),
      SubjectAccuracyItem("subj_path", "Pathology", 0.58),
      SubjectAccuracyItem("subj_pharma", "Pharmacology", 0.61)])
  }

  const Hour: int := 3600

  /** `UpcomingEvents`: a mock three days from now and a daily test one day
      from now, both scheduled, both for the target exam. */
  function UpcomingEvents(exam: Option<ExamCategory>, primaryExam: ExamCategory, now: Time): (items: seq<AdminEventSummary>)
    ensures |items| == 2
    ensures forall k :: 0 <= k < 2 ==>
      items[k].exam == TargetExam(exam, primaryExam) && items[k].status == ExamStatusScheduled
      && items[k].startAt > now
    ensures items[0].eventType == ExamTypeMock && items[0].startAt - now == 259200
    ensures items[1].eventType == ExamTypeDailyTest && items[1].startAt - now == 86400
    ensures items[0].name == ReplaceAll(TargetExam(exam, primaryExam), "_", " ") + " - High Yield Bio Mock"
  {
    var target := TargetExam(exam, primaryExam);
    [ AdminEventSummary("mock-bio-1", ReplaceAll(target, "_", " ") + " - High Yield Bio Mock", target,
                        ExamTypeMock, now + 72 * Hour, 2420, ExamStatusScheduled),
      AdminEventSummary("daily-test-2", "Daily Rapid Fire", target,
                        ExamTypeDailyTest, now + 24 * Hour, 1340, ExamStatusScheduled) ]
  }

  /** The mock's name never keeps an underscore of the exam name. */
  lemma UpcomingMockNameHasNoUnderscore(exam: Option<ExamCategory>, primaryExam: ExamCategory, now: Time)
    ensures '_' !in UpcomingEvents(exam, primaryExam, now)[0].name
  {
    var target := TargetExam(exam, primaryExam);
    ReplaceCharRemoves(target, '_', " ");
    assert '_' !in " - High Yield Bio Mock";
  }

  /** `ReferralSummary`: an empty window means thirty days; "7d" and "today"
      (exact spelling) have their own figures, every other window reports
      the thirty-day ones. */
  function ReferralSummary(window: string): (s: AdminReferralSummary)
    ensures s.range == (if window == "" then "30d" else window)
    ensures window == "7d" ==> (s.totalReferrals, s.rewardsPaid, s.newUsers) == (210, 4200, 75)
    ensures window == "today" ==> (s.totalReferrals, s.rewardsPaid, s.newUsers) == (28, 980, 12)
    ensures window != "7d" && window != "today" ==> (s.totalReferrals, s.rewardsPaid, s.newUsers) == (980, 18200, 320)
  {
    var w := if window == "" then "30d" else window;
    if w == "7d" then AdminReferralSummary(w, 210, 4200, 75)
    else if w == "today" then AdminReferralSummary(w, 28, 980, 12)
    else AdminReferralSummary(w, 980, 18200, 320)
  }

  /** Whatever the window, its figures lie between today's and the
      thirty-day ones; only "today" reports today's and only "7d" falls
      strictly between. */
  lemma ReferralSummaryBounds(window: string)
    ensures var (t, s, m) := (ReferralSummary("today"), ReferralSummary(window), ReferralSummary(""));
      && t.totalReferrals <= s.totalReferrals <= m.totalReferrals
      && t.rewardsPaid <= s.rewardsPaid <= m.rewardsPaid
      && t.newUsers <= s.newUsers <= m.newUsers
    ensures ReferralSummary(window).totalReferrals == ReferralSummary("today").totalReferrals <==> window == "today"
    ensures ReferralSummary(window).totalReferrals == ReferralSummary("").totalReferrals <==> window != "today" && window != "7d"
  {
  }

  const InviteValidity: int := 72 * 3600

  /** `InviteUser`: always accepted, expiring seventy-two hours from now. */
  function InviteUser(req: AdminInviteRequest, now: Time): (resp: AdminInviteResponse)
    ensures resp.invited
    ensures resp.expiresAt - now == 259200
  {
    AdminInviteResponse(true, now + InviteValidity)
  }
}
