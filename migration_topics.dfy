/** The data side of the MedMCQA migration generator
    (scripts/gen_medmcqa_dev_migration.go): the subject-to-topics table
    gathered from the records, the ordered topic pairs the topic inserts
    are written from, and the values substituted into each question insert.
    The records arrive already decoded, one per non-blank input line, and
    the subject list is a parameter: the script always passes
    `SubjectList`, and everything proved here holds for any list. */
module MigrationTopics {
  import opened Wrappers
  import opened GoStrings
  import opened MigrationSql

  /** One decoded MedMCQA line. */
  datatype QuestionRecord = QuestionRecord(
    question: string,
    explanation: Option<string>,
    correctOption: int,
    optionA: Option<string>,
    optionB: Option<string>,
    optionC: Option<string>,
    optionD: Option<string>,
    subjectName: string,
    topicName: Option<string>,
    id: string,
    choiceType: Option<string>)

  const General: string := "General"

  // ---------------------------------------------------------------------
  // gatherTopics

  /** What a record contributes to the table: its canonical subject ("" for
      an unknown one) and its canonical topic. */
  datatype Entry = Entry(subject: string, topic: string)

  function EntryOf(list: seq<string>, rec: QuestionRecord): Entry {
    Entry(Canonical(list, SubjectKey, rec.subjectName), CanonicalTopic(rec.topicName))
  }

  function Entries(list: seq<string>, records: seq<QuestionRecord>): (es: seq<Entry>)
    ensures |es| == |records|
    ensures forall i :: 0 <= i < |records| ==> es[i] == EntryOf(list, records[i])
  {
    seq(|records|, i requires 0 <= i < |records| => EntryOf(list, records[i]))
  }

  /** The topics the entries name for `subject`; entries of no known
      subject name none. */
  function TopicsOf(entries: seq<Entry>, subject: string): set<string> {
    if entries == [] then {}
    else
      var last := entries[|entries| - 1];
      TopicsOf(entries[..|entries| - 1], subject)
      + (if last.subject == subject && subject != "" then {last.topic} else {})
  }

  /** A topic is gathered for a known subject exactly when some record of
      that subject names it. */
  lemma {:induction false} TopicsOfMeaning(entries: seq<Entry>, subject: string, topic: string)
    requires subject != ""
    ensures topic in TopicsOf(entries, subject) <==> Entry(subject, topic) in entries
  {
    if entries != [] {
      var init := entries[..|entries| - 1];
      TopicsOfMeaning(init, subject, topic);
      assert entries == init + [entries[|entries| - 1]];
    }
  }

  /** A record whose subject is unknown adds no topic anywhere. */
  lemma UnknownSubjectSkipped(list: seq<string>, records: seq<QuestionRecord>, rec: QuestionRecord, subject: string)
    requires Canonical(list, SubjectKey, rec.subjectName) == ""
    ensures TopicsOf(Entries(list, records + [rec]), subject) == TopicsOf(Entries(list, records), subject)
  {
    var before := Entries(list, records);
    var after := Entries(list, records + [rec]);
    EntriesSnoc(list, records, rec);
    assert after[..|after| - 1] == before;
  }

  lemma EntriesSnoc(list: seq<string>, records: seq<QuestionRecord>, rec: QuestionRecord)
    ensures Entries(list, records + [rec]) == Entries(list, records) + [EntryOf(list, rec)]
  {
    var after := Entries(list, records + [rec]);
    assert forall i :: 0 <= i < |records| ==> after[i] == EntryOf(list, records[i]);
  }

  /** The listed subjects, as a set. */
  function SubjectSet(list: seq<string>): set<string> {
    set i | 0 <= i < |list| :: list[i]
  }

  /** Each subject's topics are "General" and those the entries name. */
  predicate Gathered(subjects: map<string, set<string>>, entries: seq<Entry>) {
    forall s :: s in subjects ==> subjects[s] == {General} + TopicsOf(entries, s)
  }

  /** One entry read: the map gains the entry's topic under its subject,
      if that subject is one of its keys, and nothing else. */
  function AddEntry(subjects: map<string, set<string>>, e: Entry): map<string, set<string>> {
    if e.subject != "" && e.subject in subjects then subjects[e.subject := subjects[e.subject] + {e.topic}]
    else subjects
  }

  /** The map after reading the entries in order. */
  function Gather(subjects: map<string, set<string>>, entries: seq<Entry>): map<string, set<string>> {
    if entries == [] then subjects
    else AddEntry(Gather(subjects, entries[..|entries| - 1]), entries[|entries| - 1])
  }

  /** Reading entries keeps the keys and adds to each known subject exactly
      the topics the entries name for it. */
  lemma {:induction false} GatherMeaning(subjects: map<string, set<string>>, entries: seq<Entry>)
    ensures Gather(subjects, entries).Keys == subjects.Keys
    ensures forall s :: s in subjects ==> Gather(subjects, entries)[s] == subjects[s] + TopicsOf(entries, s)
  {
    if entries != [] {
      GatherMeaning(subjects, entries[..|entries| - 1]);
    }
  }

  lemma GatherPrefix(subjects: map<string, set<string>>, entries: seq<Entry>, i: int)
    requires 0 <= i < |entries|
    ensures Gather(subjects, entries[..i + 1]) == AddEntry(Gather(subjects, entries[..i]), entries[i])
  {
    assert entries[..i + 1][..i] == entries[..i];
  }

  lemma GatherAll(subjects: map<string, set<string>>, entries: seq<Entry>)
    ensures Gather(subjects, entries[..|entries|]) == Gather(subjects, entries)
  {
    assert entries[..|entries|] == entries;
  }

  lemma KnownSubject(list: seq<string>, subject: string)
    requires subject in list
    ensures subject in SubjectSet(list)
  {
    var k :| 0 <= k < |list| && list[k] == subject;
  }

  /** The map `gatherTopics` starts from: "General" under every listed
      subject. */
  method StartSubjects(list: seq<string>) returns (subjects: map<string, set<string>>)
    ensures subjects.Keys == SubjectSet(list)
    ensures forall s :: s in subjects ==> subjects[s] == {General}
  {
    subjects := map[];
    var j := 0;
    while j < |list|
      invariant 0 <= j <= |list|
      invariant subjects.Keys == set k | 0 <= k < j :: list[k]
      invariant forall s :: s in subjects ==> subjects[s] == {General}
    {
      subjects := subjects[list[j] := {General}];
      j := j + 1;
    }
  }

  /** `gatherTopics`: every listed subject starts with "General", and each
      record of a known subject adds its topic. */
  method GatherTopics(list: seq<string>, records: seq<QuestionRecord>) returns (subjects: map<string, set<string>>)
    ensures subjects.Keys == SubjectSet(list)
    ensures Gathered(subjects, Entries(list, records))
  {
    subjects := StartSubjects(list);
    ghost var start := subjects;
    ghost var entries := Entries(list, records);
    var i := 0;
    while i < |records|
      invariant 0 <= i <= |records|
      invariant subjects == Gather(start, entries[..i])
    {
      var rec := records[i];
      var subject := Canonical(list, SubjectKey, rec.subjectName);
      var topic := CanonicalTopic(rec.topicName);
      assert entries[i] == Entry(subject, topic);
      GatherPrefix(start, entries, i);
      if subject != "" {
        KnownSubject(list, subject);
        GatherMeaning(start, entries[..i]);
        subjects := subjects[subject := subjects[subject] + {topic}];
      }
      i := i + 1;
    }
    GatherAll(start, entries);
    GatherMeaning(start, entries);
  }

  // ---------------------------------------------------------------------
  // writeTopicInserts

  datatype TopicPair = TopicPair(subject: string, topic: string)

  /** The order of `sort.Slice` in `writeTopicInserts`: by subject, then
      by topic. Go compares strings byte by byte in UTF-8, which orders
      them as their code points do, so `Less` is that order. */
  predicate PairLess(a: TopicPair, b: TopicPair) {
    if a.subject == b.subject then Less(a.topic, b.topic) else Less(a.subject, b.subject)
  }

  lemma PairLessAsymmetric(a: TopicPair, b: TopicPair)
    requires PairLess(a, b)
    ensures !PairLess(b, a) && a != b
  {
    if a.subject == b.subject {
      if Less(b.topic, a.topic) {
        LessTransitive(a.topic, b.topic, a.topic);
      }
      LessIrreflexive(a.topic);
    } else {
      if Less(b.subject, a.subject) {
        LessTransitive(a.subject, b.subject, a.subject);
      }
      LessIrreflexive(a.subject);
    }
  }

  lemma PairLessTotal(a: TopicPair, b: TopicPair)
    ensures a == b || PairLess(a, b) || PairLess(b, a)
  {
    LessTotal(a.subject, b.subject);
    LessTotal(a.topic, b.topic);
  }

  /** No pair is followed by a smaller one. */
  predicate PairsSorted(s: seq<TopicPair>) {
    forall i :: 0 <= i < |s| - 1 ==> !PairLess(s[i + 1], s[i])
  }

  function InsertPair(p: TopicPair, s: seq<TopicPair>): (r: seq<TopicPair>)
    ensures multiset(r) == multiset(s) + multiset{p}
    ensures |r| == |s| + 1 && (r[0] == p || (s != [] && r[0] == s[0]))
  {
    if s == [] || !PairLess(s[0], p) then [p] + s
    else
      var rest := InsertPair(p, s[1..]);
      assert s == [s[0]] + s[1..];
      assert multiset(s) == multiset{s[0]} + multiset(s[1..]);
      [s[0]] + rest
  }

  /** Inserting into a sorted list keeps it sorted. */
  lemma {:induction false} InsertPairSorted(p: TopicPair, s: seq<TopicPair>)
    requires PairsSorted(s)
    ensures PairsSorted(InsertPair(p, s))
  {
    if s == [] || !PairLess(s[0], p) {
      ConsPairsSorted(p, s);
    } else {
      var tail := s[1..];
      assert PairsSorted(tail) by {
        forall i | 0 <= i < |tail| - 1 ensures !PairLess(tail[i + 1], tail[i]) {
          assert tail[i] == s[i + 1] && tail[i + 1] == s[i + 2];
        }
      }
      InsertPairSorted(p, tail);
      var rest := InsertPair(p, tail);
      PairLessAsymmetric(s[0], p);
      assert !PairLess(rest[0], s[0]);
      ConsPairsSorted(s[0], rest);
    }
  }

  /** A pair no larger than the head of a sorted list can go in front of it. */
  lemma ConsPairsSorted(p: TopicPair, s: seq<TopicPair>)
    requires PairsSorted(s) && (s == [] || !PairLess(s[0], p))
    ensures PairsSorted([p] + s)
  {
    var r := [p] + s;
    forall i | 0 <= i < |r| - 1 ensures !PairLess(r[i + 1], r[i]) {
      if i > 0 {
        assert r[i] == s[i - 1] && r[i + 1] == s[i];
      }
    }
  }

  /** The topic pairs in sorted order. */
  function SortPairs(s: seq<TopicPair>): (r: seq<TopicPair>)
    ensures multiset(r) == multiset(s)
    ensures PairsSorted(r)
  {
    if s == [] then []
    else
      assert s == [s[0]] + s[1..];
      InsertPairSorted(s[0], SortPairs(s[1..]));
      InsertPair(s[0], SortPairs(s[1..]))
  }

  /** Sorted pairs are in order at any distance, not only neighbours. */
  lemma {:induction false} PairsSortedPairwise(s: seq<TopicPair>, i: int, j: int)
    requires PairsSorted(s)
    requires 0 <= i < j < |s|
    ensures !PairLess(s[j], s[i])
    decreases j - i
  {
    if i + 1 < j {
      PairsSortedPairwise(s, i + 1, j);
      PairLessTotal(s[i], s[i + 1]);
      if PairLess(s[j], s[i]) {
        PairLessTotal(s[j], s[i + 1]);
        if s[j] != s[i + 1] {
          PairLessAsymmetric(s[i + 1], s[j]);
          if s[i] == s[i + 1] {
          } else {
            PairLessTransitive(s[j], s[i], s[i + 1]);
          }
        }
      }
    }
  }

  lemma PairLessTransitive(a: TopicPair, b: TopicPair, c: TopicPair)
    requires PairLess(a, b) && PairLess(b, c)
    ensures PairLess(a, c)
  {
    if a.subject == b.subject && b.subject == c.subject {
      LessTransitive(a.topic, b.topic, c.topic);
    } else if a.subject == b.subject {
    } else if b.subject == c.subject {
    } else {
      LessTransitive(a.subject, b.subject, c.subject);
      if a.subject == c.subject {
        LessIrreflexive(a.subject);
      }
    }
  }

  /** The topics stored for a subject; a subject without an entry has none. */
  function StoredTopics(subjects: map<string, set<string>>, subject: string): set<string> {
    if subject in subjects then subjects[subject] else {}
  }

  /** One subject's pairs added after the ones collected so far: one pair
      per topic, in no particular order. */
  method AppendTopics(pairs: seq<TopicPair>, subject: string, topics: set<string>) returns (out: seq<TopicPair>)
    ensures |out| == |pairs| + |topics|
    ensures out[..|pairs|] == pairs
    ensures forall k :: |pairs| <= k < |out| ==> out[k].subject == subject && out[k].topic in topics
    ensures forall t :: t in topics ==> TopicPair(subject, t) in out[|pairs|..]
    ensures forall a, b :: |pairs| <= a < b < |out| ==> out[a].topic != out[b].topic
  {
    out := pairs;
    var remaining := topics;
    while remaining != {}
      invariant remaining <= topics
      invariant |out| == |pairs| + |topics| - |remaining|
      invariant out[..|pairs|] == pairs
      invariant forall k :: |pairs| <= k < |out| ==> out[k].subject == subject && out[k].topic in topics - remaining
      invariant forall t :: t in topics - remaining ==> TopicPair(subject, t) in out[|pairs|..]
      invariant forall a, b :: |pairs| <= a < b < |out| ==> out[a].topic != out[b].topic
      decreases |remaining|
    {
      var topic :| topic in remaining;
      ghost var prev := out;
      out := out + [TopicPair(subject, topic)];
      assert out[|pairs|..] == prev[|pairs|..] + [TopicPair(subject, topic)];
      remaining := remaining - {topic};
    }
  }

  /** A pair naming a listed subject and one of its stored topics. */
  predicate StoredPair(list: seq<string>, subjects: map<string, set<string>>, p: TopicPair) {
    p.subject in SubjectSet(list) && p.topic in StoredTopics(subjects, p.subject)
  }

  /** A sequence without repeats holds each element at most once. */
  lemma {:induction false} NoRepeatsOnce<T>(s: seq<T>)
    requires NoRepeats(s)
    ensures forall x :: multiset(s)[x] <= 1
  {
    if s != [] {
      var tail := s[1..];
      assert NoRepeats(tail) by {
        forall a, b | 0 <= a < b < |tail| ensures tail[a] != tail[b] {
          assert tail[a] == s[a + 1] && tail[b] == s[b + 1];
        }
      }
      NoRepeatsOnce(tail);
      assert s[0] !in tail by {
        forall k | 0 <= k < |tail| ensures tail[k] != s[0] {
          assert tail[k] == s[k + 1];
        }
      }
      assert s == [s[0]] + tail;
    }
  }

  /** Appending one new subject's distinct topics to pairs without repeats,
      none of them of that subject, leaves no repeats. */
  lemma AppendNoRepeats(before: seq<TopicPair>, pairs: seq<TopicPair>, done: seq<string>, subject: string)
    requires NoRepeats(before) && subject !in done
    requires forall k :: 0 <= k < |before| ==> before[k].subject in done
    requires |before| <= |pairs| && pairs[..|before|] == before
    requires forall k :: |before| <= k < |pairs| ==> pairs[k].subject == subject
    requires forall a, b :: |before| <= a < b < |pairs| ==> pairs[a].topic != pairs[b].topic
    ensures NoRepeats(pairs)
  {
    forall a, b | 0 <= a < b < |pairs| ensures pairs[a] != pairs[b] {
      if b < |before| {
        assert pairs[a] == before[a] && pairs[b] == before[b];
      } else if a < |before| {
        assert pairs[a] == before[a];
      }
    }
  }

  /** The pair list `writeTopicInserts` builds before sorting: for each
      listed subject, one pair per stored topic; from a list without
      repeats, such as `SubjectList`, no pair twice. */
  method CollectPairs(list: seq<string>, subjects: map<string, set<string>>) returns (pairs: seq<TopicPair>)
    ensures forall k :: 0 <= k < |pairs| ==> StoredPair(list, subjects, pairs[k])
    ensures forall s, t :: s in SubjectSet(list) && t in StoredTopics(subjects, s) ==> TopicPair(s, t) in pairs
    ensures NoRepeats(list) ==> NoRepeats(pairs)
  {
    pairs := [];
    var j := 0;
    while j < |list|
      invariant 0 <= j <= |list|
      invariant forall k :: 0 <= k < |pairs| ==> StoredPair(list, subjects, pairs[k])
      invariant forall n, t :: 0 <= n < j && t in StoredTopics(subjects, list[n]) ==> TopicPair(list[n], t) in pairs
      invariant forall k :: 0 <= k < |pairs| ==> pairs[k].subject in list[..j]
      invariant NoRepeats(list) ==> NoRepeats(pairs)
    {
      var subject := list[j];
      assert subject in SubjectSet(list);
      ghost var before := pairs;
      pairs := AppendTopics(pairs, subject, StoredTopics(subjects, subject));
      forall n, t | 0 <= n < j && t in StoredTopics(subjects, list[n])
        ensures TopicPair(list[n], t) in pairs
      {
        assert TopicPair(list[n], t) in pairs[..|before|];
      }
      forall t | t in StoredTopics(subjects, subject)
        ensures TopicPair(subject, t) in pairs
      {
        assert TopicPair(subject, t) in pairs[|before|..];
      }
      assert list[..j + 1] == list[..j] + [subject];
      if NoRepeats(list) {
        assert subject !in list[..j];
        AppendNoRepeats(before, pairs, list[..j], subject);
      }
      j := j + 1;
    }
    forall s, t | s in SubjectSet(list) && t in StoredTopics(subjects, s)
      ensures TopicPair(s, t) in pairs
    {
      var n :| 0 <= n < |list| && list[n] == s;
    }
  }

  /** `writeTopicInserts` up to the text: the pairs of every stored topic
      of every listed subject, sorted by subject and then topic; each pair
      once when no subject is listed twice. */
  method TopicInserts(list: seq<string>, subjects: map<string, set<string>>) returns (sorted: seq<TopicPair>)
    ensures PairsSorted(sorted)
    ensures forall k :: 0 <= k < |sorted| ==>
      sorted[k].subject in SubjectSet(list) && sorted[k].topic in StoredTopics(subjects, sorted[k].subject)
    ensures forall s, t :: s in SubjectSet(list) && t in StoredTopics(subjects, s) ==> TopicPair(s, t) in multiset(sorted)
    ensures NoRepeats(list) ==> forall p :: multiset(sorted)[p] <= 1
  {
    var pairs := CollectPairs(list, subjects);
    sorted := SortPairs(pairs);
    if NoRepeats(list) {
      NoRepeatsOnce(pairs);
    }
    forall k | 0 <= k < |sorted|
      ensures sorted[k].subject in SubjectSet(list) && sorted[k].topic in StoredTopics(subjects, sorted[k].subject)
    {
      assert sorted[k] in multiset(pairs);
      var m :| 0 <= m < |pairs| && pairs[m] == sorted[k];
      assert StoredPair(list, subjects, pairs[m]);
    }
    forall s, t | s in SubjectSet(list) && t in StoredTopics(subjects, s)
      ensures TopicPair(s, t) in multiset(sorted)
    {
      assert TopicPair(s, t) in multiset(pairs);
    }
  }

  // ---------------------------------------------------------------------
  // writeQuestionInserts

  /** The values substituted into one question insert, already escaped. */
  datatype QuestionRow = QuestionRow(
    id: string,
    question: string,
    optionA: string,
    optionB: string,
    optionC: string,
    optionD: string,
    correctOption: int,
    explanation: string,
    choiceType: string,
    subject: string,
    topic: string)

  /** One record's insert, or nothing for a record of an unknown subject. */
  function QuestionRowOf(list: seq<string>, rec: QuestionRecord): (row: Option<QuestionRow>)
    ensures row.None? <==> EntryOf(list, rec).subject == ""
    ensures row.Some? ==>
      && 1 <= row.value.correctOption <= 4
      && (row.value.choiceType == "single" || row.value.choiceType == "multi")
      && row.value.subject == Escape(EntryOf(list, rec).subject)
      && row.value.topic == Escape(EntryOf(list, rec).topic)
      && '\n' !in row.value.id && '\n' !in row.value.question && '\n' !in row.value.explanation
    ensures row.Some? ==>
      && row.value.id == Escape(rec.id) && row.value.question == Escape(rec.question)
      && row.value.optionA == EscapePtr(rec.optionA) && row.value.optionB == EscapePtr(rec.optionB)
      && row.value.optionC == EscapePtr(rec.optionC) && row.value.optionD == EscapePtr(rec.optionD)
      && row.value.correctOption == NormalizeCorrectOption(rec.correctOption)
      && row.value.explanation == NullOrQuote(rec.explanation)
      && row.value.choiceType == NormalizeChoiceType(rec.choiceType)
  {
    var subject := Canonical(list, SubjectKey, rec.subjectName);
    if subject == "" then None
    else
      var topic := CanonicalTopic(rec.topicName);
      Some(QuestionRow(
        Escape(rec.id), Escape(rec.question),
        EscapePtr(rec.optionA), EscapePtr(rec.optionB), EscapePtr(rec.optionC), EscapePtr(rec.optionD),
        NormalizeCorrectOption(rec.correctOption),
        NullOrQuote(rec.explanation),
        NormalizeChoiceType(rec.choiceType),
        Escape(subject), Escape(topic)))
  }

  /** Every question insert names a subject and a topic that the topic
      inserts create, written the same way, so its joins find them. */
  lemma QuestionRowsFindTopics(list: seq<string>, records: seq<QuestionRecord>, i: int)
    requires 0 <= i < |records| && QuestionRowOf(list, records[i]).Some?
    ensures var row := QuestionRowOf(list, records[i]).value;
      exists s, t :: s in SubjectSet(list) && t in {General} + TopicsOf(Entries(list, records), s)
        && row.subject == Escape(s) && row.topic == Escape(t)
  {
    var e := Entries(list, records)[i];
    TopicsOfMeaning(Entries(list, records), e.subject, e.topic);
    var k :| 0 <= k < |list| && list[k] == e.subject;
    assert e.subject in SubjectSet(list);
    assert e.topic in {General} + TopicsOf(Entries(list, records), e.subject);
  }
}
