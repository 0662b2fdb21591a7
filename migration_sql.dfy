/** The text helpers of the MedMCQA migration generator
    (scripts/gen_medmcqa_dev_migration.go): SQL string-literal escaping,
    the optional-value forms, list separators, and the normalisation of
    subject, topic, correct option and choice type. */
module MigrationSql {
  import opened Wrappers
  import opened GoStrings

  // ---------------------------------------------------------------------
  // Escaping

  /** `escape`: double every single quote, then turn every newline into a
      space. */
  function Escape(value: string): (r: string)
    ensures '\n' !in r
  {
    var clean := ReplaceAll(value, "'", "''");
    ReplaceCharRemoves(clean, '\n', " ");
    ReplaceAll(clean, "\n", " ")
  }

  /** What escaping does to one character. */
  function EscapeChar(c: char): string {
    if c == '\'' then "''" else if c == '\n' then " " else [c]
  }

  /** Escaping, character by character. */
  function EscapeChars(s: string): string {
    if s == [] then [] else EscapeChar(s[0]) + EscapeChars(s[1..])
  }

  /** The input with newlines shown as spaces. */
  function SpaceNewlines(s: string): (r: string)
    ensures |r| == |s|
    ensures forall i :: 0 <= i < |s| ==> r[i] == if s[i] == '\n' then ' ' else s[i]
  {
    seq(|s|, i requires 0 <= i < |s| => if s[i] == '\n' then ' ' else s[i])
  }

  /** Reading an SQL string body: each doubled quote stands for one. */
  function Unescape(t: string): string
    decreases |t|
  {
    if t == [] then []
    else if |t| >= 2 && t[0] == '\'' && t[1] == '\'' then "'" + Unescape(t[2..])
    else [t[0]] + Unescape(t[1..])
  }

  /** The two `strings.ReplaceAll` passes amount to escaping each character
      on its own (no replacement text holds a newline, so the second pass
      never touches what the first one wrote). */
  lemma {:induction false} EscapeIsCharwise(s: string)
    ensures Escape(s) == EscapeChars(s)
  {
    if s != [] {
      var c, rest := s[0], s[1..];
      assert s == [c] + rest;
      EscapeIsCharwise(rest);
      ReplaceCharCons('\'', "''", c, rest);
      var once := ReplaceAll(rest, "'", "''");
      var first := if c == '\'' then "''" else [c];
      assert ReplaceAll(s, "'", "''") == first + once;
      ReplaceCharConcat(first, once, '\n', " ");
      if c == '\'' {
        ReplaceCharAbsent(first, '\n', " ");
      } else {
        ReplaceCharCons('\n', " ", c, []);
        assert [c] + [] == [c];
      }
      assert ReplaceAll(first, "\n", " ") == EscapeChar(c);
    }
  }

  lemma UnescapeAppendQuote(rest: string)
    ensures Unescape("''" + rest) == "'" + Unescape(rest)
  {
    assert ("''" + rest)[2..] == rest;
  }

  lemma UnescapeAppendOther(c: char, rest: string)
    requires c != '\''
    ensures Unescape([c] + rest) == [c] + Unescape(rest)
  {
    assert ([c] + rest)[1..] == rest;
  }

  /** Reading back an escaped value gives the value, newlines aside: the
      escaping loses nothing but line breaks. */
  lemma {:induction false} UnescapeEscape(s: string)
    ensures Unescape(Escape(s)) == SpaceNewlines(s)
  {
    EscapeIsCharwise(s);
    UnescapeEscapeChars(s);
  }

  lemma {:induction false} UnescapeEscapeChars(s: string)
    ensures Unescape(EscapeChars(s)) == SpaceNewlines(s)
  {
    if s != [] {
      var c, rest := s[0], s[1..];
      UnescapeEscapeChars(rest);
      var d := if c == '\n' then ' ' else c;
      if c == '\'' {
        UnescapeAppendQuote(EscapeChars(rest));
      } else {
        assert EscapeChar(c) == [d];
        UnescapeAppendOther(d, EscapeChars(rest));
      }
      SpaceNewlinesCons(s);
    }
  }

  lemma SpaceNewlinesCons(s: string)
    requires s != []
    ensures SpaceNewlines(s) == [if s[0] == '\n' then ' ' else s[0]] + SpaceNewlines(s[1..])
  {
  }

  /** `escapePtr`: a missing value is written as nothing. */
  function EscapePtr(value: Option<string>): (r: string)
    ensures value.None? ==> r == ""
    ensures value.Some? ==> r == Escape(value.value)
  {
    if value.None? then "" else Escape(value.value)
  }

  /** `nullOrQuote`: a missing value is SQL NULL, a present one a quoted
      literal that reads back as the value, newlines aside. */
  function NullOrQuote(value: Option<string>): (r: string)
    ensures value.None? ==> r == "NULL"
    ensures value.Some? ==>
      && |r| >= 2 && r[0] == '\'' && r[|r| - 1] == '\''
      && Unescape(r[1..|r| - 1]) == SpaceNewlines(value.value)
      && '\n' !in r
  {
    if value.None? then "NULL"
    else
      var r := "'" + Escape(value.value) + "'";
      assert r[1..|r| - 1] == Escape(value.value);
      UnescapeEscape(value.value);
      r
  }

  /** `comma`: the separator after item `idx` of `total`. */
  function Comma(idx: int, total: int): (r: string)
    ensures r == "" <==> idx == total - 1
    ensures r == "" || r == ","
  {
    if idx == total - 1 then "" else ","
  }

  /** Every row of a VALUES list is followed by a comma except the last. */
  lemma CommaSeparates(total: nat)
    requires total >= 1
    ensures forall i :: 0 <= i < total - 1 ==> Comma(i, total) == ","
    ensures Comma(total - 1, total) == ""
  {
  }

  // ---------------------------------------------------------------------
  // Subjects and topics

  /** The twenty MedMCQA subjects, in the order they are inserted. */
  const SubjectList: seq<string> := [
    "Anesthesia", "Anatomy", "Biochemistry", "Dental", "ENT",
    "Forensic Medicine (FM)", "Obstetrics and Gynecology (O&G)", "Medicine",
    "Microbiology", "Ophthalmology", "Orthopedics", "Pathology", "Pediatrics",
    "Pharmacology", "Physiology", "Psychiatry", "Radiology", "Skin",
    "Preventive & Social Medicine (PSM)", "Surgery"]

  /** The lookup key of a name: trimmed and lower-cased. */
  function SubjectKey(name: string): string {
    ToLower(TrimSpace(name))
  }

  /** `subjectAliases`: each listed subject under its key, a later entry
      replacing an earlier one with the same key. */
  function Aliases(list: seq<string>, key: string -> string): map<string, string> {
    if list == [] then map[]
    else Aliases(list[..|list| - 1], key)[key(list[|list| - 1]) := list[|list| - 1]]
  }

  /** The map holds every listed subject's key, and only listed subjects. */
  lemma {:induction false} AliasesCover(list: seq<string>, key: string -> string)
    ensures forall k :: k in Aliases(list, key) ==> Aliases(list, key)[k] in list
    ensures forall i :: 0 <= i < |list| ==> key(list[i]) in Aliases(list, key)
  {
    if list != [] {
      var init := list[..|list| - 1];
      AliasesCover(init, key);
      assert forall i :: 0 <= i < |init| ==> init[i] == list[i];
    }
  }

  /** The subject a name resolves to, or "" for none. */
  function Canonical(list: seq<string>, key: string -> string, value: string): (r: string)
    ensures r == "" || r in list
  {
    var m := Aliases(list, key);
    AliasesCover(list, key);
    if key(value) in m then m[key(value)] else ""
  }

  /** `canonicalSubject`: a listed subject, or "" for an unknown name. */
  function CanonicalSubject(value: string): (r: string)
    ensures r == "" || r in SubjectList
  {
    Canonical(SubjectList, SubjectKey, value)
  }

  /** No two listed subjects share a key. */
  predicate DistinctKeys(list: seq<string>, key: string -> string) {
    forall a, b :: 0 <= a < b < |list| ==> key(list[a]) != key(list[b])
  }

  /** When no two listed subjects share a key, a name resolves to the
      listed subject with its key, and a listed subject to itself. */
  lemma {:induction false} CanonicalFindsSubject(list: seq<string>, key: string -> string, i: int, value: string)
    requires DistinctKeys(list, key)
    requires 0 <= i < |list| && key(list[i]) == key(value)
    ensures Canonical(list, key, value) == list[i]
    decreases |list|
  {
    var init := list[..|list| - 1];
    var last := list[|list| - 1];
    assert Aliases(list, key) == Aliases(init, key)[key(last) := last];
    if i < |list| - 1 {
      assert DistinctKeys(init, key) by {
        forall a, b | 0 <= a < b < |init| ensures key(init[a]) != key(init[b]) {
          assert init[a] == list[a] && init[b] == list[b];
        }
      }
      assert init[i] == list[i];
      CanonicalFindsSubject(init, key, i, value);
      assert key(last) != key(value);
    }
  }

  /** A name whose key is no listed subject's is unknown. */
  lemma {:induction false} CanonicalUnknown(list: seq<string>, key: string -> string, value: string)
    requires forall i :: 0 <= i < |list| ==> key(list[i]) != key(value)
    ensures Canonical(list, key, value) == ""
    decreases |list|
  {
    if list != [] {
      var init := list[..|list| - 1];
      assert forall a :: 0 <= a < |init| ==> init[a] == list[a];
      CanonicalUnknown(init, key, value);
    }
  }

  /** No element appears twice. */
  predicate NoRepeats<T(==)>(s: seq<T>) {
    forall a, b :: 0 <= a < b < |s| ==> s[a] != s[b]
  }

  /** The key of a name with no white space at its ends keeps its length
      and lower-cases its first two letters. */
  lemma KeyShape(s: string)
    requires |s| >= 2 && !IsSpace(s[0]) && !IsSpace(s[|s| - 1])
    ensures |SubjectKey(s)| == |s|
    ensures SubjectKey(s)[0] == LowerChar(s[0]) && SubjectKey(s)[1] == LowerChar(s[1])
  {
    TrimSpaceOfTrimmed(s);
  }

  /** The position in `SubjectList` of the subject with a key, told apart
      by the key's length and first two letters; -1 for other keys. */
  function SubjectPosition(k: string): int {
    if |k| < 2 then -1 else SignaturePosition(|k|, k[0], k[1])
  }

  /** The position of the subject whose key has this length and these
      first two letters; -1 for none. */
  function SignaturePosition(len: int, c0: char, c1: char): int {
    match (len, c0, c1)
      case (10, 'a', 'n') => 0
      case (7, 'a', 'n') => 1
      case (12, 'b', 'i') => 2
      case (6, 'd', 'e') => 3
      case (3, 'e', 'n') => 4
      case (22, 'f', 'o') => 5
      case (31, 'o', 'b') => 6
      case (8, 'm', 'e') => 7
      case (12, 'm', 'i') => 8
      case (13, 'o', 'p') => 9
      case (11, 'o', 'r') => 10
      case (9, 'p', 'a') => 11
      case (10, 'p', 'e') => 12
      case (12, 'p', 'h') => 13
      case (10, 'p', 'h') => 14
      case (10, 'p', 's') => 15
      case (9, 'r', 'a') => 16
      case (4, 's', 'k') => 17
      case (34, 'p', 'r') => 18
      case (7, 's', 'u') => 19
      case _ => -1
  }

  /** Every listed subject is at least two letters long and has no white
      space at its ends. */
  lemma SubjectNamesTrimmed()
    ensures forall i :: 0 <= i < |SubjectList| ==>
      |SubjectList[i]| >= 2 && !IsSpace(SubjectList[i][0]) && !IsSpace(SubjectList[i][|SubjectList[i]| - 1])
  {
  }

  /** Each listed subject's length and lower-cased first two letters lead
      back to its position. */
  lemma SubjectSignatures()
    ensures forall i :: 0 <= i < |SubjectList| ==>
      SignaturePosition(|SubjectList[i]|, LowerChar(SubjectList[i][0]), LowerChar(SubjectList[i][1])) == i
  {
  }

  /** The key of each listed subject leads back to its position. */
  lemma SubjectKeyPosition(i: int)
    requires 0 <= i < |SubjectList|
    ensures SubjectPosition(SubjectKey(SubjectList[i])) == i
  {
    SubjectNamesTrimmed();
    SubjectSignatures();
    KeyShape(SubjectList[i]);
  }

  /** No two of the twenty subjects share a key, so `subjectAliases` loses
      none of them. */
  lemma SubjectKeysDistinct()
    ensures DistinctKeys(SubjectList, SubjectKey)
  {
    forall a, b | 0 <= a < b < |SubjectList|
      ensures SubjectKey(SubjectList[a]) != SubjectKey(SubjectList[b])
    {
      SubjectKeyPosition(a);
      SubjectKeyPosition(b);
    }
  }

  /** No subject is listed twice. */
  lemma SubjectListNoRepeats()
    ensures NoRepeats(SubjectList)
  {
    SubjectKeysDistinct();
  }

  /** `canonicalSubject` maps a name to the listed subject with the same
      trimmed, lower-cased key, and each listed subject to itself. */
  lemma CanonicalSubjectFinds(i: int, value: string)
    requires 0 <= i < |SubjectList| && SubjectKey(SubjectList[i]) == SubjectKey(value)
    ensures CanonicalSubject(value) == SubjectList[i]
  {
    SubjectKeysDistinct();
    CanonicalFindsSubject(SubjectList, SubjectKey, i, value);
  }

  /** `canonicalTopic`: "General" for a missing or blank topic, the trimmed
      topic otherwise. */
  function CanonicalTopic(value: Option<string>): (r: string)
    ensures r != ""
    ensures value.None? || TrimSpace(value.value) == "" ==> r == "General"
    ensures value.Some? && TrimSpace(value.value) != "" ==> r == TrimSpace(value.value)
  {
    if value.None? then "General"
    else
      var clean := TrimSpace(value.value);
      if clean == "" then "General" else clean
  }

  /** A topic name carries no white space at either end, so reading it
      again gives the same name. */
  lemma CanonicalTopicTrimmed(value: Option<string>)
    ensures var r := CanonicalTopic(value);
      !IsSpace(r[0]) && !IsSpace(r[|r| - 1]) && CanonicalTopic(Some(r)) == r
  {
    var r := CanonicalTopic(value);
    if r != "General" {
      TrimSpaceSlice(value.value);
    }
    assert !IsSpace(r[0]) && !IsSpace(r[|r| - 1]);
    TrimSpaceOfTrimmed(r);
  }

  // ---------------------------------------------------------------------
  // Question fields

  /** The correct option as written: 1 to 4 kept, anything else 1. */
  function NormalizeCorrectOption(correct: int): (r: int)
    ensures 1 <= r <= 4
    ensures 1 <= correct <= 4 ==> r == correct
    ensures correct < 1 || correct > 4 ==> r == 1
  {
    if correct < 1 || correct > 4 then 1 else correct
  }

  /** The choice type as written: "multi" only for a value that trims and
      lower-cases to it, "single" for anything else or nothing. */
  function NormalizeChoiceType(choiceType: Option<string>): (r: string)
    ensures r == "single" || r == "multi"
    ensures r == "multi" <==> choiceType.Some? && ToLower(TrimSpace(choiceType.value)) == "multi"
  {
    if choiceType.Some? && ToLower(TrimSpace(choiceType.value)) == "multi" then "multi" else "single"
  }

  /** Normalising a normalised option or choice type changes nothing. */
  lemma NormalizeIdempotent(correct: int, choiceType: Option<string>)
    ensures NormalizeCorrectOption(NormalizeCorrectOption(correct)) == NormalizeCorrectOption(correct)
    ensures NormalizeChoiceType(Some(NormalizeChoiceType(choiceType))) == NormalizeChoiceType(choiceType)
  {
    var r := NormalizeChoiceType(choiceType);
    if r == "multi" {
      TrimSpaceOfTrimmed("multi");
      assert ToLower("multi") == "multi";
    } else {
      TrimSpaceOfTrimmed("single");
      assert ToLower("single")[0] == 's';
    }
  }
}
