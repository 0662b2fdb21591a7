/** The parts of Go's `strings` package that the modelled code relies on.
    Strings are sequences of Unicode code points. Case mapping covers ASCII
    letters only; `IsSpace` is Go's `unicode.IsSpace` in full. */
module GoStrings {

  /** `unicode.IsSpace`: the Latin-1 white space characters and the
      Unicode White_Space code points above them. */
  predicate IsSpace(c: char) {
    var n := c as int;
    n == 0x20 || 0x09 <= n <= 0x0D || n == 0x85 || n == 0xA0
    || n == 0x1680 || 0x2000 <= n <= 0x200A || n == 0x2028 || n == 0x2029
    || n == 0x202F || n == 0x205F || n == 0x3000
  }

  predicate NoSpace(s: string) {
    forall i :: 0 <= i < |s| ==> !IsSpace(s[i])
  }

  predicate IsUpper(c: char) {
    'A' <= c <= 'Z'
  }

  function LowerChar(c: char): (r: char)
    ensures !IsUpper(r)
    ensures IsSpace(r) <==> IsSpace(c)
  {
    if IsUpper(c) then (c as int + 32) as char else c
  }

  /** `strings.ToLower`, restricted to ASCII letters. */
  function ToLower(s: string): (r: string)
    ensures |r| == |s|
    ensures forall i :: 0 <= i < |s| ==> r[i] == LowerChar(s[i])
  {
    seq(|s|, i requires 0 <= i < |s| => LowerChar(s[i]))
  }

  lemma ToLowerIdempotent(s: string)
    ensures ToLower(ToLower(s)) == ToLower(s)
  {
  }

  lemma ToLowerAppend(a: string, b: string)
    ensures ToLower(a + b) == ToLower(a) + ToLower(b)
  {
    assert forall i :: 0 <= i < |a + b| ==> ToLower(a + b)[i] == (ToLower(a) + ToLower(b))[i];
  }

  /** `strings.EqualFold` under ASCII case folding. */
  predicate EqualFold(a: string, b: string) {
    ToLower(a) == ToLower(b)
  }

  // ---------------------------------------------------------------------
  // Trimming

  /** Drop leading white space. */
  function TrimLeft(s: string): string {
    if s != [] && IsSpace(s[0]) then TrimLeft(s[1..]) else s
  }

  /** Drop trailing white space. */
  function TrimRight(s: string): string {
    if s != [] && IsSpace(s[|s| - 1]) then TrimRight(s[..|s| - 1]) else s
  }

  /** TrimLeft removes exactly the leading run of white space. */
  lemma {:induction false} TrimLeftShape(s: string)
    ensures var r := TrimLeft(s);
      && |r| <= |s| && r == s[|s| - |r|..]
      && (r == [] || !IsSpace(r[0]))
      && (forall i :: 0 <= i < |s| - |r| ==> IsSpace(s[i]))
  {
    if s != [] && IsSpace(s[0]) {
      var tail := s[1..];
      TrimLeftShape(tail);
      var r := TrimLeft(tail);
      assert TrimLeft(s) == r;
      assert tail[|tail| - |r|..] == s[|s| - |r|..];
      forall i | 0 <= i < |s| - |r| ensures IsSpace(s[i]) {
        if i > 0 {
          assert s[i] == tail[i - 1];
        }
      }
    }
  }

  /** TrimRight removes exactly the trailing run of white space. */
  lemma {:induction false} TrimRightShape(s: string)
    ensures var r := TrimRight(s);
      && |r| <= |s| && r == s[..|r|]
      && (r == [] || !IsSpace(r[|r| - 1]))
      && (forall i :: |r| <= i < |s| ==> IsSpace(s[i]))
  {
    if s != [] && IsSpace(s[|s| - 1]) {
      var init := s[..|s| - 1];
      TrimRightShape(init);
      var r := TrimRight(init);
      assert TrimRight(s) == r;
      assert init[..|r|] == s[..|r|];
      forall i | |r| <= i < |s| ensures IsSpace(s[i]) {
        if i < |s| - 1 {
          assert s[i] == init[i];
        }
      }
    }
  }

  /** `strings.TrimSpace`: drop leading and trailing white space. */
  function TrimSpace(s: string): string {
    TrimRight(TrimLeft(s))
  }

  /** TrimSpace returns a contiguous piece of its input with no white space
      at either end, and removes only white space. */
  lemma TrimSpaceSlice(s: string)
    ensures exists i, j ::
              && 0 <= i <= j <= |s| && TrimSpace(s) == s[i..j]
              && (forall k :: 0 <= k < i ==> IsSpace(s[k]))
              && (forall k :: j <= k < |s| ==> IsSpace(s[k]))
    ensures TrimSpace(s) == [] || (!IsSpace(TrimSpace(s)[0]) && !IsSpace(TrimSpace(s)[|TrimSpace(s)| - 1]))
  {
    var l := TrimLeft(s);
    TrimLeftShape(s);
    TrimRightShape(l);
    var i := |s| - |l|;
    var j := i + |TrimRight(l)|;
    assert TrimSpace(s) == s[i..j];
    forall k | j <= k < |s| ensures IsSpace(s[k]) {
      assert s[k] == l[k - i];
    }
    if TrimSpace(s) != [] {
      var t := TrimSpace(s);
      assert t[0] == l[0];
    }
  }

  /** A string with no white space at its ends is its own TrimSpace. */
  lemma TrimSpaceOfTrimmed(s: string)
    requires s == [] || (!IsSpace(s[0]) && !IsSpace(s[|s| - 1]))
    ensures TrimSpace(s) == s
  {
  }

  // ---------------------------------------------------------------------
  // Fields and Join

  /** Length of the leading run of non-space characters. */
  function WordEnd(s: string): (n: nat)
    ensures n <= |s|
    ensures forall i :: 0 <= i < n ==> !IsSpace(s[i])
    ensures n < |s| ==> IsSpace(s[n])
  {
    if s == [] || IsSpace(s[0]) then 0 else 1 + WordEnd(s[1..])
  }

  /** `strings.Fields`: the maximal runs of non-space characters, in order. */
  function Fields(s: string): (r: seq<string>)
    ensures Words(r)
    decreases |s|
  {
    var t := TrimLeft(s);
    TrimLeftShape(s);
    if t == [] then []
    else
      var n := WordEnd(t);
      [t[..n]] + Fields(t[n..])
  }

  /** `strings.Join`. */
  function Join(parts: seq<string>, sep: string): string {
    if |parts| == 0 then ""
    else if |parts| == 1 then parts[0]
    else parts[0] + sep + Join(parts[1..], sep)
  }

  lemma FieldsAllSpace(s: string)
    ensures Fields(s) == [] <==> forall i :: 0 <= i < |s| ==> IsSpace(s[i])
  {
    TrimLeftShape(s);
    var r := TrimLeft(s);
    if r != [] {
      assert r[0] == s[|s| - |r|];
    }
  }

  lemma FieldsLeadingSpace(c: char, s: string)
    requires IsSpace(c)
    ensures Fields([c] + s) == Fields(s)
  {
    assert ([c] + s)[1..] == s;
  }

  lemma FieldsWordThen(w: string, rest: string)
    requires w != [] && NoSpace(w)
    requires rest == [] || IsSpace(rest[0])
    ensures Fields(w + rest) == [w] + Fields(rest)
  {
    var t := w + rest;
    assert TrimLeft(t) == t;
    WordEndOf(w, rest);
    assert t[..|w|] == w && t[|w|..] == rest;
  }

  lemma {:induction false} WordEndOf(w: string, rest: string)
    requires NoSpace(w)
    requires rest == [] || IsSpace(rest[0])
    ensures WordEnd(w + rest) == |w|
    decreases |w|
  {
    if w == [] {
      assert w + rest == rest;
    } else {
      var t := w + rest;
      assert t[0] == w[0] && !IsSpace(w[0]);
      assert t[1..] == w[1..] + rest;
      assert NoSpace(w[1..]) by {
        forall i | 0 <= i < |w[1..]| ensures !IsSpace(w[1..][i]) {
          assert w[1..][i] == w[i + 1];
        }
      }
      WordEndOf(w[1..], rest);
    }
  }

  /** Non-empty words without white space: what Fields produces. */
  predicate Words(ws: seq<string>) {
    forall k :: 0 <= k < |ws| ==> ws[k] != [] && NoSpace(ws[k])
  }

  /** Fields undoes a single-space Join of space-free, non-empty words. */
  lemma {:induction false} FieldsOfJoin(ws: seq<string>)
    requires Words(ws)
    ensures Fields(Join(ws, " ")) == ws
  {
    if |ws| == 1 {
      FieldsWordThen(ws[0], "");
      assert ws[0] + "" == ws[0];
    } else if |ws| > 1 {
      assert ws[0] != [] && NoSpace(ws[0]);
      assert Words(ws[1..]) by {
        forall k | 0 <= k < |ws[1..]| ensures ws[1..][k] != [] && NoSpace(ws[1..][k]) {
          assert ws[1..][k] == ws[k + 1];
        }
      }
      FieldsOfJoin(ws[1..]);
      FieldsOfJoinStep(ws);
    }
  }

  lemma FieldsOfJoinStep(ws: seq<string>)
    requires |ws| > 1
    requires ws[0] != [] && NoSpace(ws[0])
    requires Fields(Join(ws[1..], " ")) == ws[1..]
    ensures Fields(Join(ws, " ")) == ws
  {
    JoinCons(ws);
    FieldsWordSpaceThen(ws[0], Join(ws[1..], " "));
    assert [ws[0]] + ws[1..] == ws;
  }

  lemma JoinCons(ws: seq<string>)
    requires |ws| > 1
    ensures Join(ws, " ") == ws[0] + (" " + Join(ws[1..], " "))
  {
  }

  lemma FieldsWordSpaceThen(w: string, tail: string)
    requires w != [] && NoSpace(w)
    ensures Fields(w + (" " + tail)) == [w] + Fields(tail)
  {
    FieldsWordThen(w, " " + tail);
    FieldsLeadingSpace(' ', tail);
  }

  // ---------------------------------------------------------------------
  // Split

  /** `strings.Split` on a one-character separator: the pieces between
      separators, so an empty input gives one empty piece. */
  function Split(s: string, sep: char): (r: seq<string>)
    ensures |r| >= 1
  {
    if s == [] then [[]]
    else
      var rest := Split(s[1..], sep);
      if s[0] == sep then [[]] + rest else [[s[0]] + rest[0]] + rest[1..]
  }

  /** Split cuts at every separator: no piece holds the separator. */
  lemma {:induction false} SplitPiecesClean(s: string, sep: char)
    ensures forall k :: 0 <= k < |Split(s, sep)| ==> sep !in Split(s, sep)[k]
  {
    if s != [] {
      var rest := Split(s[1..], sep);
      SplitPiecesClean(s[1..], sep);
      var r := Split(s, sep);
      if s[0] == sep {
        assert r == [[]] + rest;
        forall k | 0 <= k < |r| ensures sep !in r[k] {
          if k > 0 {
            assert r[k] == rest[k - 1];
          }
        }
      } else {
        assert r == [[s[0]] + rest[0]] + rest[1..];
        forall k | 0 <= k < |r| ensures sep !in r[k] {
          if k > 0 {
            assert r[k] == rest[k];
          }
        }
      }
    }
  }

  /** Split cuts nowhere else: joining the pieces back with the separator
      gives the input. */
  lemma {:induction false} SplitJoin(s: string, sep: char)
    ensures Join(Split(s, sep), [sep]) == s
  {
    if s != [] {
      var rest := Split(s[1..], sep);
      SplitJoin(s[1..], sep);
      if s[0] == sep {
        assert Split(s, sep) == [[]] + rest;
        assert ([[]] + rest)[1..] == rest;
        assert Join([[]] + rest, [sep]) == [] + [sep] + Join(rest, [sep]);
      } else {
        var r := Split(s, sep);
        assert r == [[s[0]] + rest[0]] + rest[1..];
        assert r[1..] == rest[1..];
        if |rest| == 1 {
          assert Join(r, [sep]) == [s[0]] + rest[0];
        } else {
          assert Join(rest, [sep]) == rest[0] + [sep] + Join(rest[1..], [sep]);
          assert Join(r, [sep]) == ([s[0]] + rest[0]) + [sep] + Join(rest[1..], [sep]);
        }
        assert s == [s[0]] + s[1..];
      }
    }
  }

  // ---------------------------------------------------------------------
  // Prefixes, substrings, replacement

  predicate HasPrefix(s: string, p: string) {
    |p| <= |s| && s[..|p|] == p
  }

  /** `strings.Contains`. */
  predicate Contains(s: string, sub: string)
    decreases |s|
  {
    HasPrefix(s, sub) || (s != [] && Contains(s[1..], sub))
  }

  predicate OccursAt(s: string, sub: string, i: int) {
    0 <= i <= |s| - |sub| && s[i..i + |sub|] == sub
  }

  /** Contains holds exactly when `sub` occurs at some position of `s`. */
  lemma {:induction false} ContainsAt(s: string, sub: string)
    ensures Contains(s, sub) <==> exists i :: OccursAt(s, sub, i)
    decreases |s|
  {
    if HasPrefix(s, sub) {
      assert OccursAt(s, sub, 0);
    } else if s != [] {
      ContainsAt(s[1..], sub);
      if Contains(s[1..], sub) {
        var i :| OccursAt(s[1..], sub, i);
        assert s[1..][i..i + |sub|] == s[i + 1..i + 1 + |sub|];
        assert OccursAt(s, sub, i + 1);
      }
      if exists i :: OccursAt(s, sub, i) {
        var i :| OccursAt(s, sub, i);
        assert i != 0;
        assert s[1..][i - 1..i - 1 + |sub|] == s[i..i + |sub|];
        assert OccursAt(s[1..], sub, i - 1);
      }
    } else {
      assert forall i :: !OccursAt(s, sub, i);
    }
  }

  /** `strings.ReplaceAll` for a non-empty pattern: left to right, matches
      do not overlap. */
  function ReplaceAll(s: string, pat: string, rep: string): string
    requires pat != []
    decreases |s|
  {
    if |s| < |pat| then s
    else if s[..|pat|] == pat then rep + ReplaceAll(s[|pat|..], pat, rep)
    else [s[0]] + ReplaceAll(s[1..], pat, rep)
  }

  /** Replacing one character works character by character. */
  lemma ReplaceCharCons(c: char, rep: string, x: char, s: string)
    ensures ReplaceAll([x] + s, [c], rep) == (if x == c then rep else [x]) + ReplaceAll(s, [c], rep)
  {
    assert ([x] + s)[..1] == [x];
    assert ([x] + s)[1..] == s;
  }

  /** Replacing one character distributes over concatenation. */
  lemma {:induction false} ReplaceCharConcat(a: string, b: string, c: char, rep: string)
    ensures ReplaceAll(a + b, [c], rep) == ReplaceAll(a, [c], rep) + ReplaceAll(b, [c], rep)
    decreases |a|
  {
    if a != [] {
      ReplaceCharConcat(a[1..], b, c, rep);
      assert a + b == [a[0]] + (a[1..] + b);
      assert a == [a[0]] + a[1..];
      ReplaceCharCons(c, rep, a[0], a[1..] + b);
      ReplaceCharCons(c, rep, a[0], a[1..]);
      var h := if a[0] == c then rep else [a[0]];
      assert h + (ReplaceAll(a[1..], [c], rep) + ReplaceAll(b, [c], rep))
          == (h + ReplaceAll(a[1..], [c], rep)) + ReplaceAll(b, [c], rep);
    } else {
      assert a + b == b;
    }
  }

  /** After replacing a character by text without it, the character is gone. */
  lemma {:induction false} ReplaceCharRemoves(s: string, c: char, rep: string)
    requires c !in rep
    ensures c !in ReplaceAll(s, [c], rep)
    decreases |s|
  {
    if s != [] {
      ReplaceCharCons(c, rep, s[0], s[1..]);
      assert s == [s[0]] + s[1..];
      ReplaceCharRemoves(s[1..], c, rep);
    }
  }

  /** Replacing a character that does not occur changes nothing. */
  lemma {:induction false} ReplaceCharAbsent(s: string, c: char, rep: string)
    requires c !in s
    ensures ReplaceAll(s, [c], rep) == s
    decreases |s|
  {
    if s != [] {
      ReplaceCharCons(c, rep, s[0], s[1..]);
      assert s == [s[0]] + s[1..];
      ReplaceCharAbsent(s[1..], c, rep);
    }
  }

  // ---------------------------------------------------------------------
  // Ordering

  /** Go's `<` on strings: lexicographic. Comparing code points orders
      strings as comparing their UTF-8 bytes does. */
  predicate Less(a: string, b: string) {
    if a == [] then b != []
    else if b == [] then false
    else if a[0] != b[0] then a[0] < b[0]
    else Less(a[1..], b[1..])
  }

  lemma {:induction false} LessIrreflexive(a: string)
    ensures !Less(a, a)
  {
    if a != [] {
      LessIrreflexive(a[1..]);
    }
  }

  lemma {:induction false} LessTransitive(a: string, b: string, c: string)
    requires Less(a, b) && Less(b, c)
    ensures Less(a, c)
  {
    if a != [] && b != [] && c != [] && a[0] == b[0] && b[0] == c[0] {
      LessTransitive(a[1..], b[1..], c[1..]);
    }
  }

  lemma {:induction false} LessTotal(a: string, b: string)
    ensures a == b || Less(a, b) || Less(b, a)
  {
    if a != [] && b != [] && a[0] == b[0] {
      LessTotal(a[1..], b[1..]);
      if a[1..] == b[1..] {
        assert a == [a[0]] + a[1..] && b == [b[0]] + b[1..];
      }
    }
  }
}
