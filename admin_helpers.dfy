/** The pure helpers of the admin use case (internal/usecase/admin/admin.go):
    its error values, name splitting and slugs for the bootstrap operator,
    role normalisation, and the analytics range and metric functions. */
module AdminHelpers {
  import opened Wrappers
  import opened GoStrings
  import opened GoInts
  import opened Entity

  /** The sentinel errors of the admin use case. */
  datatype AdminError = InvalidMetric | InvalidRange | UserNotFound | DuplicateUsername | DuplicateEmail

  function ErrorMessage(e: AdminError): string {
    match e
    case InvalidMetric => "invalid metric"
    case InvalidRange => "invalid range"
    case UserNotFound => "user not found"
    case DuplicateUsername => "username already exists"
    case DuplicateEmail => "email already exists"
  }

  // ---------------------------------------------------------------------
  // Bootstrap identity

  /** Split a display name into first name and the rest. */
  function SplitName(full: string): (string, string) {
    var parts := Fields(full);
    if |parts| == 0 then ("Admin", "User")
    else if |parts| == 1 then (parts[0], "")
    else (parts[0], Join(parts[1..], " "))
  }

  /** A blank name gives the placeholder "Admin User"; otherwise the first
      name is the first word, the last name is empty for one word, and
      re-joining the two with a space loses no word. */
  lemma SplitNameWords(full: string)
    ensures var (first, last) := SplitName(full);
      && first != [] && NoSpace(first)
      && (Fields(full) == [] ==> first == "Admin" && last == "User")
      && (Fields(full) != [] ==> first == Fields(full)[0])
      && (|Fields(full)| == 1 ==> last == "")
      && (|Fields(full)| >= 2 ==> Fields(first + " " + last) == Fields(full))
  {
    var parts := Fields(full);
    if |parts| >= 2 {
      var (first, last) := SplitName(full);
      assert first + " " + last == Join(parts, " ");
      FieldsOfJoin(parts);
    } else if |parts| == 0 {
      assert NoSpace("Admin");
    }
  }

  /** The bootstrap username: spaces become dots, ASCII letters are
      lowered, then each "__" becomes a dot. */
  function SlugifyName(full: string): string {
    var slug := ToLower(ReplaceAll(full, " ", "."));
    ReplaceAll(slug, "__", ".")
  }

  /** Every character of a replacement comes from the input or the
      replacement text. */
  lemma {:induction false} ReplaceAllChars(s: string, pat: string, rep: string, c: char)
    requires pat != []
    requires c in ReplaceAll(s, pat, rep)
    ensures c in s || c in rep
    decreases |s|
  {
    if |s| >= |pat| {
      if s[..|pat|] == pat {
        if c !in rep {
          ReplaceAllChars(s[|pat|..], pat, rep, c);
        }
      } else if c != s[0] {
        ReplaceAllChars(s[1..], pat, rep, c);
      }
    }
  }

  /** After "__" becomes ".", an underscore at the front of the result
      stands for a lone underscore at the front of the input. */
  lemma {:induction false} CollapseUnderscores(s: string)
    ensures !Contains(ReplaceAll(s, "__", "."), "__")
    ensures var r := ReplaceAll(s, "__", ".");
      r != [] && r[0] == '_' ==> s[0] == '_' && !HasPrefix(s, "__")
    decreases |s|
  {
    var r := ReplaceAll(s, "__", ".");
    if |s| < 2 {
      assert !HasPrefix(r, "__");
      if r != [] {
        assert !Contains(r[1..], "__");
      }
    } else if s[..2] == "__" {
      CollapseUnderscores(s[2..]);
      assert r == "." + ReplaceAll(s[2..], "__", ".");
      assert r[1..] == ReplaceAll(s[2..], "__", ".");
      assert r[0] == '.' && !HasPrefix(r, "__");
    } else {
      CollapseUnderscores(s[1..]);
      var t := ReplaceAll(s[1..], "__", ".");
      assert r == [s[0]] + t;
      assert r[1..] == t;
      assert !HasPrefix(r, "__");
    }
  }

  /** A slug holds no space, no ASCII capital and no double underscore. */
  lemma SlugifyNameShape(full: string)
    ensures ' ' !in SlugifyName(full)
    ensures forall i :: 0 <= i < |SlugifyName(full)| ==> !IsUpper(SlugifyName(full)[i])
    ensures !Contains(SlugifyName(full), "__")
  {
    var dotted := ReplaceAll(full, " ", ".");
    ReplaceCharRemoves(full, ' ', ".");
    var slug := ToLower(dotted);
    assert ' ' !in slug by {
      forall i | 0 <= i < |slug| ensures slug[i] != ' ' {
        assert dotted[i] != ' ';
      }
    }
    var r := SlugifyName(full);
    if ' ' in r {
      ReplaceAllChars(slug, "__", ".", ' ');
    }
    forall i | 0 <= i < |r| ensures !IsUpper(r[i]) {
      ReplaceAllChars(slug, "__", ".", r[i]);
    }
    CollapseUnderscores(slug);
  }

  /** Map a configured role name onto a console role; unknown names become
      "admin". */
  function NormalizeRole(role: string): AdminUserRole {
    var lower := ToLower(role);
    if lower == AdminUserRoleSuperAdmin then AdminUserRoleSuperAdmin
    else if lower == AdminUserRoleManager then AdminUserRoleManager
    else if lower == AdminUserRoleCashier then AdminUserRoleCashier
    else AdminUserRoleAdmin
  }

  /** NormalizeRole always yields one of the four console roles; it keeps
      superadmin, manager and cashier in any letter case, fixes each role,
      and ignores the letter case of its input. */
  lemma NormalizeRoleClosed(role: string, other: string)
    ensures NormalizeRole(role) in AdminUserRoles
    ensures ToLower(role) in AdminUserRoles ==> NormalizeRole(role) == ToLower(role)
    ensures ToLower(role) !in AdminUserRoles ==> NormalizeRole(role) == AdminUserRoleAdmin
    ensures role in AdminUserRoles ==> NormalizeRole(role) == role
    ensures EqualFold(role, other) ==> NormalizeRole(role) == NormalizeRole(other)
  {
    if role in AdminUserRoles {
      assert ToLower(role) == role;
    }
  }

  // ---------------------------------------------------------------------
  // Analytics helpers

  const RangeToday: string := "today"
  const Range7Days: seq<string> := ["7d", "7day", "7days"]
  const Range30Days: seq<string> := ["30d", "30day", "30days"]

  /** Number of daily points for a window name, case-insensitively. */
  function RangeToDays(window: string): Result<nat, AdminError> {
    var w := ToLower(window);
    if w == RangeToday then Ok(1)
    else if w in Range7Days then Ok(7)
    else if w in Range30Days then Ok(30)
    else Err(InvalidRange)
  }

  /** The accepted windows are exactly today/7d/30d and their spellings,
      in any letter case, giving 1, 7 and 30 points; anything else is
      InvalidRange. */
  lemma RangeToDaysCases(window: string, other: string)
    ensures RangeToDays(window).Ok? <==> ToLower(window) in [RangeToday] + Range7Days + Range30Days
    ensures RangeToDays(window).Ok? ==> RangeToDays(window).value in {1, 7, 30}
    ensures RangeToDays(window).Err? ==> RangeToDays(window).error == InvalidRange
    ensures EqualFold(window, other) ==> RangeToDays(window) == RangeToDays(other)
    ensures RangeToDays("7D") == Ok(7) && RangeToDays("Today") == Ok(1) && RangeToDays("30Days") == Ok(30)
  {
    assert ToLower("7D") == "7d";
    assert ToLower("Today") == "today";
    assert ToLower("30Days") == "30days";
  }

  const MetricActiveUsers: string := "active_users"
  const MetricQuestionsAnswered: string := "questions_answered"

  function MetricBase(metric: string): int {
    if metric == MetricQuestionsAnswered then 1800 else 750
  }

  /** The fabricated value of a metric at instant `t`: a base plus the
      Unix day number (Go's truncating `/` and `%`) modulo 200, plus 100. */
  function MetricValue(metric: string, t: Time): int {
    MetricBase(metric) + TruncMod(TruncDiv(t, SecondsPerDay), 200) + 100
  }

  /** Since 1970 every value lies in [base + 100, base + 300); before it
      Go's signed remainder can push it down to base - 99. */
  lemma MetricValueBounds(metric: string, t: Time)
    ensures t >= 0 ==> MetricBase(metric) + 100 <= MetricValue(metric, t) < MetricBase(metric) + 300
    ensures MetricBase(metric) - 99 <= MetricValue(metric, t) < MetricBase(metric) + 300
  {
  }

  /** From 1970 on, the series repeats every 200 days. */
  lemma {:induction false} MetricValuePeriodic(metric: string, t: Time)
    requires t >= 0
    ensures MetricValue(metric, t + 200 * SecondsPerDay) == MetricValue(metric, t)
  {
    var d := t / SecondsPerDay;
    assert (t + 200 * SecondsPerDay) / SecondsPerDay == d + 200 by {
      assert t == d * SecondsPerDay + t % SecondsPerDay;
      assert t + 200 * SecondsPerDay == (d + 200) * SecondsPerDay + t % SecondsPerDay;
    }
    assert (d + 200) % 200 == d % 200;
  }
}
