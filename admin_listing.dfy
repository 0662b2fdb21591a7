/** Filtering, ordering and pagination of the admin user list
    (`ListUsers` and `statusMatch` in internal/usecase/admin/admin.go). */
module AdminListing {
  import opened Wrappers
  import opened GoStrings
  import opened GoInts
  import opened Entity

  const DefaultPage: int := 1
  const DefaultPageSize: int := 20

  /** A page number or size that is not positive falls back to its default. */
  function NormalizePage(page: int): int {
    if page <= 0 then DefaultPage else page
  }

  function NormalizePageSize(pageSize: int): int {
    if pageSize <= 0 then DefaultPageSize else pageSize
  }

  /** The three conditions the list scan checks in turn, skipping the user
      at the first that fails: the status is one of those asked for (an
      empty list asks for any), the role is the one asked for (if any), and
      the username contains the one asked for, ignoring ASCII letter case
      (an empty one matches all). */
  predicate Matches(u: AdminUser, f: AdminUserFilter) {
    && (|f.statuses| == 0 || u.status in f.statuses)
    && (f.role.None? || u.role == f.role.value)
    && (f.username == "" || Contains(ToLower(u.username), ToLower(f.username)))
  }

  /** Newest first, as `sort.Slice` with `CreatedAt.After` as "less"
      leaves it: each user is at least as recent as the next one. */
  predicate SortedDesc(s: seq<AdminUser>) {
    forall i :: 0 <= i < |s| - 1 ==> s[i].createdAt >= s[i + 1].createdAt
  }

  /** Neighbour order gives order between any two positions. */
  lemma {:induction false} SortedDescPairwise(s: seq<AdminUser>, i: int, j: int)
    requires SortedDesc(s)
    requires 0 <= i <= j < |s|
    ensures s[i].createdAt >= s[j].createdAt
    decreases j - i
  {
    if i < j {
      SortedDescPairwise(s, i + 1, j);
    }
  }

  function InsertDesc(u: AdminUser, s: seq<AdminUser>): (r: seq<AdminUser>)
    ensures multiset(r) == multiset(s) + multiset{u}
    ensures |r| == |s| + 1 && (r[0] == u || (s != [] && r[0] == s[0]))
  {
    if s == [] || u.createdAt >= s[0].createdAt then [u] + s
    else
      var rest := InsertDesc(u, s[1..]);
      assert s == [s[0]] + s[1..];
      assert multiset(s) == multiset{s[0]} + multiset(s[1..]);
      [s[0]] + rest
  }

  /** Inserting into a newest-first list keeps it newest first. */
  lemma {:induction false} InsertDescSorted(u: AdminUser, s: seq<AdminUser>)
    requires SortedDesc(s)
    ensures SortedDesc(InsertDesc(u, s))
  {
    if s == [] || u.createdAt >= s[0].createdAt {
      ConsSortedDesc(u, s);
    } else {
      var tail := s[1..];
      assert SortedDesc(tail) by {
        forall i | 0 <= i < |tail| - 1 ensures tail[i].createdAt >= tail[i + 1].createdAt {
          assert tail[i] == s[i + 1] && tail[i + 1] == s[i + 2];
        }
      }
      InsertDescSorted(u, tail);
      ConsSortedDesc(s[0], InsertDesc(u, tail));
    }
  }

  /** A user at least as recent as the head of a newest-first list can go
      in front of it. */
  lemma ConsSortedDesc(u: AdminUser, s: seq<AdminUser>)
    requires SortedDesc(s) && (s == [] || u.createdAt >= s[0].createdAt)
    ensures SortedDesc([u] + s)
  {
    var r := [u] + s;
    forall i | 0 <= i < |r| - 1 ensures r[i].createdAt >= r[i + 1].createdAt {
      if i > 0 {
        assert r[i] == s[i - 1] && r[i + 1] == s[i];
      }
    }
  }

  /** An ordering of `s`, newest first. Ties, which `sort.Slice` may leave
      in any order, keep one particular order here; the list operation's
      contract allows any. */
  function SortDesc(s: seq<AdminUser>): (r: seq<AdminUser>)
    ensures multiset(r) == multiset(s)
    ensures SortedDesc(r)
  {
    if s == [] then []
    else
      assert s == [s[0]] + s[1..];
      InsertDescSorted(s[0], SortDesc(s[1..]));
      InsertDesc(s[0], SortDesc(s[1..]))
  }

  // ---------------------------------------------------------------------
  // Pagination

  /** The slice bounds of one page, with unbounded arithmetic: the page
      starts at (page-1)*pageSize and both bounds are clamped to `total`. */
  function PageBounds(page: int, pageSize: int, total: nat): (b: (nat, nat))
    requires page >= 1 && pageSize >= 1
    ensures b.0 <= b.1 <= total
  {
    var start := if (page - 1) * pageSize > total then total else (page - 1) * pageSize;
    var end := if start + pageSize > total then total else start + pageSize;
    (start, end)
  }

  /** A page holds pageSize items, fewer on the last page, none past the
      end; consecutive pages meet, so paging never skips nor repeats. */
  lemma PageBoundsTile(page: int, pageSize: int, total: nat)
    requires page >= 1 && pageSize >= 1
    ensures var (s, e) := PageBounds(page, pageSize, total);
      && ((page - 1) * pageSize <= total ==> s == (page - 1) * pageSize)
      && e - s == (if (page - 1) * pageSize >= total then 0
                   else if total - (page - 1) * pageSize < pageSize then total - (page - 1) * pageSize
                   else pageSize)
      && PageBounds(page + 1, pageSize, total).0 == e
  {
    assert page * pageSize == (page - 1) * pageSize + pageSize;
  }

  /** Three users, page 2 of size 1: exactly the second newest. */
  lemma SecondPageOfThree(ordered: seq<AdminUser>)
    requires |ordered| == 3
    ensures var (s, e) := PageBounds(2, 1, 3); ordered[s..e] == [ordered[1]]
  {
  }

  /** The bounds as the Go code computes them, in wrapping 64-bit `int`
      arithmetic. */
  function PageBoundsAsWritten(page: int, pageSize: int, total: nat): (int, int)
    requires InInt64(page) && InInt64(pageSize) && InInt64(total)
  {
    var start0 := Wrap64(Wrap64(page - 1) * pageSize);
    var start := if start0 > total then total else start0;
    var end0 := Wrap64(start + pageSize);
    var end := if end0 > total then total else end0;
    (start, end)
  }

  /** Where nothing overflows, the Go bounds are the intended ones. */
  lemma PageBoundsAsWrittenAgrees(page: int, pageSize: int, total: nat)
    requires 1 <= page <= MaxInt64 && 1 <= pageSize <= MaxInt64
    requires (page - 1) * pageSize <= MaxInt64 && total + pageSize <= MaxInt64
    ensures PageBoundsAsWritten(page, pageSize, total) == PageBounds(page, pageSize, total)
  {
    var product := (page - 1) * pageSize;
    assert InInt64(page - 1);
    assert Wrap64(page - 1) == page - 1;
    NonNegativeProduct(page - 1, pageSize);
    assert InInt64(product);
    var start := if product > total then total else product;
    assert InInt64(start + pageSize);
  }

  lemma NonNegativeProduct(a: int, b: int)
    requires a >= 0 && b >= 0
    ensures a * b >= 0
  {
  }

  /** page=2, pageSize=MaxInt64 over one user: the end bound wraps to a
      negative number, below the start, and the slice expression panics. */
  lemma PageEndOverflows()
    ensures var (s, e) := PageBoundsAsWritten(2, MaxInt64, 1); s == 1 && e == MinInt64 && e < s
  {
    assert Wrap64(1 + MaxInt64) == MinInt64;
  }

  /** page=2^62+1, pageSize=4: the start wraps to 0, so a page far past the
      end returns the first four users instead of nothing. */
  lemma PageStartWraps()
    ensures PageBoundsAsWritten(0x4000_0000_0000_0001, 4, 10) == (0, 4)
    ensures PageBounds(0x4000_0000_0000_0001, 4, 10) == (10, 10)
  {
    assert Wrap64(0x4000_0000_0000_0000 * 4) == 0;
  }
}
