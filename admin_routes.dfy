/** The request helpers of the admin user routes
    (internal/controller/http/v1/admin_users_routes.go): query parsing,
    status and role validation, the list filter built from a query, and
    the HTTP status each handler answers with. */
module AdminRoutes {
  import opened Wrappers
  import opened GoStrings
  import opened GoInts
  import opened Entity
  import opened AdminHelpers

  /** `parseQueryInt`: the query value when it reads as a Go `int` and is
      positive, the default otherwise (an absent query is ""). */
  function ParseQueryInt(raw: string, def: int): (v: int)
    ensures Atoi(raw).Some? && Atoi(raw).value > 0 ==> v == Atoi(raw).value
    ensures Atoi(raw).None? || Atoi(raw).value <= 0 ==> v == def
  {
    if raw != "" then
      match Atoi(raw)
      case Some(parsed) => if parsed > 0 then parsed else def
      case None => def
    else def
  }

  /** A positive number written by `strconv.Itoa` reads back; zero and
      negative numbers give the default. */
  lemma ParseQueryIntItoa(n: int, def: int)
    requires InInt64(n)
    ensures ParseQueryInt(Itoa(n), def) == (if n > 0 then n else def)
  {
    AtoiItoa(n);
  }

  /** `isValidAdminStatus`: exactly the four statuses. */
  function IsValidAdminStatus(status: AdminUserStatus): (ok: bool)
    ensures ok <==> status in AdminUserStatuses
  {
    status == AdminUserStatusActive || status == AdminUserStatusInactive
    || status == AdminUserStatusInvited || status == AdminUserStatusSuspended
  }

  /** `isValidAdminRole`: exactly the four roles. */
  function IsValidAdminRole(role: AdminUserRole): (ok: bool)
    ensures ok <==> role in AdminUserRoles
  {
    role == AdminUserRoleSuperAdmin || role == AdminUserRoleAdmin
    || role == AdminUserRoleManager || role == AdminUserRoleCashier
  }

  // ---------------------------------------------------------------------
  // parseUserStatuses

  /** One comma-separated piece, trimmed and lower-cased. */
  function NormalizeStatus(part: string): AdminUserStatus {
    ToLower(TrimSpace(part))
  }

  function InvalidStatusMessage(status: AdminUserStatus): string {
    "invalid status " + status
  }

  /** Every piece trimmed and lower-cased. */
  function NormalizeAll(parts: seq<string>): (r: seq<AdminUserStatus>)
    ensures |r| == |parts|
    ensures forall k :: 0 <= k < |parts| ==> r[k] == NormalizeStatus(parts[k])
  {
    seq(|parts|, k requires 0 <= k < |parts| => NormalizeStatus(parts[k]))
  }

  /** The reference reading of the normalised pieces: empty ones are
      skipped, the first invalid one is the error, the valid ones are kept
      in order. */
  function ParseStatuses(statuses: seq<AdminUserStatus>): Result<seq<AdminUserStatus>, string> {
    if statuses == [] then Ok([])
    else if statuses[0] == "" then ParseStatuses(statuses[1..])
    else if !IsValidAdminStatus(statuses[0]) then Err(InvalidStatusMessage(statuses[0]))
    else Prepend([statuses[0]], ParseStatuses(statuses[1..]))
  }

  /** Put `front` before a successful parse; an error stays as it is. */
  function Prepend(front: seq<AdminUserStatus>, r: Result<seq<AdminUserStatus>, string>): Result<seq<AdminUserStatus>, string> {
    match r
    case Ok(rest) => Ok(front + rest)
    case Err(e) => Err(e)
  }

  /** The valid statuses among the pieces, in order. */
  function KeptStatuses(statuses: seq<AdminUserStatus>): (kept: seq<AdminUserStatus>)
    ensures |kept| <= |statuses|
    ensures forall k :: 0 <= k < |kept| ==> kept[k] in AdminUserStatuses
  {
    if statuses == [] then []
    else if IsValidAdminStatus(statuses[0]) then [statuses[0]] + KeptStatuses(statuses[1..])
    else KeptStatuses(statuses[1..])
  }

  /** A piece the parser accepts: blank, or a valid status. */
  predicate Acceptable(status: AdminUserStatus) {
    status == "" || IsValidAdminStatus(status)
  }

  /** The parse succeeds exactly when every piece is acceptable, and then
      yields the valid statuses in input order; otherwise it names the first
      piece that is not. */
  lemma {:induction false} ParseStatusesMeaning(statuses: seq<AdminUserStatus>)
    ensures ParseStatuses(statuses).Ok? <==> forall k :: 0 <= k < |statuses| ==> Acceptable(statuses[k])
    ensures ParseStatuses(statuses).Ok? ==> ParseStatuses(statuses).value == KeptStatuses(statuses)
    ensures ParseStatuses(statuses).Err? ==>
      exists k :: 0 <= k < |statuses| && !Acceptable(statuses[k])
        && (forall j :: 0 <= j < k ==> Acceptable(statuses[j]))
        && ParseStatuses(statuses).error == InvalidStatusMessage(statuses[k])
  {
    if statuses != [] {
      var tail := statuses[1..];
      ParseStatusesMeaning(tail);
      assert forall k :: 1 <= k < |statuses| ==> statuses[k] == tail[k - 1];
      if ParseStatuses(statuses).Err? && Acceptable(statuses[0]) {
        var k :| 0 <= k < |tail| && !Acceptable(tail[k])
          && (forall j :: 0 <= j < k ==> Acceptable(tail[j]))
          && ParseStatuses(tail).error == InvalidStatusMessage(tail[k]);
        assert statuses[k + 1] == tail[k];
      }
    }
  }

  /** One step of the reference reading. */
  lemma ParseStep(statuses: seq<AdminUserStatus>)
    requires statuses != []
    ensures ParseStatuses(statuses) ==
      if statuses[0] == "" then ParseStatuses(statuses[1..])
      else if !IsValidAdminStatus(statuses[0]) then Err(InvalidStatusMessage(statuses[0]))
      else Prepend([statuses[0]], ParseStatuses(statuses[1..]))
  {
  }

  lemma PrependTwice(a: seq<AdminUserStatus>, b: seq<AdminUserStatus>, r: Result<seq<AdminUserStatus>, string>)
    ensures Prepend(a, Prepend(b, r)) == Prepend(a + b, r)
  {
    if r.Ok? {
      assert a + (b + r.value) == (a + b) + r.value;
    }
  }

  /** `parseUserStatuses`: split on commas and read each piece in turn. */
  method ParseUserStatuses(raw: string) returns (r: Result<seq<AdminUserStatus>, string>)
    ensures r == ParseStatuses(NormalizeAll(Split(raw, ',')))
  {
    var parts := Split(raw, ',');
    ghost var all := NormalizeAll(parts);
    var statuses: seq<AdminUserStatus> := [];
    var i := 0;
    assert all[0..] == all;
    assert Prepend([], ParseStatuses(all)) == ParseStatuses(all) by {
      if ParseStatuses(all).Ok? {
        assert [] + ParseStatuses(all).value == ParseStatuses(all).value;
      }
    }
    while i < |parts|
      invariant 0 <= i <= |parts|
      invariant ParseStatuses(all) == Prepend(statuses, ParseStatuses(all[i..]))
    {
      var status := NormalizeStatus(parts[i]);
      ParseStep(all[i..]);
      assert all[i..][0] == status && all[i..][1..] == all[i + 1..];
      if status == "" {
        i := i + 1;
        continue;
      }
      if !IsValidAdminStatus(status) {
        return Err(InvalidStatusMessage(status));
      }
      PrependTwice(statuses, [status], ParseStatuses(all[i + 1..]));
      statuses := statuses + [status];
      i := i + 1;
    }
    assert all[|parts|..] == [];
    assert statuses + [] == statuses;
    r := Ok(statuses);
  }

  // ---------------------------------------------------------------------
  // The list query

  /** The raw query values of the list route; an absent one is "". */
  datatype ListQuery = ListQuery(page: string, pageSize: string, status: string, role: string, username: string)

  /** An error reply: the HTTP status code and the message. */
  datatype Reply = Reply(code: int, message: string)

  const StatusOK: int := 200
  const StatusCreated: int := 201
  const StatusAccepted: int := 202
  const StatusNoContent: int := 204
  const StatusBadRequest: int := 400
  const StatusNotFound: int := 404
  const StatusConflict: int := 409
  const StatusInternalServerError: int := 500

  /** The filter `adminListUsers` builds: page and size default to 1 and
      20, a status list is parsed when given, and a role is lower-cased and
      must be one of the four. Statuses are checked before the role. */
  function ListFilter(q: ListQuery): (r: Result<AdminUserFilter, Reply>)
    ensures r.Err? ==> r.error.code == StatusBadRequest
    ensures r.Err? <==>
      (q.status != "" && ParseStatuses(NormalizeAll(Split(q.status, ','))).Err?)
      || (q.role != "" && !(ToLower(q.role) in AdminUserRoles))
    ensures r.Ok? ==>
      && r.value.page == ParseQueryInt(q.page, 1) && r.value.pageSize == ParseQueryInt(q.pageSize, 20)
      && r.value.username == q.username
      && (q.status == "" ==> r.value.statuses == [])
      && (q.status != "" ==> r.value.statuses == KeptStatuses(NormalizeAll(Split(q.status, ','))))
      && (q.role == "" ==> r.value.role == None)
      && (q.role != "" ==> r.value.role == Some(ToLower(q.role)))
  {
    var statuses := if q.status == "" then Ok([]) else ParseStatuses(NormalizeAll(Split(q.status, ',')));
    ParseStatusesMeaning(NormalizeAll(Split(q.status, ',')));
    if statuses.Err? then Err(Reply(StatusBadRequest, statuses.error))
    else if q.role != "" && !IsValidAdminRole(ToLower(q.role)) then Err(Reply(StatusBadRequest, "invalid role"))
    else
      var role := if q.role == "" then None else Some(ToLower(q.role));
      Ok(AdminUserFilter(ParseQueryInt(q.page, 1), ParseQueryInt(q.pageSize, 20), statuses.value, role, q.username))
  }

  /** Every filter the route builds asks only for valid statuses and
      roles, and for positive page numbers and sizes. */
  lemma ListFilterWellFormed(q: ListQuery)
    ensures ListFilter(q).Ok? ==>
      && ListFilter(q).value.page > 0 && ListFilter(q).value.pageSize > 0
      && (forall k :: 0 <= k < |ListFilter(q).value.statuses| ==> ListFilter(q).value.statuses[k] in AdminUserStatuses)
      && (ListFilter(q).value.role.Some? ==> ListFilter(q).value.role.value in AdminUserRoles)
  {
  }

  // ---------------------------------------------------------------------
  // Error-to-status mapping

  /** `adminCreateUser`: 201 with the user, 409 for a duplicate, 500 for
      anything else. */
  function CreateReply(outcome: Result<AdminUser, AdminError>): Reply {
    match outcome
    case Ok(_) => Reply(StatusCreated, "")
    case Err(e) =>
      if e == DuplicateUsername || e == DuplicateEmail then Reply(StatusConflict, ErrorMessage(e))
      else Reply(StatusInternalServerError, "unable to create user")
  }

  /** `adminUpdateUser`: 200 with the user, 404 for a missing user, 409
      for a duplicate, 500 for anything else. */
  function UpdateReply(outcome: Result<AdminUser, AdminError>): Reply {
    match outcome
    case Ok(_) => Reply(StatusOK, "")
    case Err(e) =>
      if e == UserNotFound then Reply(StatusNotFound, "user not found")
      else if e == DuplicateUsername || e == DuplicateEmail then Reply(StatusConflict, ErrorMessage(e))
      else Reply(StatusInternalServerError, "unable to update user")
  }

  /** `adminDeleteUser`: 204 without a body, 404 for a missing user, 500
      for anything else. */
  function DeleteReply(err: Option<AdminError>): Reply {
    match err
    case None => Reply(StatusNoContent, "")
    case Some(e) =>
      if e == UserNotFound then Reply(StatusNotFound, "user not found")
      else Reply(StatusInternalServerError, "unable to delete user")
  }

  /** The bulk routes answer 200 with the count, the invite route 202. */
  const BulkReplyCode: int := StatusOK
  const InviteReplyCode: int := StatusAccepted

  /** A body that fails binding or validation. */
  const InvalidBody: Reply := Reply(StatusBadRequest, "invalid body")

  /** Conflict means a duplicate, not-found means a missing user, in every
      handler; each success has its own code and every failure is a 4xx or
      5xx. */
  lemma ReplyCodes(outcome: Result<AdminUser, AdminError>, err: Option<AdminError>)
    ensures CreateReply(outcome).code == StatusConflict <==> outcome.Err? && (outcome.error == DuplicateUsername || outcome.error == DuplicateEmail)
    ensures UpdateReply(outcome).code == StatusConflict <==> outcome.Err? && (outcome.error == DuplicateUsername || outcome.error == DuplicateEmail)
    ensures UpdateReply(outcome).code == StatusNotFound <==> outcome == Err(UserNotFound)
    ensures DeleteReply(err).code == StatusNotFound <==> err == Some(UserNotFound)
    ensures CreateReply(outcome).code == StatusCreated <==> outcome.Ok?
    ensures UpdateReply(outcome).code == StatusOK <==> outcome.Ok?
    ensures DeleteReply(err).code == StatusNoContent <==> err.None?
    ensures outcome.Err? ==> 400 <= CreateReply(outcome).code < 600 && 400 <= UpdateReply(outcome).code < 600
    ensures err.Some? ==> 400 <= DeleteReply(err).code < 600
  {
  }
}
