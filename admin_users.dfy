/** The in-memory console-user directory of the admin use case
    (`UseCase` in internal/usecase/admin/admin.go): a map from id to user,
    seeded with the bootstrap operator, kept free of two users whose
    usernames, or whose e-mails, are equal up to letter case. The clock and
    the fresh id of a new user are parameters. */
module AdminUsers {
  import opened Wrappers
  import opened GoStrings
  import opened Entity
  import opened AdminHelpers
  import opened AdminListing

  const BootstrapPhone: string := "+91 90000 00000"

  /** The user `seedUsers` builds from the bootstrap profile; `clock` stands
      in for the current time, used when the profile has no creation time. */
  function SeedUser(profile: AdminProfile, clock: Time): (u: AdminUser)
    ensures u.id == profile.id && u.email == profile.email
    ensures u.status == AdminUserStatusActive && u.role in AdminUserRoles
    ensures u.createdAt == u.updatedAt
    ensures u.createdAt == (if profile.createdAt == ZeroTime then clock else profile.createdAt)
    ensures ' ' !in u.username
    ensures u.role == NormalizeRole(profile.role)
    ensures u.username == SlugifyName(profile.displayName)
    ensures (u.firstName, u.lastName) == SplitName(profile.displayName)
    ensures u.phoneNumber == BootstrapPhone
  {
    NormalizeRoleClosed(profile.role, profile.role);
    SlugifyNameShape(profile.displayName);
    var (first, last) := SplitName(profile.displayName);
    var now := if profile.createdAt == ZeroTime then clock else profile.createdAt;
    AdminUser(profile.id, first, last, SlugifyName(profile.displayName), profile.email,
              BootstrapPhone, AdminUserStatusActive, NormalizeRole(profile.role), now, now)
  }

  // ---------------------------------------------------------------------
  // The directory invariant

  ghost predicate IdsMatchKeys(users: map<Uuid, AdminUser>) {
    forall id :: id in users ==> users[id].id == id
  }

  /** Users `a` and `b` are both stored and their usernames are equal up to
      letter case. */
  ghost predicate UsernamesFold(users: map<Uuid, AdminUser>, a: Uuid, b: Uuid) {
    a in users && b in users && EqualFold(users[a].username, users[b].username)
  }

  ghost predicate EmailsFold(users: map<Uuid, AdminUser>, a: Uuid, b: Uuid) {
    a in users && b in users && EqualFold(users[a].email, users[b].email)
  }

  ghost predicate UniqueUsernames(users: map<Uuid, AdminUser>) {
    forall a, b {:trigger UsernamesFold(users, a, b)} :: a != b ==> !UsernamesFold(users, a, b)
  }

  ghost predicate UniqueEmails(users: map<Uuid, AdminUser>) {
    forall a, b {:trigger EmailsFold(users, a, b)} :: a != b ==> !EmailsFold(users, a, b)
  }

  ghost predicate DirectoryInvariant(users: map<Uuid, AdminUser>) {
    IdsMatchKeys(users) && UniqueUsernames(users) && UniqueEmails(users)
  }

  /** Some user other than `exclude` has this username, up to letter case. */
  predicate UsernameTaken(users: map<Uuid, AdminUser>, username: string, exclude: Option<Uuid>) {
    exists id :: id in users && Some(id) != exclude && EqualFold(users[id].username, username)
  }

  predicate EmailTaken(users: map<Uuid, AdminUser>, email: string, exclude: Option<Uuid>) {
    exists id :: id in users && Some(id) != exclude && EqualFold(users[id].email, email)
  }

  /** The record a successful create stores. */
  function NewUser(req: AdminUserCreateRequest, id: Uuid, now: Time): AdminUser {
    AdminUser(id, req.firstName, req.lastName, req.username, req.email,
              req.phoneNumber, req.status, req.role, now, now)
  }

  /** The update's username is checked only when it differs from the
      stored one, and then against the other users. */
  predicate UsernameClash(users: map<Uuid, AdminUser>, id: Uuid, req: AdminUserUpdateRequest)
    requires id in users
  {
    req.username.Some? && req.username.value != users[id].username
      && UsernameTaken(users, req.username.value, Some(id))
  }

  predicate EmailClash(users: map<Uuid, AdminUser>, id: Uuid, req: AdminUserUpdateRequest)
    requires id in users
  {
    req.email.Some? && req.email.value != users[id].email
      && EmailTaken(users, req.email.value, Some(id))
  }

  /** A partial update: each present request field replaces the stored one;
      id and creation time stay, the update time becomes `now`. */
  function MergeUser(u: AdminUser, req: AdminUserUpdateRequest, now: Time): AdminUser {
    u.(firstName := req.firstName.GetOr(u.firstName),
       lastName := req.lastName.GetOr(u.lastName),
       username := req.username.GetOr(u.username),
       email := req.email.GetOr(u.email),
       phoneNumber := req.phoneNumber.GetOr(u.phoneNumber),
       role := req.role.GetOr(u.role),
       status := req.status.GetOr(u.status),
       updatedAt := now)
  }

  /** A user after a bulk status change at time `now`. */
  function WithStatus(u: AdminUser, status: AdminUserStatus, now: Time): AdminUser {
    u.(status := status, updatedAt := now)
  }

  const EmptyUpdate: AdminUserUpdateRequest :=
    AdminUserUpdateRequest(None, None, None, None, None, None, None, None)

  /** Applying the same update twice is applying it once; the empty update
      only touches the update time; a present field wins over the stored
      value; the password is never stored. */
  lemma MergeUserLaws(u: AdminUser, req: AdminUserUpdateRequest, t1: Time, t2: Time)
    ensures MergeUser(MergeUser(u, req, t1), req, t2) == MergeUser(u, req, t2)
    ensures MergeUser(u, EmptyUpdate, t1) == u.(updatedAt := t1)
    ensures var m := MergeUser(u, req, t1);
      && m.id == u.id && m.createdAt == u.createdAt && m.updatedAt == t1
      && (req.username.Some? ==> m.username == req.username.value)
      && (req.username.None? ==> m.username == u.username)
      && (req.email.Some? ==> m.email == req.email.value)
      && (req.email.None? ==> m.email == u.email)
      && (req.status.Some? ==> m.status == req.status.value)
      && (req.status.None? ==> m.status == u.status)
    ensures MergeUser(u, req.(password := None), t1) == MergeUser(u, req, t1)
  {
  }

  /** Adding a fresh user whose username and e-mail no stored user has,
      up to letter case, keeps the invariant. */
  lemma CreateKeepsInvariant(users: map<Uuid, AdminUser>, req: AdminUserCreateRequest, id: Uuid, now: Time)
    requires DirectoryInvariant(users) && id !in users
    requires !UsernameTaken(users, req.username, None) && !EmailTaken(users, req.email, None)
    ensures DirectoryInvariant(users[id := NewUser(req, id, now)])
  {
    var after := users[id := NewUser(req, id, now)];
    forall a, b | a != b
      ensures !UsernamesFold(after, a, b) && !EmailsFold(after, a, b)
    {
      if a in after && b in after {
        if a == id || b == id {
          var other := if a == id then b else a;
          assert !EqualFold(users[other].username, req.username);
          assert !EqualFold(users[other].email, req.email);
        } else {
          assert !UsernamesFold(users, a, b) && !EmailsFold(users, a, b);
        }
      }
    }
  }

  /** An update that passed both clash checks keeps the invariant. */
  lemma UpdateKeepsInvariant(users: map<Uuid, AdminUser>, id: Uuid, req: AdminUserUpdateRequest, now: Time)
    requires DirectoryInvariant(users) && id in users
    requires !UsernameClash(users, id, req) && !EmailClash(users, id, req)
    ensures DirectoryInvariant(users[id := MergeUser(users[id], req, now)])
  {
    var u := MergeUser(users[id], req, now);
    var after := users[id := u];
    forall a, b | a != b
      ensures !UsernamesFold(after, a, b) && !EmailsFold(after, a, b)
    {
      if a in after && b in after {
        if a == id {
          NotTakenApart(users, id, u.username, u.email, b, req);
        } else if b == id {
          NotTakenApart(users, id, u.username, u.email, a, req);
        } else {
          assert !UsernamesFold(users, a, b) && !EmailsFold(users, a, b);
        }
      }
    }
  }

  /** The merged username and e-mail of `id` fold-equal no other user's. */
  lemma NotTakenApart(users: map<Uuid, AdminUser>, id: Uuid, username: string, email: string,
                      other: Uuid, req: AdminUserUpdateRequest)
    requires DirectoryInvariant(users) && id in users && other in users && other != id
    requires !UsernameClash(users, id, req) && !EmailClash(users, id, req)
    requires username == req.username.GetOr(users[id].username)
    requires email == req.email.GetOr(users[id].email)
    ensures !EqualFold(username, users[other].username) && !EqualFold(users[other].username, username)
    ensures !EqualFold(email, users[other].email) && !EqualFold(users[other].email, email)
  {
    if req.username.None? || req.username.value == users[id].username {
      assert !UsernamesFold(users, id, other) && !UsernamesFold(users, other, id);
    } else {
      assert !UsernameTaken(users, req.username.value, Some(id));
      assert !EqualFold(users[other].username, username);
    }
    if req.email.None? || req.email.value == users[id].email {
      assert !EmailsFold(users, id, other) && !EmailsFold(users, other, id);
    } else {
      assert !EmailTaken(users, req.email.value, Some(id));
      assert !EqualFold(users[other].email, email);
    }
  }

  /** Replacing entries without touching any id, username or e-mail keeps
      the invariant. */
  lemma SameIdentities(a: map<Uuid, AdminUser>, b: map<Uuid, AdminUser>)
    requires DirectoryInvariant(a)
    requires a.Keys == b.Keys
    requires forall k :: k in a ==> b[k].id == a[k].id && b[k].username == a[k].username && b[k].email == a[k].email
    ensures DirectoryInvariant(b)
  {
    forall x, y | x != y
      ensures !UsernamesFold(b, x, y) && !EmailsFold(b, x, y)
    {
      assert !UsernamesFold(a, x, y) && !EmailsFold(a, x, y);
    }
  }

  /** Removing entries keeps the invariant. */
  lemma SubmapKeepsInvariant(a: map<Uuid, AdminUser>, gone: set<Uuid>)
    requires DirectoryInvariant(a)
    ensures DirectoryInvariant(a - gone)
  {
    var b := a - gone;
    forall x, y | x != y
      ensures !UsernamesFold(b, x, y) && !EmailsFold(b, x, y)
    {
      assert !UsernamesFold(a, x, y) && !EmailsFold(a, x, y);
    }
  }

  // ---------------------------------------------------------------------
  // Counting

  function Elems(ids: seq<Uuid>): set<Uuid> {
    set id | id in ids
  }

  /** The number of list positions whose id is a key: what BulkStatus
      returns, counting a repeated id once per occurrence. */
  function CountPresent(ids: seq<Uuid>, keys: set<Uuid>): (n: nat)
    ensures n <= |ids|
  {
    if ids == [] then 0
    else CountPresent(ids[..|ids| - 1], keys) + (if ids[|ids| - 1] in keys then 1 else 0)
  }

  predicate Distinct(ids: seq<Uuid>) {
    forall i, j :: 0 <= i < j < |ids| ==> ids[i] != ids[j]
  }

  lemma ElemsSnoc(init: seq<Uuid>, last: Uuid)
    ensures Elems(init + [last]) == Elems(init) + {last}
  {
    assert forall x :: x in init + [last] <==> x in init || x == last;
  }

  lemma DistinctSnoc(init: seq<Uuid>, last: Uuid)
    requires Distinct(init + [last])
    ensures Distinct(init) && last !in Elems(init)
  {
    var ids := init + [last];
    forall i, j | 0 <= i < j < |init| ensures init[i] != init[j] {
      assert init[i] == ids[i] && init[j] == ids[j];
    }
    forall i | 0 <= i < |init| ensures init[i] != last {
      assert init[i] == ids[i] && last == ids[|init|];
    }
  }

  /** Counting positions never undercounts the distinct present ids, and
      matches it when the list has no repeats. */
  lemma {:induction false} CountPresentDistinct(ids: seq<Uuid>, keys: set<Uuid>)
    ensures CountPresent(ids, keys) >= |keys * Elems(ids)|
    ensures Distinct(ids) ==> CountPresent(ids, keys) == |keys * Elems(ids)|
  {
    if ids != [] {
      var init := ids[..|ids| - 1];
      var last := ids[|ids| - 1];
      assert ids == init + [last];
      CountPresentDistinct(init, keys);
      ElemsSnoc(init, last);
      IntersectSnoc(keys, Elems(init), last);
      if Distinct(ids) {
        DistinctSnoc(init, last);
      }
    }
  }

  /** Adding one element to a set grows its overlap with `keys` by one
      exactly when the element is a new key. */
  lemma IntersectSnoc(keys: set<Uuid>, seen: set<Uuid>, id: Uuid)
    ensures id in keys && id !in seen ==> |keys * (seen + {id})| == |keys * seen| + 1
    ensures !(id in keys && id !in seen) ==> keys * (seen + {id}) == keys * seen
  {
    if id in keys && id !in seen {
      assert keys * (seen + {id}) == keys * seen + {id};
    }
  }

  /** Removing one more listed id from what is left. */
  lemma DeleteStep(users: map<Uuid, AdminUser>, seen: seq<Uuid>, id: Uuid)
    ensures users - Elems(seen + [id]) ==
      (if id in users - Elems(seen) then (users - Elems(seen)) - {id} else users - Elems(seen))
  {
    ElemsSnoc(seen, id);
  }

  /** The number of list positions holding a key for the first time. */
  function CountFirstPresent(ids: seq<Uuid>, keys: set<Uuid>): (n: nat)
    ensures n <= CountPresent(ids, keys)
  {
    if ids == [] then 0
    else
      var init := ids[..|ids| - 1];
      var last := ids[|ids| - 1];
      CountFirstPresent(init, keys) + (if last in keys && last !in init then 1 else 0)
  }

  /** Counting first occurrences counts the distinct listed keys. */
  lemma {:induction false} CountFirstPresentIsOverlap(ids: seq<Uuid>, keys: set<Uuid>)
    ensures CountFirstPresent(ids, keys) == |keys * Elems(ids)|
  {
    if ids != [] {
      var init := ids[..|ids| - 1];
      var last := ids[|ids| - 1];
      assert ids == init + [last];
      CountFirstPresentIsOverlap(init, keys);
      ElemsSnoc(init, last);
      IntersectSnoc(keys, Elems(init), last);
    }
  }

  /** A repeated id is counted twice by BulkStatus. */
  lemma CountPresentRepeats(id: Uuid)
    ensures CountPresent([id, id], {id}) == 2
  {
    assert [id, id][..1] == [id];
  }

  // ---------------------------------------------------------------------
  // Listing

  /** The ids of the stored users the filter keeps. */
  ghost function MatchingIds(users: map<Uuid, AdminUser>, f: AdminUserFilter): set<Uuid> {
    set id | id in users && Matches(users[id], f)
  }

  /** The users a list holds are exactly the matching ones, each once. */
  ghost predicate Selection(users: map<Uuid, AdminUser>, f: AdminUserFilter, s: seq<AdminUser>) {
    && |s| == |MatchingIds(users, f)|
    && (forall id :: id in MatchingIds(users, f) ==> users[id] in s)
    && (forall i :: 0 <= i < |s| ==> s[i].id in users && users[s[i].id] == s[i] && Matches(s[i], f))
  }

  /** Reordering a selection leaves it a selection. */
  lemma PermutationKeepsSelection(users: map<Uuid, AdminUser>, f: AdminUserFilter,
                                  s: seq<AdminUser>, t: seq<AdminUser>)
    requires Selection(users, f, s)
    requires multiset(t) == multiset(s)
    ensures Selection(users, f, t)
  {
    assert |t| == |multiset(t)| == |multiset(s)| == |s|;
    forall i | 0 <= i < |t|
      ensures t[i].id in users && users[t[i].id] == t[i] && Matches(t[i], f)
    {
      assert t[i] in multiset(s);
      var j :| 0 <= j < |s| && s[j] == t[i];
    }
    forall id | id in MatchingIds(users, f)
      ensures users[id] in t
    {
      assert users[id] in multiset(t);
    }
  }

  // ---------------------------------------------------------------------
  // Findings: the create check as written

  /** CreateUser as written passes `uuid.Nil` as the id to skip, so a user
      stored under the nil id is never compared. */
  predicate CreateConflictAsWritten(users: map<Uuid, AdminUser>, req: AdminUserCreateRequest) {
    UsernameTaken(users, req.username, Some(NilUuid)) || EmailTaken(users, req.email, Some(NilUuid))
  }

  /** With the bootstrap operator configured under the nil id, a create
      request reusing its username and e-mail passes the check as written,
      and storing it breaks the directory invariant. */
  lemma NilBootstrapAdmitsDuplicate(profile: AdminProfile, clock: Time, req: AdminUserCreateRequest,
                                    id: Uuid, now: Time)
    requires profile.id == NilUuid && id != NilUuid
    requires req.username == SeedUser(profile, clock).username
    ensures var users := map[NilUuid := SeedUser(profile, clock)];
      && !CreateConflictAsWritten(users, req)
      && UsernameTaken(users, req.username, None)
      && !DirectoryInvariant(users[id := NewUser(req, id, now)])
  {
    var users := map[NilUuid := SeedUser(profile, clock)];
    var after := users[id := NewUser(req, id, now)];
    assert UsernamesFold(after, NilUuid, id);
  }

  /** When no user has the nil id, the check as written and the corrected
      check (which skips nobody) agree. */
  lemma CreateConflictAgrees(users: map<Uuid, AdminUser>, req: AdminUserCreateRequest)
    requires NilUuid !in users
    ensures CreateConflictAsWritten(users, req) <==>
      UsernameTaken(users, req.username, None) || EmailTaken(users, req.email, None)
  {
  }

  /** The field copy of `UpdateUser`: each present field overwrites the
      stored one, then the update time is set. */
  method CopyPresentFields(stored: AdminUser, req: AdminUserUpdateRequest, now: Time) returns (user: AdminUser)
    ensures user == MergeUser(stored, req, now)
  {
    user := stored;
    if req.firstName.Some? {
      user := user.(firstName := req.firstName.value);
    }
    if req.lastName.Some? {
      user := user.(lastName := req.lastName.value);
    }
    if req.username.Some? {
      user := user.(username := req.username.value);
    }
    if req.email.Some? {
      user := user.(email := req.email.value);
    }
    if req.phoneNumber.Some? {
      user := user.(phoneNumber := req.phoneNumber.value);
    }
    if req.role.Some? {
      user := user.(role := req.role.value);
    }
    if req.status.Some? {
      user := user.(status := req.status.value);
    }
    user := user.(updatedAt := now);
  }

  /** The directory after the status change of `BulkStatus` has reached
      the ids in `seen`. */
  function StatusApplied(users: map<Uuid, AdminUser>, seen: seq<Uuid>, status: AdminUserStatus, now: Time): map<Uuid, AdminUser> {
    map k | k in users :: if k in seen then WithStatus(users[k], status, now) else users[k]
  }

  /** One more listed id: a present user gets the status (again, for a
      repeated id, which changes nothing more); a missing one is skipped. */
  lemma StatusStep(users: map<Uuid, AdminUser>, seen: seq<Uuid>, id: Uuid, status: AdminUserStatus, now: Time)
    ensures id in StatusApplied(users, seen, status, now) <==> id in users
    ensures id in users ==>
      StatusApplied(users, seen + [id], status, now) ==
        StatusApplied(users, seen, status, now)[id := StatusApplied(users, seen, status, now)[id].(status := status).(updatedAt := now)]
    ensures id !in users ==> StatusApplied(users, seen + [id], status, now) == StatusApplied(users, seen, status, now)
  {
    var before := StatusApplied(users, seen, status, now);
    var after := StatusApplied(users, seen + [id], status, now);
    if id in users {
      assert before[id].(status := status).(updatedAt := now) == WithStatus(users[id], status, now);
    }
    assert forall k :: k in seen + [id] <==> k in seen || k == id;
  }

  // ---------------------------------------------------------------------
  // The use case

  class UseCase {
    /** The bootstrap operator. */
    const profile: AdminProfile
    var users: map<Uuid, AdminUser>

    ghost predicate Valid()
      reads this
    {
      DirectoryInvariant(users)
    }

    /** `New`: the directory holds only the seeded bootstrap user. */
    constructor (profile: AdminProfile, clock: Time)
      ensures this.profile == profile
      ensures users == map[profile.id := SeedUser(profile, clock)]
      ensures Valid()
    {
      this.profile := profile;
      users := map[profile.id := SeedUser(profile, clock)];
    }

    /** `usernameExists`: an early-exit scan of the map. */
    method UsernameExists(username: string, exclude: Option<Uuid>) returns (found: bool)
      ensures found == UsernameTaken(users, username, exclude)
    {
      var keys := users.Keys;
      while keys != {}
        invariant keys <= users.Keys
        invariant forall id :: id in users && id !in keys && Some(id) != exclude ==>
          !EqualFold(users[id].username, username)
        decreases |keys|
      {
        var id :| id in keys;
        keys := keys - {id};
        if Some(id) == exclude {
          continue;
        }
        if EqualFold(users[id].username, username) {
          return true;
        }
      }
      return false;
    }

    /** `emailExists`: the same scan over e-mails. */
    method EmailExists(email: string, exclude: Option<Uuid>) returns (found: bool)
      ensures found == EmailTaken(users, email, exclude)
    {
      var keys := users.Keys;
      while keys != {}
        invariant keys <= users.Keys
        invariant forall id :: id in users && id !in keys && Some(id) != exclude ==>
          !EqualFold(users[id].email, email)
        decreases |keys|
      {
        var id :| id in keys;
        keys := keys - {id};
        if Some(id) == exclude {
          continue;
        }
        if EqualFold(users[id].email, email) {
          return true;
        }
      }
      return false;
    }

    /** `CreateUser`: username checked first, then e-mail, against every
      stored user; on success one fresh entry is added. */
    method CreateUser(req: AdminUserCreateRequest, id: Uuid, now: Time) returns (r: Result<AdminUser, AdminError>)
      requires Valid()
      requires id !in users
      modifies this
      ensures Valid()
      ensures UsernameTaken(old(users), req.username, None) ==>
        r == Err(DuplicateUsername) && users == old(users)
      ensures !UsernameTaken(old(users), req.username, None) && EmailTaken(old(users), req.email, None) ==>
        r == Err(DuplicateEmail) && users == old(users)
      ensures !UsernameTaken(old(users), req.username, None) && !EmailTaken(old(users), req.email, None) ==>
        && r == Ok(NewUser(req, id, now))
        && r.value.createdAt == r.value.updatedAt == now
        && users == old(users)[id := r.value]
    {
      var taken := UsernameExists(req.username, None);
      if taken {
        return Err(DuplicateUsername);
      }
      taken := EmailExists(req.email, None);
      if taken {
        return Err(DuplicateEmail);
      }
      var user := NewUser(req, id, now);
      CreateKeepsInvariant(users, req, id, now);
      users := users[id := user];
      r := Ok(user);
    }

    /** `UpdateUser`: missing id, then username clash, then e-mail clash;
      otherwise the present fields are copied onto the stored user one by
      one and the update time is set. */
    method UpdateUser(id: Uuid, req: AdminUserUpdateRequest, now: Time) returns (r: Result<AdminUser, AdminError>)
      requires Valid()
      modifies this
      ensures Valid()
      ensures id !in old(users) ==> r == Err(UserNotFound) && users == old(users)
      ensures id in old(users) && UsernameClash(old(users), id, req) ==>
        r == Err(DuplicateUsername) && users == old(users)
      ensures id in old(users) && !UsernameClash(old(users), id, req) && EmailClash(old(users), id, req) ==>
        r == Err(DuplicateEmail) && users == old(users)
      ensures id in old(users) && !UsernameClash(old(users), id, req) && !EmailClash(old(users), id, req) ==>
        && r == Ok(MergeUser(old(users)[id], req, now))
        && users == old(users)[id := r.value]
    {
      if id !in users {
        return Err(UserNotFound);
      }
      var user := users[id];
      if req.username.Some? && req.username.value != user.username {
        var taken := UsernameExists(req.username.value, Some(id));
        if taken {
          return Err(DuplicateUsername);
        }
      }
      if req.email.Some? && req.email.value != user.email {
        var taken := EmailExists(req.email.value, Some(id));
        if taken {
          return Err(DuplicateEmail);
        }
      }
      user := CopyPresentFields(user, req, now);
      UpdateKeepsInvariant(users, id, req, now);
      users := users[id := user];
      r := Ok(user);
    }

    /** `DeleteUser`: a missing id is an error; otherwise only that key goes. */
    method DeleteUser(id: Uuid) returns (err: Option<AdminError>)
      requires Valid()
      modifies this
      ensures Valid()
      ensures id !in old(users) ==> err == Some(UserNotFound) && users == old(users)
      ensures id in old(users) ==> err == None && users == old(users) - {id}
    {
      if id !in users {
        return Some(UserNotFound);
      }
      SubmapKeepsInvariant(users, {id});
      users := users - {id};
      err := None;
    }

    /** `BulkStatus`: every listed id that exists gets the new status; the
      count is the number of list positions whose id exists. */
    method BulkStatus(req: AdminBulkStatusRequest, now: Time) returns (updated: nat)
      requires Valid()
      modifies this
      ensures Valid()
      ensures users.Keys == old(users).Keys
      ensures forall k :: k in users ==>
        users[k] == (if k in req.userIds then WithStatus(old(users)[k], req.status, now) else old(users)[k])
      ensures updated == CountPresent(req.userIds, old(users).Keys)
    {
      updated := 0;
      var ids := req.userIds;
      for i := 0 to |ids|
        invariant users == StatusApplied(old(users), ids[..i], req.status, now)
        invariant updated == CountPresent(ids[..i], old(users).Keys)
      {
        assert ids[..i + 1] == ids[..i] + [ids[i]];
        assert ids[..i + 1][..i] == ids[..i];
        StatusStep(old(users), ids[..i], ids[i], req.status, now);
        if ids[i] in users {
          var user := users[ids[i]];
          user := user.(status := req.status);
          user := user.(updatedAt := now);
          users := users[ids[i] := user];
          updated := updated + 1;
        }
      }
      assert ids[..|ids|] == ids;
      SameIdentities(old(users), users);
    }

    /** `BulkDelete`: every listed id is gone afterwards; the count is the
      number of distinct listed ids that were present. */
    method BulkDelete(req: AdminBulkDeleteRequest) returns (deleted: nat)
      requires Valid()
      modifies this
      ensures Valid()
      ensures users == old(users) - Elems(req.userIds)
      ensures deleted == |old(users).Keys * Elems(req.userIds)|
    {
      deleted := 0;
      var ids := req.userIds;
      for i := 0 to |ids|
        invariant users == old(users) - Elems(ids[..i])
        invariant deleted == CountFirstPresent(ids[..i], old(users).Keys)
      {
        var id := ids[i];
        assert ids[..i + 1] == ids[..i] + [id];
        assert ids[..i + 1][..i] == ids[..i];
        DeleteStep(old(users), ids[..i], id);
        if id in users {
          users := users - {id};
          deleted := deleted + 1;
        }
      }
      assert ids[..|ids|] == ids;
      CountFirstPresentIsOverlap(ids, old(users).Keys);
      SubmapKeepsInvariant(old(users), Elems(ids));
    }

    /** The scan at the head of `ListUsers`: every stored user that passes
      the status, role and username conditions, in map order. */
    method MatchingUsers(filter: AdminUserFilter) returns (filtered: seq<AdminUser>)
      requires Valid()
      ensures Selection(users, filter, filtered)
    {
      filtered := [];
      var keys := users.Keys;
      ghost var matched: set<Uuid> := {};
      while keys != {}
        invariant keys <= users.Keys
        invariant forall id :: id in matched ==> id in users && id !in keys
        invariant forall id :: id in users && id !in keys ==> (id in matched <==> Matches(users[id], filter))
        invariant |filtered| == |matched|
        invariant forall id :: id in matched ==> users[id] in filtered
        invariant forall j :: 0 <= j < |filtered| ==>
          filtered[j].id in matched && users[filtered[j].id] == filtered[j]
        decreases |keys|
      {
        var id :| id in keys;
        var user := users[id];
        keys := keys - {id};
        if Matches(user, filter) {
          assert id !in matched && |matched + {id}| == |matched| + 1;
          matched := matched + {id};
          filtered := filtered + [user];
        }
      }
      assert matched == MatchingIds(users, filter);
    }

    /** `ListUsers`: the matching users, newest first (`ordered`), and the
      requested page of them; nothing changes. */
    method ListUsers(filter: AdminUserFilter) returns (list: AdminUserList, ghost ordered: seq<AdminUser>)
      requires Valid()
      ensures Selection(users, filter, ordered)
      ensures SortedDesc(ordered)
      ensures list.meta == AdminUsersMeta(NormalizePage(filter.page), NormalizePageSize(filter.pageSize), |ordered|)
      ensures list.items == ordered[PageBounds(list.meta.page, list.meta.pageSize, |ordered|).0
                                    .. PageBounds(list.meta.page, list.meta.pageSize, |ordered|).1]
    {
      var page := filter.page;
      if page <= 0 {
        page := DefaultPage;
      }
      var pageSize := filter.pageSize;
      if pageSize <= 0 {
        pageSize := DefaultPageSize;
      }

      var filtered := MatchingUsers(filter);
      var sorted := SortDesc(filtered);
      PermutationKeepsSelection(users, filter, filtered, sorted);
      ordered := sorted;

      var total := |sorted|;
      var (start, end) := PageBounds(page, pageSize, total);
      list := AdminUserList(sorted[start..end], AdminUsersMeta(page, pageSize, total));
    }
  }
}
