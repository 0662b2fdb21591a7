/** The bearer-token gate in front of the user and admin routes
    (internal/controller/http/middleware/auth.go). Token verification
    belongs to the JWT service, which is a parameter here: a function from
    the token text to the claims it carries, or nothing when it is
    rejected. */
module AuthMiddleware {
  import opened Wrappers
  import opened GoStrings
  import opened Entity

  /** The claims a verified token carries. */
  datatype Claims = Claims(userId: string, role: UserRole, exam: ExamCategory)

  /** What the middleware does with a request: answer it with an error, or
      record the caller and hand the request on. */
  datatype Decision = Reject(code: int, message: string) | Continue(userId: string, role: UserRole)

  const StatusUnauthorized: int := 401
  const StatusForbidden: int := 403

  /** `headerToken`: an empty header is refused; otherwise it must split
      into exactly two whitespace-separated fields, the first "bearer" in
      any letter case, and the token is the second. */
  function HeaderToken(header: string): (r: Option<string>)
    ensures r.Some? <==> |Fields(header)| == 2 && EqualFold(Fields(header)[0], "bearer")
    ensures r.Some? ==> r.value == Fields(header)[1] && r.value != [] && NoSpace(r.value)
  {
    if header == "" then None
    else
      var parts := Fields(header);
      if |parts| != 2 || ToLower(parts[0]) != "bearer" then None
      else Some(parts[1])
  }

  /** A header written as a scheme, one space and a token reads back the
      token exactly when the scheme is "bearer" in some letter case. */
  lemma HeaderTokenRoundTrip(scheme: string, token: string)
    requires scheme != [] && NoSpace(scheme) && token != [] && NoSpace(token)
    ensures HeaderToken(scheme + " " + token) == (if EqualFold(scheme, "bearer") then Some(token) else None)
  {
    var ws := [scheme, token];
    assert Join(ws[1..], " ") == token;
    assert Join(ws, " ") == scheme + " " + token;
    FieldsOfJoin(ws);
  }

  /** The admin gate admits exactly the two administrator roles. */
  predicate AdminRole(role: UserRole) {
    role == UserRoleAdmin || role == UserRoleSuperAdmin
  }

  /** `authMiddleware`: header first, then the token, then (for admin
      routes) the role. */
  function Authorize(header: string, parse: string -> Option<Claims>, requireAdmin: bool): (d: Decision)
    ensures HeaderToken(header).None? ==> d == Reject(StatusUnauthorized, "missing or invalid token")
    ensures HeaderToken(header).Some? && parse(HeaderToken(header).value).None? ==>
      d == Reject(StatusUnauthorized, "invalid token")
    ensures d.Continue? <==>
      HeaderToken(header).Some? && parse(HeaderToken(header).value).Some?
      && (requireAdmin ==> AdminRole(parse(HeaderToken(header).value).value.role))
    ensures d.Continue? ==>
      var c := parse(HeaderToken(header).value).value; d == Continue(c.userId, c.role)
  {
    match HeaderToken(header)
    case None => Reject(StatusUnauthorized, "missing or invalid token")
    case Some(token) =>
      match parse(token)
      case None => Reject(StatusUnauthorized, "invalid token")
      case Some(claims) =>
        if requireAdmin && claims.role != UserRoleAdmin && claims.role != UserRoleSuperAdmin then
          Reject(StatusForbidden, "insufficient role")
        else
          Continue(claims.userId, claims.role)
  }

  /** `UserAuth` and `AdminAuth`. */
  function UserAuth(header: string, parse: string -> Option<Claims>): Decision {
    Authorize(header, parse, false)
  }

  function AdminAuth(header: string, parse: string -> Option<Claims>): Decision {
    Authorize(header, parse, true)
  }

  /** A bad header is refused before the token service is consulted: the
      answer is the same whatever that service would say. */
  lemma BadHeaderSkipsParse(header: string, parse1: string -> Option<Claims>, parse2: string -> Option<Claims>, requireAdmin: bool)
    requires HeaderToken(header).None?
    ensures Authorize(header, parse1, requireAdmin) == Authorize(header, parse2, requireAdmin)
  {
  }

  /** User routes never answer 403; admin routes answer 403 exactly for a
      verified caller of another role, and otherwise agree with user
      routes. */
  lemma RoleGate(header: string, parse: string -> Option<Claims>)
    ensures UserAuth(header, parse).Reject? ==> UserAuth(header, parse).code == StatusUnauthorized
    ensures AdminAuth(header, parse) == Reject(StatusForbidden, "insufficient role") <==>
      UserAuth(header, parse).Continue? && !AdminRole(UserAuth(header, parse).role)
    ensures AdminAuth(header, parse).Reject? && AdminAuth(header, parse).code != StatusForbidden ==>
      AdminAuth(header, parse) == UserAuth(header, parse)
    ensures AdminAuth(header, parse).Continue? ==> AdminAuth(header, parse) == UserAuth(header, parse)
  {
  }
}
