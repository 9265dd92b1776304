/** Authentication and role gating (src/lib/rbac.ts). The session lookup is
    I/O, so the session it would return is a parameter here; a thrown
    `Error("Unauthorized")` / `Error("Forbidden")` and the 401/403 replies are
    both `Err(Unauthorized)` / `Err(Forbidden)`. */
module Rbac {
  import opened Model

  /** `session?.user`. */
  function CurrentUser(session: Option<Session>): Option<User>
  {
    if session.Some? then session.value.user else None
  }

  /** The staff roles the handlers test with `["ADMIN", "LIBRARIAN"].includes(role)`. */
  const StaffRoles: seq<Role> := [Admin, Librarian]

  predicate IsStaff(role: Role)
  {
    role in StaffRoles
  }

  /** The message of the `Error` that `requireAuth`/`requireRole` throw. */
  function ThrownMessage(e: ApiError): string
  {
    match e
    case Unauthorized => "Unauthorized"
    case Forbidden => "Forbidden"
    case BadRequest(m) => m
  }

  /** `requireAuth`: the session when a user is signed in, otherwise it throws. */
  function RequireAuth(session: Option<Session>): (r: Result<Session>)
    ensures r.Ok? <==> CurrentUser(session).Some?
    ensures r.Ok? ==> session == Some(r.value)
    ensures r.Err? ==> r.error == Unauthorized
  {
    if CurrentUser(session).None? then Err(Unauthorized) else Ok(session.value)
  }

  /** `requireRole(...roles)`: authentication first, then role membership. */
  function RequireRole(session: Option<Session>, roles: seq<Role>): (r: Result<Session>)
    ensures CurrentUser(session).None? ==> r == Err(Unauthorized)
    ensures CurrentUser(session).Some? && CurrentUser(session).value.role !in roles ==> r == Err(Forbidden)
    ensures CurrentUser(session).Some? && CurrentUser(session).value.role in roles ==> r == Ok(session.value)
  {
    match RequireAuth(session)
    case Err(e) => Err(e)
    case Ok(s) => if s.user.value.role in roles then Ok(s) else Err(Forbidden)
  }

  /** `withAuth(handler, ...roles)` applied to a request: the handler runs, on
      the session obtained, only when a user is signed in and either no roles
      are listed or the user's role is one of them. */
  function WithAuth<R>(handler: Session -> R, roles: seq<Role>, session: Option<Session>): (r: Result<R>)
    ensures CurrentUser(session).None? ==> r == Err(Unauthorized)
    ensures CurrentUser(session).Some? && |roles| > 0 && CurrentUser(session).value.role !in roles ==>
              r == Err(Forbidden)
    ensures CurrentUser(session).Some? && (|roles| == 0 || CurrentUser(session).value.role in roles) ==>
              r == Ok(handler(session.value))
  {
    if CurrentUser(session).None? then Err(Unauthorized)
    else if |roles| > 0 && CurrentUser(session).value.role !in roles then Err(Forbidden)
    else Ok(handler(session.value))
  }

  /** The gate written out at the top of the staff-only handlers:
      `if (!session?.user) return unauthorized(); if (!staff) return forbidden();` */
  function StaffGate(session: Option<Session>): (r: Result<User>)
    ensures r.Ok? ==> CurrentUser(session) == Some(r.value) && IsStaff(r.value.role)
  {
    if CurrentUser(session).None? then Err(Unauthorized)
    else if !IsStaff(CurrentUser(session).value.role) then Err(Forbidden)
    else Ok(CurrentUser(session).value)
  }

  /** `requireRole` never answers "Forbidden" to a caller who is not signed in. */
  lemma RequireRoleAuthenticatesFirst(session: Option<Session>, roles: seq<Role>)
    requires CurrentUser(session).None?
    ensures RequireRole(session, roles).Err? && RequireRole(session, roles).error == Unauthorized
    ensures ThrownMessage(RequireRole(session, roles).error) == "Unauthorized"
  {
  }

  /** With no roles listed, `withAuth` admits every signed-in user whereas
      `requireRole` admits nobody: an empty role list means "any role" only
      for `withAuth`. */
  lemma EmptyRoleListsDiffer<R>(handler: Session -> R, session: Option<Session>)
    requires CurrentUser(session).Some?
    ensures WithAuth(handler, [], session) == Ok(handler(session.value))
    ensures RequireRole(session, []) == Err(Forbidden)
  {
  }

  /** With a non-empty role list, `withAuth` runs the handler exactly when
      `requireRole` succeeds, and fails with the same error otherwise. */
  lemma WithAuthAgreesWithRequireRole<R>(handler: Session -> R, roles: seq<Role>, session: Option<Session>)
    requires |roles| > 0
    ensures RequireRole(session, roles).Ok? ==> WithAuth(handler, roles, session) == Ok(handler(RequireRole(session, roles).value))
    ensures RequireRole(session, roles).Err? ==> WithAuth(handler, roles, session) == Err(RequireRole(session, roles).error)
  {
  }

  /** The handlers' inline staff gate is `requireRole("ADMIN", "LIBRARIAN")`. */
  lemma StaffGateIsRequireRole(session: Option<Session>)
    ensures StaffGate(session).Err? <==> RequireRole(session, StaffRoles).Err?
    ensures StaffGate(session).Err? ==> StaffGate(session).error == RequireRole(session, StaffRoles).error
    ensures StaffGate(session).Ok? ==> RequireRole(session, StaffRoles).value.user == Some(StaffGate(session).value)
  {
  }

  /** Exactly the librarian and admin roles are staff. */
  lemma StaffRolesAre(role: Role)
    ensures IsStaff(role) <==> role != Member
  {
  }
}
