/** src/auth/roles.guard.ts: the decision of RolesGuard.canActivate.
    The roles declared with @Roles on the handler and on the controller class
    are inputs; UserService.getRoleByUserId, whose body is not part of this
    model, is the function parameter `roleOf`. */
module RolesGuard {
  import opened Common

  datatype Role = Admin | Customer

  /** The guard either lets the request through or throws a
      ForbiddenException (status 403) with a message; it never returns false.
      `roleLookedUp` records whether the role lookup was made. */
  datatype Decision = Allow(roleLookedUp: bool) | Deny(statusCode: int, message: string)

  /** Reflector.getAllAndOverride over [handler, class]: the first target
      that declares roles wins. */
  function RequiredRoles(handler: Option<seq<Role>>, cls: Option<seq<Role>>): Option<seq<Role>> {
    if handler.Some? then handler else cls
  }

  /** `req.user?.id` is truthy: a user object with a non-empty id. */
  predicate HasIdentity(callerId: Option<string>) {
    callerId.Some? && callerId.value != ""
  }

  function CanActivate(handler: Option<seq<Role>>, cls: Option<seq<Role>>, callerId: Option<string>,
                       roleOf: string -> Option<Role>): (d: Decision)
    // nothing declared (or an empty list): allowed, and no role is looked up
    ensures (RequiredRoles(handler, cls).None? || RequiredRoles(handler, cls).value == []) ==> d == Allow(false)
    // roles declared but no authenticated caller: refused before any lookup
    ensures RequiredRoles(handler, cls).Some? && RequiredRoles(handler, cls).value != [] && !HasIdentity(callerId)
            ==> d == Deny(FORBIDDEN, "Unauthorized")
    // otherwise allowed exactly when the looked-up role is one of the required ones
    ensures RequiredRoles(handler, cls).Some? && RequiredRoles(handler, cls).value != [] && HasIdentity(callerId)
            ==> (d.Allow? <==> roleOf(callerId.value).Some? && roleOf(callerId.value).value in RequiredRoles(handler, cls).value)
    ensures d.Allow? && d.roleLookedUp ==> HasIdentity(callerId)
    ensures d.Deny? ==> d.statusCode == FORBIDDEN && (d.message == "Unauthorized" || d.message == "Insufficient role")
  {
    var required := RequiredRoles(handler, cls);
    if required.None? || |required.value| == 0 then Allow(false)
    else if !HasIdentity(callerId) then Deny(FORBIDDEN, "Unauthorized")
    else
      var userRole := roleOf(callerId.value);
      if userRole.Some? && userRole.value in required.value then Allow(true)
      else Deny(FORBIDDEN, "Insufficient role")
  }

  /** Roles declared on the handler decide alone: whatever the class declares is ignored. */
  lemma HandlerRolesOverrideClass(hs: seq<Role>, cls1: Option<seq<Role>>, cls2: Option<seq<Role>>,
                                   callerId: Option<string>, roleOf: string -> Option<Role>)
    ensures CanActivate(Some(hs), cls1, callerId, roleOf) == CanActivate(Some(hs), cls2, callerId, roleOf)
  {
  }

  /** Without handler roles the class-level roles are the requirement. */
  lemma ClassRolesApplyWithoutHandlerRoles(cls: Option<seq<Role>>, callerId: Option<string>, roleOf: string -> Option<Role>)
    ensures CanActivate(None, cls, callerId, roleOf) == CanActivate(cls, None, callerId, roleOf)
  {
  }

  /** A CUSTOMER calling an ADMIN-only endpoint is refused with 'Insufficient role'. */
  lemma CustomerRefusedOnAdminEndpoint(cls: Option<seq<Role>>, id: string, roleOf: string -> Option<Role>)
    requires id != "" && roleOf(id) == Some(Customer)
    ensures CanActivate(Some([Admin]), cls, Some(id), roleOf) == Deny(FORBIDDEN, "Insufficient role")
  {
  }
}
