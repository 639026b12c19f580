/**
 * Callers, roles and the authorization decisions: the role policies that guard
 * controller actions and the resource handler that compares the caller with a user.
 */
module Authorization {
  import opened Wrappers
  import opened Models

  // The roles seeded at startup.
  const BuyerRole: string := "buyer"
  const SellerRole: string := "seller"
  const AdminRole: string := "admin"

  /** The capitalised role name the user controller tests for; no seeded role is spelt this way. */
  const UserControllerAdminRole: string := "Admin"

  // The named role policies.
  const AdminOrSellerPolicy: set<string> := {AdminRole, SellerRole}
  const AdminOrSellerOrBuyerPolicy: set<string> := {AdminRole, SellerRole, BuyerRole}

  /**
   * The authenticated caller as the bearer token describes it: whether a
   * token was accepted, the NameIdentifier claim (absent when the token has
   * none) and the role claims. The type admits an unauthenticated caller
   * that holds roles or a NameIdentifier, which the framework never produces
   * (an anonymous ClaimsPrincipal has no claims). The model does not rule it
   * out, and EvaluatePolicy would let such a value through on its roles.
   */
  datatype Principal = Principal(authenticated: bool, nameIdentifier: Option<string>, roles: set<string>)

  /**
   * The model's definition of the framework call ClaimsPrincipal.IsInRole: an
   * exact, case-sensitive match on a role claim.
   */
  predicate IsInRole(p: Principal, role: string)
  {
    role in p.roles
  }

  /** What the authorization middleware does with a role policy. */
  datatype PolicyDecision = Allow | DenyChallenge | DenyForbid

  /**
   * RequireRole(roles): the caller passes when it holds any one of the roles;
   * otherwise it is challenged when unauthenticated and forbidden when authenticated.
   */
  function EvaluatePolicy(policy: set<string>, p: Principal): (d: PolicyDecision)
    ensures d.Allow? <==> exists role :: role in policy && IsInRole(p, role)
    ensures d.DenyChallenge? <==> !d.Allow? && !p.authenticated
    ensures d.DenyForbid? <==> !d.Allow? && p.authenticated
  {
    assert forall role :: role in policy && IsInRole(p, role) <==> role in policy * p.roles;
    if policy * p.roles != {} then Allow
    else if p.authenticated then DenyForbid
    else DenyChallenge
  }

  /** What the resource handler does: succeed, abstain (neither succeed nor fail), or throw. */
  datatype HandlerOutcome = Succeed | Abstain | Throws

  /**
   * CustomAuthorizationHandler.HandleRequirementAsync. An admin succeeds; a buyer
   * or a seller succeeds when its NameIdentifier equals the user's id. The
   * claim is dereferenced without a null check, so a buyer or seller who is
   * not an admin and has no NameIdentifier throws. The handler never calls Fail.
   */
  function HandleRequirement(p: Principal, resource: User): (r: HandlerOutcome)
    ensures IsInRole(p, AdminRole) ==> r == Succeed
    ensures IsInRole(p, BuyerRole) && p.nameIdentifier == Some(resource.id) ==> r == Succeed
    ensures IsInRole(p, SellerRole) && p.nameIdentifier == Some(resource.id) ==> r == Succeed
    ensures !IsInRole(p, AdminRole) && p.nameIdentifier.Some? && p.nameIdentifier != Some(resource.id)
            ==> r == Abstain
    ensures !IsInRole(p, AdminRole) && !IsInRole(p, BuyerRole) && !IsInRole(p, SellerRole) ==> r == Abstain
    ensures r == Throws <==> !IsInRole(p, AdminRole) && (IsInRole(p, BuyerRole) || IsInRole(p, SellerRole))
                             && p.nameIdentifier.None?
  {
    if IsInRole(p, AdminRole) then Succeed
    else if IsInRole(p, BuyerRole) && NameIdentifierEquals(p, resource.id) != Some(false) then
      if NameIdentifierEquals(p, resource.id) == Some(true) then Succeed else Throws
    else if IsInRole(p, SellerRole) && NameIdentifierEquals(p, resource.id) != Some(false) then
      if NameIdentifierEquals(p, resource.id) == Some(true) then Succeed else Throws
    else Abstain
  }

  /** FindFirst(NameIdentifier).Value == id: None stands for the null dereference. */
  function NameIdentifierEquals(p: Principal, id: string): (r: Option<bool>)
    ensures r.None? <==> p.nameIdentifier.None?
    ensures r == Some(true) <==> p.nameIdentifier == Some(id)
  {
    match p.nameIdentifier
    case None => None
    case Some(v) => Some(v == id)
  }

  /**
   * The owner-or-admin test of the store controller: the store's user id
   * equals the caller's, or the caller is "admin". Null equals null, so a
   * caller without a NameIdentifier may manage a store that has no owner.
   */
  predicate MayManageStore(p: Principal, store: Store): (b: bool)
    ensures IsInRole(p, AdminRole) ==> b
    ensures p.nameIdentifier.Some? && store.userId == p.nameIdentifier ==> b
    ensures p.nameIdentifier.None? && store.userId.None? ==> b
    ensures b && !IsInRole(p, AdminRole) ==> store.userId == p.nameIdentifier
  {
    store.userId == p.nameIdentifier || IsInRole(p, AdminRole)
  }

  /** The self-or-admin test of the user controller: a NameIdentifier is present, and the caller is "Admin" or that user. */
  predicate MayManageUser(p: Principal, id: string): (b: bool)
    ensures b ==> p.nameIdentifier.Some?
    ensures p.nameIdentifier == Some(id) ==> b
    ensures p.nameIdentifier.Some? && IsInRole(p, UserControllerAdminRole) ==> b
    ensures b && !IsInRole(p, UserControllerAdminRole) ==> p.nameIdentifier == Some(id)
  {
    p.nameIdentifier.Some? && (IsInRole(p, UserControllerAdminRole) || p.nameIdentifier == Some(id))
  }
}
