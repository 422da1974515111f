/**
 * The request pipeline of `Program.cs` as far as access is concerned:
 * authentication runs before authorization, and the two named policies
 * admit fixed sets of roles.
 */
module Policies {
  import opened Wrappers
  import opened Tenancy
  import Roles
  import Text

  /** `ClaimTypes.Role`, the claim type role checks read. */
  const RoleClaim := "http://schemas.microsoft.com/ws/2008/06/identity/claims/role"

  datatype Policy = CanCreatePatient | CanViewPatient

  /** The authorization policy table. */
  function PolicyRoles(p: Policy): set<Roles.Role> {
    match p
    case CanCreatePatient => {Roles.Admin, Roles.User}
    case CanViewPatient => {Roles.Admin, Roles.User, Roles.Viewer}
  }

  /** What an endpoint declares: nothing, `[Authorize]`, `[Authorize(Policy = …)]` or `[Authorize(Roles = …)]`. */
  datatype Requirement =
    | Anonymous
    | Authenticated
    | RequirePolicy(policy: Policy)
    | RequireRoles(roles: set<Roles.Role>)

  /** `ClaimsPrincipal.IsInRole(role)`: some role claim carries exactly that name. */
  predicate IsInRole(user: Principal, role: string) {
    exists c | c in user.claims :: SameClaimType(c.claimType, RoleClaim) && c.value == role
  }

  predicate InAnyRole(user: Principal, roles: set<Roles.Role>) {
    exists r | r in roles :: IsInRole(user, Roles.Name(r))
  }

  /** Whether an authenticated user meets the requirement. */
  predicate Meets(user: Principal, req: Requirement) {
    match req
    case Anonymous => true
    case Authenticated => true
    case RequirePolicy(p) => InAnyRole(user, PolicyRoles(p))
    case RequireRoles(roles) => InAnyRole(user, roles)
  }

  /**
   * A bearer token as the authentication handler sees it: whether its
   * signature, issuer, audience and lifetime check out, and the claims it
   * carries once mapped to a principal.
   */
  datatype Token = Token(valid: bool, claims: Principal)

  datatype Admission =
    | Admitted(user: Option<Principal>)
    | Challenged   // 401
    | Forbidden    // 403

  /** `UseAuthentication()` followed by `UseAuthorization()`. */
  function Admit(token: Option<Token>, req: Requirement): (a: Admission)
    ensures a.Admitted? && req != Anonymous ==> a.user.Some?
  {
    var user := if token.Some? && token.value.valid then Some(token.value.claims) else None;
    if req.Anonymous? then Admitted(user)
    else if user.None? then Challenged
    else if !Meets(user.value, req) then Forbidden
    else Admitted(user)
  }

  /** A missing or invalid token is answered 401 and never 403, whatever the endpoint requires. */
  lemma UnauthenticatedIsNeverForbidden(token: Option<Token>, req: Requirement)
    requires token.None? || !token.value.valid
    ensures Admit(token, req) != Forbidden
    ensures req != Anonymous ==> Admit(token, req) == Challenged
  {
  }

  /** The create policy admits exactly the users in role Admin or User. */
  lemma CreatePolicyRoles(user: Principal)
    ensures Meets(user, RequirePolicy(CanCreatePatient)) <==> IsInRole(user, "Admin") || IsInRole(user, "User")
  {
    if IsInRole(user, "Admin") {
      assert Roles.Name(Roles.Admin) == "Admin";
    } else if IsInRole(user, "User") {
      assert Roles.Name(Roles.User) == "User";
    }
  }

  /** The view policy admits exactly the users in role Admin, User or Viewer. */
  lemma ViewPolicyRoles(user: Principal)
    ensures Meets(user, RequirePolicy(CanViewPatient))
        <==> IsInRole(user, "Admin") || IsInRole(user, "User") || IsInRole(user, "Viewer")
  {
    if IsInRole(user, "Admin") {
      assert Roles.Name(Roles.Admin) == "Admin";
    } else if IsInRole(user, "User") {
      assert Roles.Name(Roles.User) == "User";
    } else if IsInRole(user, "Viewer") {
      assert Roles.Name(Roles.Viewer) == "Viewer";
    }
  }

  /** Whoever may create a patient may also list them. */
  lemma CreateImpliesView(token: Option<Token>)
    ensures Admit(token, RequirePolicy(CanCreatePatient)).Admitted? ==> Admit(token, RequirePolicy(CanViewPatient)).Admitted?
  {
  }

  /** A valid token whose only role claim is Viewer is refused creation with 403 and admitted to the list. */
  lemma ViewerMayListButNotCreate(before: seq<Claim>, after: seq<Claim>)
    requires forall c | c in before + after :: !SameClaimType(c.claimType, RoleClaim)
    ensures var token := Some(Token(true, Principal(before + [Claim(RoleClaim, "Viewer")] + after)));
      && Admit(token, RequirePolicy(CanCreatePatient)) == Forbidden
      && Admit(token, RequirePolicy(CanViewPatient)).Admitted?
  {
    var user := Principal(before + [Claim(RoleClaim, "Viewer")] + after);
    assert Claim(RoleClaim, "Viewer") in user.claims;
    assert IsInRole(user, Roles.Name(Roles.Viewer));
    forall c | c in user.claims && SameClaimType(c.claimType, RoleClaim) ensures c.value == "Viewer" {
      assert c in before + after || c == Claim(RoleClaim, "Viewer");
    }
    assert !IsInRole(user, "Admin") && !IsInRole(user, "User");
    CreatePolicyRoles(user);
  }

  /** A valid token carrying exactly one role admits to the list, and to creation exactly for Admin and User. */
  lemma SingleRoleGrants(user: Principal, role: Roles.Role)
    requires Claim(RoleClaim, Roles.Name(role)) in user.claims
    requires forall c | c in user.claims && SameClaimType(c.claimType, RoleClaim) :: c == Claim(RoleClaim, Roles.Name(role))
    ensures var token := Some(Token(true, user));
      && Admit(token, RequirePolicy(CanViewPatient)).Admitted?
      && (role in {Roles.Admin, Roles.User} <==> Admit(token, RequirePolicy(CanCreatePatient)).Admitted?)
  {
    assert Text.ToUpper(RoleClaim) == Text.ToUpper(RoleClaim);
    assert IsInRole(user, Roles.Name(role));
    assert role in PolicyRoles(CanViewPatient);
    forall x: Roles.Role | IsInRole(user, Roles.Name(x)) ensures x == role {
      var c :| c in user.claims && SameClaimType(c.claimType, RoleClaim) && c.value == Roles.Name(x);
    }
  }
}
