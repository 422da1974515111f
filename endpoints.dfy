/**
 * What one HTTP request to an endpoint does: the pipeline of `Program.cs`
 * authenticates the bearer token and checks the endpoint's `[Authorize]`
 * requirement (401 or 403), `[ApiController]` then rejects a request body
 * that fails its data annotations (400), and only then does the action run,
 * with the caller's tenant read from the token's TenantId claim.
 */
module Endpoints {
  import opened Wrappers
  import opened Guids
  import opened Http
  import opened Entities
  import opened Schema
  import opened Tenancy
  import opened Policies
  import opened Dtos
  import opened Patients
  import opened Accounts
  import Branches
  import Roles

  /** `[Authorize(Roles = "Admin")]` of the user administration endpoints. */
  const AdminOnly := RequireRoles({Roles.Admin})

  /** `[Authorize(Roles = "Admin")]` admits exactly a valid token that carries the Admin role claim. */
  lemma AdminAdmission(token: Option<Token>)
    ensures Admit(token, AdminOnly).Admitted?
      <==> token.Some? && token.value.valid && IsInRole(token.value.claims, "Admin")
  {
    assert Roles.Name(Roles.Admin) == "Admin";
  }

  // ----- PatientsController: [Authorize] and a policy per action -----

  /** POST /patients. */
  function PostPatient(db: Db, cache: Cache, token: Option<Token>, r: CreatePatientRequest, id: Guid, now: nat)
    : (o: Outcome<PatientResponse>)
    ensures o.response.Created? ==> token.Some? && token.value.valid && ValidCreatePatient(r)
    ensures o.response.Created? ==> IsInRole(token.value.claims, "Admin") || IsInRole(token.value.claims, "User")
    ensures !o.response.Created? ==> o.db == db && o.cache == cache
  {
    var a := Admit(token, RequirePolicy(CanCreatePatient));
    if a.Challenged? then Outcome(Challenge, db, cache)
    else if a.Forbidden? then Outcome(Forbid, db, cache)
    else if !ValidCreatePatient(r) then Outcome(ValidationProblem, db, cache)
    else Create(db, cache, ContextTenantId(Some(HttpContext(a.user.value))), r, id, now)
  }

  /** GET /patients?branchId=… */
  function GetPatients(db: Db, cache: Cache, token: Option<Token>, branchId: Option<Guid>)
    : (o: Outcome<seq<PatientResponse>>)
    ensures o.db == db
    ensures o.response.Ok? ==> token.Some? && token.value.valid
  {
    var a := Admit(token, RequirePolicy(CanViewPatient));
    if a.Challenged? then Outcome(Challenge, db, cache)
    else if a.Forbidden? then Outcome(Forbid, db, cache)
    else List(db, cache, ContextTenantId(Some(HttpContext(a.user.value))), branchId)
  }

  // ----- BranchesController: [Authorize] -----

  /** GET /branches. */
  function GetBranches(db: Db, token: Option<Token>): (r: Response<seq<BranchInfo>>)
    ensures r.Ok? ==> token.Some? && token.value.valid
  {
    var a := Admit(token, Authenticated);
    if a.Challenged? then Challenge
    else if a.Forbidden? then Forbid
    else Branches.ListBranches(db, ClaimTenantId(a.user.value))
  }

  // ----- AuthController: anonymous endpoints -----

  /** POST /auth/register. */
  function PostRegister(db: Db, r: RegisterRequest, digest: string, now: nat, newId: nat -> Guid): (s: Step<UserResponse>)
    ensures s.response.Created? ==> ValidRegister(r)
    ensures !s.response.Created? ==> s.db == db
  {
    if !ValidRegister(r) then Step(ValidationProblem, db)
    else Register(db, r, digest, now, newId)
  }

  /** POST /auth/login. */
  function PostLogin(db: Db, r: LoginRequest, verify: (string, string) -> bool, jti: Guid): (resp: Response<LoginResponse>)
    ensures resp.Ok? ==> ValidLogin(r)
  {
    if !ValidLogin(r) then ValidationProblem
    else Login(db, r, verify, jti)
  }

  // ----- AuthController: administrator endpoints -----

  /** POST /auth/users. */
  function PostUser(db: Db, token: Option<Token>, r: CreateUserRequest, digest: string, now: nat, newId: nat -> Guid)
    : (s: Step<UserResponse>)
    ensures s.response.Created? ==> token.Some? && token.value.valid && IsInRole(token.value.claims, "Admin")
    ensures !s.response.Created? ==> s.db == db
  {
    AdminAdmission(token);
    var a := Admit(token, AdminOnly);
    if a.Challenged? then Step(Challenge, db)
    else if a.Forbidden? then Step(Forbid, db)
    else CreateUser(db, ClaimTenantId(a.user.value), r, digest, now, newId)
  }

  /** PUT /auth/users/{id}/role. */
  function PutRole(db: Db, token: Option<Token>, id: Guid, r: AssignRoleRequest): (s: Step<UserResponse>)
    ensures s.response.Ok? ==> token.Some? && token.value.valid && IsInRole(token.value.claims, "Admin") && ValidAssignRole(r)
    ensures !s.response.Ok? ==> s.db == db
  {
    AdminAdmission(token);
    var a := Admit(token, AdminOnly);
    if a.Challenged? then Step(Challenge, db)
    else if a.Forbidden? then Step(Forbid, db)
    else if !ValidAssignRole(r) then Step(ValidationProblem, db)
    else AssignRole(db, id, r)
  }

  /** POST /auth/users/{id}/branches. */
  function PostBranches(db: Db, token: Option<Token>, id: Guid, r: AddBranchesRequest, newId: nat -> Guid)
    : (s: Step<UserResponse>)
    ensures s.response.Ok? ==> token.Some? && token.value.valid && IsInRole(token.value.claims, "Admin")
    ensures !s.response.Ok? ==> s.db == db
  {
    AdminAdmission(token);
    var a := Admit(token, AdminOnly);
    if a.Challenged? then Step(Challenge, db)
    else if a.Forbidden? then Step(Forbid, db)
    else AddBranches(db, ClaimTenantId(a.user.value), id, r, newId)
  }

  /** PUT /auth/users/{id}/tenant. */
  function PutTenant(db: Db, token: Option<Token>, id: Guid, r: AssignTenantRequest, newId: nat -> Guid)
    : (s: Step<UserResponse>)
    ensures s.response.Ok? ==> token.Some? && token.value.valid && IsInRole(token.value.claims, "Admin")
  {
    AdminAdmission(token);
    var a := Admit(token, AdminOnly);
    if a.Challenged? then Step(Challenge, db)
    else if a.Forbidden? then Step(Forbid, db)
    else AssignTenant(db, id, r, newId)
  }

  // ----- Properties across the pipeline -----

  /** Without a valid token every protected endpoint answers 401, never 403, and changes nothing. */
  lemma NoTokenIsChallenged(db: Db, cache: Cache, token: Option<Token>, branchId: Option<Guid>,
                            pr: CreatePatientRequest, id: Guid, now: nat)
    requires token.None? || !token.value.valid
    ensures PostPatient(db, cache, token, pr, id, now) == Outcome(Challenge, db, cache)
    ensures GetPatients(db, cache, token, branchId) == Outcome(Challenge, db, cache)
    ensures GetBranches(db, token) == Challenge
  {
    UnauthenticatedIsNeverForbidden(token, RequirePolicy(CanCreatePatient));
    UnauthenticatedIsNeverForbidden(token, RequirePolicy(CanViewPatient));
    UnauthenticatedIsNeverForbidden(token, Authenticated);
  }

  /** Without a valid token the administrator endpoints answer 401 and change nothing. */
  lemma NoTokenNoAdministration(db: Db, token: Option<Token>, id: Guid, ur: CreateUserRequest, rr: AssignRoleRequest,
                                br: AddBranchesRequest, tr: AssignTenantRequest, digest: string, now: nat, newId: nat -> Guid)
    requires token.None? || !token.value.valid
    ensures PostUser(db, token, ur, digest, now, newId) == Step(Challenge, db)
    ensures PutRole(db, token, id, rr) == Step(Challenge, db)
    ensures PostBranches(db, token, id, br, newId) == Step(Challenge, db)
    ensures PutTenant(db, token, id, tr, newId) == Step(Challenge, db)
  {
    UnauthenticatedIsNeverForbidden(token, AdminOnly);
  }

  /**
   * `[Authorize(Roles = "Admin")]`: an authenticated caller without an Admin
   * role claim gets 403 from every administrator endpoint, and nothing changes.
   */
  lemma NonAdminIsForbidden(db: Db, tok: Token, id: Guid, ur: CreateUserRequest, rr: AssignRoleRequest,
                            br: AddBranchesRequest, tr: AssignTenantRequest, digest: string, now: nat, newId: nat -> Guid)
    requires tok.valid && !IsInRole(tok.claims, "Admin")
    ensures PostUser(db, Some(tok), ur, digest, now, newId) == Step(Forbid, db)
    ensures PutRole(db, Some(tok), id, rr) == Step(Forbid, db)
    ensures PostBranches(db, Some(tok), id, br, newId) == Step(Forbid, db)
    ensures PutTenant(db, Some(tok), id, tr, newId) == Step(Forbid, db)
  {
    AdminAdmission(Some(tok));
  }

  /** Creating a patient through the pipeline keeps the store consistent and every cached list fresh. */
  lemma PostPatientKeepsInvariants(db: Db, cache: Cache, token: Option<Token>, r: CreatePatientRequest, id: Guid, now: nat)
    requires Consistent(db) && Coherent(db.patients, cache)
    ensures var o := PostPatient(db, cache, token, r, id, now);
      Consistent(o.db) && Coherent(o.db.patients, o.cache)
  {
    var a := Admit(token, RequirePolicy(CanCreatePatient));
    if a.Admitted? && ValidCreatePatient(r) {
      var tenant := ContextTenantId(Some(HttpContext(a.user.value)));
      CreateKeepsConsistent(db, cache, tenant, r, id, now);
      CreateKeepsCoherent(db, cache, tenant, r, id, now);
    }
  }

  /** Listing through the pipeline keeps every cached list fresh. */
  lemma GetPatientsKeepsCoherent(db: Db, cache: Cache, token: Option<Token>, branchId: Option<Guid>)
    requires Coherent(db.patients, cache)
    ensures Coherent(db.patients, GetPatients(db, cache, token, branchId).cache)
  {
    var a := Admit(token, RequirePolicy(CanViewPatient));
    if a.Admitted? {
      var tenant := ContextTenantId(Some(HttpContext(a.user.value)));
      if tenant.Some? {
        ListServesQuery(db, cache, tenant.value, branchId);
      }
    }
  }

  /**
   * Whatever the age of the cache, a patient list the endpoint returns holds
   * only patients of the tenant the caller's token names, and creating or
   * listing keeps every cached list scoped to its tenant.
   */
  lemma GetPatientsStaysInTenant(db: Db, cache: Cache, token: Option<Token>, branchId: Option<Guid>)
    requires TenantScoped(cache)
    ensures var o := GetPatients(db, cache, token, branchId);
      && TenantScoped(o.cache)
      && (o.response.Ok? ==>
            && token.Some? && ClaimTenantId(token.value.claims).Some?
            && forall r | r in o.response.body :: r.tenantId == ClaimTenantId(token.value.claims).value)
  {
    var a := Admit(token, RequirePolicy(CanViewPatient));
    if a.Admitted? {
      var tenant := ContextTenantId(Some(HttpContext(a.user.value)));
      ResolversAgree(a.user.value);
      if tenant.Some? {
        ListStaysInTenant(db, cache, tenant.value, branchId);
      }
    }
  }

  lemma PostPatientKeepsScoped(db: Db, cache: Cache, token: Option<Token>, r: CreatePatientRequest, id: Guid, now: nat)
    requires TenantScoped(cache)
    ensures TenantScoped(PostPatient(db, cache, token, r, id, now).cache)
  {
    var a := Admit(token, RequirePolicy(CanCreatePatient));
    if a.Admitted? && ValidCreatePatient(r) {
      CreateKeepsScoped(db, cache, ContextTenantId(Some(HttpContext(a.user.value))), r, id, now);
    }
  }

  /** A valid token that may view patients and names tenant t lists, through a coherent cache, exactly t's patients. */
  lemma TokenListsTenant(d: Db, cache: Cache, p: Principal, t: Guid, b: Option<Guid>)
    requires ClaimTenantId(p) == Some(t)
    requires Admit(Some(Token(true, p)), RequirePolicy(CanViewPatient)).Admitted?
    requires Coherent(d.patients, cache)
    ensures GetPatients(d, cache, Some(Token(true, p)), b).response == Ok(Listing(d.patients, t, b))
  {
    ResolversAgree(p);
    ListServesQuery(d, cache, t, b);
  }

  /** The token a login returns lists exactly the patients of the user's own tenant. */
  lemma LoginTokenListsOwnTenant(db: Db, lr: LoginRequest, verify: (string, string) -> bool, jti: Guid,
                                 d: Db, cache: Cache, b: Option<Guid>)
    requires PostLogin(db, lr, verify, jti).Ok?
    requires Coherent(d.patients, cache)
    ensures var resp := PostLogin(db, lr, verify, jti).body;
      GetPatients(d, cache, Some(Token(true, resp.token)), b).response == Ok(Listing(d.patients, resp.tenantId, b))
  {
    var resp := PostLogin(db, lr, verify, jti).body;
    LoginTokenGrants(db, lr, verify, jti);
    TokenListsTenant(d, cache, resp.token, resp.tenantId, b);
  }

  /** The token a login returns for a Viewer is refused patient creation with 403, and nothing changes. */
  lemma ViewerLoginCannotCreate(db: Db, lr: LoginRequest, verify: (string, string) -> bool, jti: Guid,
                                d: Db, cache: Cache, pr: CreatePatientRequest, id: Guid, now: nat)
    requires PostLogin(db, lr, verify, jti).Ok? && PostLogin(db, lr, verify, jti).body.role == "Viewer"
    ensures PostPatient(d, cache, Some(Token(true, PostLogin(db, lr, verify, jti).body.token)), pr, id, now)
      == Outcome(Forbid, d, cache)
  {
    var resp := PostLogin(db, lr, verify, jti).body;
    LoginTokenGrants(db, lr, verify, jti);
    assert Admit(Some(Token(true, resp.token)), RequirePolicy(CanCreatePatient)) == Forbidden;
  }

  /** A registration that passes validation stores a username that fits its column. */
  lemma RegisteredNameFits(db: Db, r: RegisterRequest, digest: string, now: nat, newId: nat -> Guid)
    requires PostRegister(db, r, digest, now, newId).response.Created?
    ensures |r.username| <= UsernameMax
  {
  }

  /** Creating a user through the pipeline keeps the store consistent. */
  lemma PostUserKeepsConsistent(db: Db, token: Option<Token>, r: CreateUserRequest, digest: string, now: nat, newId: nat -> Guid)
    requires Consistent(db)
    ensures Consistent(PostUser(db, token, r, digest, now, newId).db)
  {
    var a := Admit(token, AdminOnly);
    if a.Admitted? {
      CreateUserKeepsConsistent(db, ClaimTenantId(a.user.value), r, digest, now, newId);
    }
  }

  /** Changing a role through the pipeline keeps the store consistent. */
  lemma PutRoleKeepsConsistent(db: Db, token: Option<Token>, id: Guid, r: AssignRoleRequest)
    requires Consistent(db)
    ensures Consistent(PutRole(db, token, id, r).db)
  {
    var s := PutRole(db, token, id, r);
    if s.response.Ok? {
      AccountSaveKeepsConsistent(db, s.db);
    }
  }

  /** Linking branches through the pipeline keeps the store consistent. */
  lemma PostBranchesKeepsConsistent(db: Db, token: Option<Token>, id: Guid, r: AddBranchesRequest, newId: nat -> Guid)
    requires Consistent(db)
    ensures Consistent(PostBranches(db, token, id, r, newId).db)
  {
    var a := Admit(token, AdminOnly);
    if a.Admitted? {
      AddBranchesKeepsConsistent(db, ClaimTenantId(a.user.value), id, r, newId);
    }
  }

  /** Moving a user through the pipeline keeps the store consistent. */
  lemma PutTenantKeepsConsistent(db: Db, token: Option<Token>, id: Guid, r: AssignTenantRequest, newId: nat -> Guid)
    requires Consistent(db)
    ensures Consistent(PutTenant(db, token, id, r, newId).db)
  {
    AssignTenantKeepsConsistent(db, id, r, newId);
  }
}
