/**
 * The running API: the database tables the controllers read and write
 * through `ClinicPosDbContext`, and the Redis cache of patient lists,
 * updated step by step by each request. Every method does what the
 * endpoint's function in `Endpoints` (or `Seeding.Seed`) says, and keeps
 * the store's invariants: the database constraints hold with patient
 * branches inside the patient's tenant, and every cached patient list is
 * the list the query would return now.
 */
module Store {
  import opened Wrappers
  import opened Guids
  import opened Http
  import opened Entities
  import opened Schema
  import opened Tenancy
  import opened Policies
  import opened Dtos
  import opened Patients
  import opened Sequences
  import Accounts
  import Branches
  import Endpoints
  import Seeding
  import Roles

  /** The loop of `CreateUser`: a link for the k-th listed branch, with id `newId(k + 1)`. */
  method LinkEach(userId: Guid, ids: seq<Guid>, newId: nat -> Guid) returns (added: seq<UserBranch>)
    ensures added == Accounts.NewLinks(userId, ids, newId, 1)
    ensures |added| == |ids| && forall l | l in added :: l.userId == userId && l.branchId in ids
  {
    added := [];
    var k := 0;
    while k < |ids|
      invariant 0 <= k <= |ids|
      invariant added == Accounts.NewLinks(userId, ids[..k], newId, 1)
    {
      added := added + [UserBranch(newId(k + 1), userId, ids[k])];
      k := k + 1;
    }
    assert ids[..k] == ids;
  }

  /** One more listed id adds its link exactly when the id is not among `existing`. */
  lemma MissingLinksStep(userId: Guid, ids: seq<Guid>, k: nat, existing: set<Guid>, newId: nat -> Guid, added: seq<UserBranch>)
    requires k < |ids| && added == Accounts.MissingLinks(userId, ids[..k], existing, newId)
    ensures Accounts.MissingLinks(userId, ids[..k + 1], existing, newId)
      == added + (if ids[k] in existing then [] else [UserBranch(newId(k), userId, ids[k])])
  {
    assert ids[..k + 1][..k] == ids[..k];
  }

  /**
   * The loop of `AddBranches`: a link for each listed branch not among
   * `existing`, the one for the k-th listed id with id `newId(k)`.
   */
  method LinkMissing(userId: Guid, ids: seq<Guid>, existing: set<Guid>, newId: nat -> Guid) returns (added: seq<UserBranch>)
    ensures added == Accounts.MissingLinks(userId, ids, existing, newId)
    ensures forall l | l in added :: l.userId == userId && l.branchId in ids && l.branchId !in existing
    ensures forall id | id in ids && id !in existing :: exists l | l in added :: l.branchId == id
  {
    added := [];
    var k := 0;
    assert ids[..0] == [];
    while k < |ids|
      invariant 0 <= k <= |ids|
      invariant added == Accounts.MissingLinks(userId, ids[..k], existing, newId)
    {
      MissingLinksStep(userId, ids, k, existing, newId, added);
      added := added + if ids[k] in existing then [] else [UserBranch(newId(k), userId, ids[k])];
      k := k + 1;
    }
    assert ids[..k] == ids;
  }

  class ClinicStore {
    var tenants: seq<Tenant>
    var branches: seq<Branch>
    var users: seq<User>
    var userBranches: seq<UserBranch>
    var patients: seq<Patient>
    /** The Redis entries under `tenant:…:patients:list:…`. */
    var cache: Cache

    /** The five tables as one value. */
    function Tables(): Db
      reads this
    {
      Db(tenants, branches, users, userBranches, patients)
    }

    /**
     * The store invariant: every constraint holds, each patient's branch is in
     * the patient's tenant, and each cached list holds only its key's tenant's
     * patients (true even of a stale cache).
     */
    ghost predicate Valid()
      reads this
    {
      Consistent(Tables()) && TenantScoped(cache)
    }

    /** Every cached list is the list the query returns on the current rows. */
    ghost predicate CacheFresh()
      reads this
    {
      Coherent(patients, cache)
    }

    /** An empty database and an empty cache, before migration seeding runs. */
    constructor()
      ensures Tables() == EmptyDb && cache == map[]
      ensures Valid() && CacheFresh()
    {
      tenants, branches, users, userBranches, patients := [], [], [], [], [];
      cache := map[];
    }

    /** Replaces the tables by a pending state the database accepted. */
    method Commit(d: Db)
      modifies this
      ensures Tables() == d && cache == old(cache)
    {
      tenants, branches, users, userBranches, patients := d.tenants, d.branches, d.users, d.userBranches, d.patients;
    }

    // ----- DbSeeder -----

    /**
     * `DbSeeder.SeedAsync` at start-up: nothing when the seed administrator
     * exists, otherwise the two batches of seed rows. The cache is not touched.
     * A failed save is returned: the host would stop there.
     */
    method Seed(newId: nat -> Guid, digest: nat -> string, now: nat) returns (failure: Option<SaveFailure>)
      requires Valid()
      modifies this
      ensures failure == Seeding.SeedFailure(old(Tables()), newId, digest, now)
      ensures Tables() == Seeding.Seed(old(Tables()), newId, digest, now)
      ensures cache == old(cache)
      ensures Valid()
    {
      ghost var db0 := Tables();
      Seeding.SeedKeepsConsistent(db0, newId, digest, now);
      if exists u | u in users :: u.username == Seeding.SeedAdmin {
        return None;
      }
      var first := Tables().(tenants := tenants + Seeding.SeedTenants(now),
                             branches := branches + Seeding.SeedBranches(now),
                             users := users + Seeding.SeedUsers(newId, digest, now));
      failure := SaveError(first);
      if failure.Some? {
        return;
      }
      Commit(first);
      var second := Tables().(userBranches := userBranches + Seeding.SeedLinks(newId),
                              patients := patients + Seeding.SeedPatients(newId, now));
      failure := SaveError(second);
      if failure.Some? {
        return;
      }
      Commit(second);
    }

    // ----- PatientsController -----

    /** POST /patients: on success one row is added and the tenant's "all" key and the branch's key are deleted. */
    method CreatePatient(token: Option<Token>, r: CreatePatientRequest, id: Guid, now: nat)
      returns (response: Response<PatientResponse>)
      requires Valid()
      modifies this
      ensures var o := Endpoints.PostPatient(old(Tables()), old(cache), token, r, id, now);
        response == o.response && Tables() == o.db && cache == o.cache
      ensures Valid()
      ensures old(CacheFresh()) ==> CacheFresh()
    {
      var a := Admit(token, RequirePolicy(CanCreatePatient));
      if a.Challenged? {
        return Challenge;
      }
      if a.Forbidden? {
        return Forbid;
      }
      if !ValidCreatePatient(r) {
        return ValidationProblem;
      }
      response := AddPatient(ContextTenantId(Some(HttpContext(a.user.value))), r, id, now);
    }

    /** The body of `PatientsController.Create`, for a caller whose token names `tenant`. */
    method AddPatient(tenant: Option<Guid>, r: CreatePatientRequest, id: Guid, now: nat)
      returns (response: Response<PatientResponse>)
      requires Valid()
      modifies this
      ensures var o := Create(old(Tables()), old(cache), tenant, r, id, now);
        response == o.response && Tables() == o.db && cache == o.cache
      ensures Valid()
      ensures old(CacheFresh()) ==> CacheFresh()
    {
      ghost var db0, cache0 := Tables(), cache;
      if tenant.None? {
        return Forbid;
      }
      var t := tenant.value;
      if r.primaryBranchId.Some? && !BranchOfTenant(Tables(), r.primaryBranchId.value, t) {
        return BadRequest(ForeignBranchError);
      }
      var p := NewPatient(t, r, id, now);
      var failure := SaveError(Tables().(patients := patients + [p]));
      if failure == Some(UniqueViolation) {
        return Conflict(DuplicatePhoneError);
      }
      if failure.Some? {
        return ServerError;
      }
      patients := patients + [p];
      Invalidate(t, r.primaryBranchId);
      response := Created(ToResponse(p));
      CreateKeepsConsistent(db0, cache0, tenant, r, id, now);
      CreateKeepsScoped(db0, cache0, tenant, r, id, now);
      if Coherent(db0.patients, cache0) {
        CreateKeepsCoherent(db0, cache0, tenant, r, id, now);
      }
    }

    /** `InvalidateCacheAsync`: the tenant's "all" key goes, then the branch's key when there is a branch. */
    method Invalidate(tenantId: Guid, branchId: Option<Guid>)
      modifies this
      ensures Tables() == old(Tables()) && cache == old(cache) - Evicted(tenantId, branchId)
    {
      cache := cache - {CacheKey(tenantId, None)};
      if branchId.Some? {
        cache := cache - {CacheKey(tenantId, branchId)};
      }
    }

    /** GET /patients: a cached list when its key is present, otherwise the query, which is then cached. */
    method ListPatients(token: Option<Token>, branchId: Option<Guid>) returns (response: Response<seq<PatientResponse>>)
      requires Valid()
      modifies this
      ensures var o := Endpoints.GetPatients(old(Tables()), old(cache), token, branchId);
        response == o.response && Tables() == old(Tables()) && cache == o.cache
      ensures response.Ok? ==>
        && token.Some? && ClaimTenantId(token.value.claims).Some?
        && forall p | p in response.body :: p.tenantId == ClaimTenantId(token.value.claims).value
      ensures Valid()
      ensures old(CacheFresh()) ==> CacheFresh()
    {
      var a := Admit(token, RequirePolicy(CanViewPatient));
      if a.Challenged? {
        return Challenge;
      }
      if a.Forbidden? {
        return Forbid;
      }
      var tenant := ContextTenantId(Some(HttpContext(a.user.value)));
      ResolversAgree(a.user.value);
      if tenant.None? {
        return Forbid;
      }
      response := ServeList(tenant.value, branchId);
    }

    /** The body of `PatientsController.GetByTenant`, for a caller whose token names tenant `t`. */
    method ServeList(t: Guid, branchId: Option<Guid>) returns (response: Response<seq<PatientResponse>>)
      requires Valid()
      modifies this
      ensures var o := List(old(Tables()), old(cache), Some(t), branchId);
        response == o.response && Tables() == old(Tables()) && cache == o.cache
      ensures response.Ok? && forall p | p in response.body :: p.tenantId == t
      ensures Valid()
      ensures old(CacheFresh()) ==> CacheFresh()
    {
      ghost var db0, cache0 := Tables(), cache;
      ListStaysInTenant(db0, cache0, t, branchId);
      if Coherent(db0.patients, cache0) {
        ListServesQuery(db0, cache0, t, branchId);
      }
      var key := CacheKey(t, branchId);
      if key in cache {
        return Ok(cache[key]);
      }
      var l := Listing(patients, t, branchId);
      cache := cache[key := l];
      response := Ok(l);
    }

    /** The cache's time-to-live runs out for one key. */
    method ExpireCacheEntry(key: string)
      requires Valid()
      modifies this
      ensures Tables() == old(Tables()) && cache == old(cache) - {key}
      ensures Valid()
      ensures old(CacheFresh()) ==> CacheFresh()
    {
      ghost var cache0 := cache;
      cache := cache - {key};
      EvictionKeepsScoped(cache0, {key});
      if Coherent(patients, cache0) {
        EvictionKeepsCoherent(patients, cache0, {key});
      }
    }

    // ----- BranchesController -----

    /** GET /branches. */
    method ListBranches(token: Option<Token>) returns (response: Response<seq<BranchInfo>>)
      ensures response == Endpoints.GetBranches(Tables(), token)
    {
      var a := Admit(token, Authenticated);
      if a.Challenged? {
        return Challenge;
      }
      if a.Forbidden? {
        return Forbid;
      }
      response := Branches.ListBranches(Tables(), ClaimTenantId(a.user.value));
    }

    // ----- AuthController -----

    /** GET /auth/tenants: every tenant in code order. */
    method ListTenants() returns (response: Response<seq<TenantResponse>>)
      ensures response == Accounts.GetTenants(Tables())
      ensures |response.body| == |tenants|
      ensures forall i, j | 0 <= i < j < |response.body| :: Text.OrdinalLe(response.body[i].code, response.body[j].code)
    {
      response := Accounts.GetTenants(Tables());
      Accounts.GetTenantsSpec(Tables());
    }

    /** POST /auth/register: a Viewer in the tenant the code names, and its branch link when one is given. */
    method Register(r: RegisterRequest, digest: string, now: nat, newId: nat -> Guid) returns (response: Response<UserResponse>)
      requires Valid()
      modifies this
      ensures var s := Endpoints.PostRegister(old(Tables()), r, digest, now, newId);
        response == s.response && Tables() == s.db
      ensures patients == old(patients) && cache == old(cache)
      ensures Valid()
    {
      ghost var db0 := Tables();
      if !ValidRegister(r) {
        return ValidationProblem;
      }
      var tenant := Accounts.TenantByCode(Tables(), r.tenantCode);
      if tenant.None? {
        return BadRequest(Accounts.InvalidTenantCodeError);
      }
      if Accounts.UsernameTaken(Tables(), r.username) {
        return Conflict(Accounts.UsernameExistsError);
      }
      var u := User(newId(0), r.username, digest, r.username, Roles.Default, tenant.value.id, now);
      var pending := Tables().(users := users + [u],
                               userBranches := userBranches + Accounts.RegisterLinks(u.id, r.branchId, newId(1)));
      if SaveError(pending).Some? {
        return ServerError;
      }
      Commit(pending);
      response := Created(Accounts.UserResponseOf(pending, u));
      Accounts.RegisterKeepsConsistent(db0, r, digest, now, newId);
    }

    /** POST /auth/login: reads only. */
    method Login(r: LoginRequest, verify: (string, string) -> bool, jti: Guid) returns (response: Response<LoginResponse>)
      ensures response == Endpoints.PostLogin(Tables(), r, verify, jti)
    {
      if !ValidLogin(r) {
        return ValidationProblem;
      }
      var tenant := Accounts.TenantByCode(Tables(), r.tenantCode);
      if tenant.None? {
        return BadRequest(Accounts.InvalidTenantCodeError);
      }
      var user := First(users, Accounts.LoginMatch, (r.username, tenant.value.id));
      if user.None? || !verify(r.password, user.value.passwordHash) {
        return Unauthorized(Accounts.InvalidCredentialsError);
      }
      var u := user.value;
      var linked := Accounts.LinkedBranches(Tables(), u.id);
      response := Ok(LoginResponse(Accounts.TokenClaims(u, linked, jti), u.username, u.fullName, Roles.Name(u.role),
                                   u.tenantId, tenant.value.code, tenant.value.name, linked));
    }

    /** POST /auth/users: the new user and, one by one, a link for each listed branch. */
    method CreateUser(token: Option<Token>, r: CreateUserRequest, digest: string, now: nat, newId: nat -> Guid)
      returns (response: Response<UserResponse>)
      requires Valid()
      modifies this
      ensures var s := Endpoints.PostUser(old(Tables()), token, r, digest, now, newId);
        response == s.response && Tables() == s.db
      ensures patients == old(patients) && cache == old(cache)
      ensures Valid()
    {
      ghost var db0 := Tables();
      Endpoints.PostUserKeepsConsistent(db0, token, r, digest, now, newId);
      var a := Admit(token, Endpoints.AdminOnly);
      if a.Challenged? {
        return Challenge;
      }
      if a.Forbidden? {
        return Forbid;
      }
      var tenant := ClaimTenantId(a.user.value);
      if tenant.None? {
        return Forbid;
      }
      var role := Roles.Parse(r.role);
      if role.None? {
        return BadRequest(Accounts.InvalidRoleError);
      }
      if Accounts.UsernameTaken(Tables(), r.username) {
        return Conflict(Accounts.UsernameExistsError);
      }
      if |r.branchIds| > 0 && Accounts.ValidBranchCount(Tables(), tenant.value, r.branchIds) != |r.branchIds| {
        return BadRequest(Accounts.ForeignBranchesError);
      }
      var u := User(newId(0), r.username, digest, r.fullName, role.value, tenant.value, now);
      var added := LinkEach(u.id, r.branchIds, newId);
      var pending := Tables().(users := users + [u], userBranches := userBranches + added);
      if SaveError(pending).Some? {
        return ServerError;
      }
      Commit(pending);
      response := Created(Accounts.UserResponseOf(pending, u));
    }

    /** PUT /auth/users/{id}/role: the user's row gets the new role. */
    method AssignRole(token: Option<Token>, id: Guid, r: AssignRoleRequest) returns (response: Response<UserResponse>)
      requires Valid()
      modifies this
      ensures var s := Endpoints.PutRole(old(Tables()), token, id, r);
        response == s.response && Tables() == s.db
      ensures patients == old(patients) && cache == old(cache)
      ensures Valid()
    {
      ghost var db0 := Tables();
      Endpoints.PutRoleKeepsConsistent(db0, token, id, r);
      var a := Admit(token, Endpoints.AdminOnly);
      if a.Challenged? {
        return Challenge;
      }
      if a.Forbidden? {
        return Forbid;
      }
      if !ValidAssignRole(r) {
        return ValidationProblem;
      }
      var role := Roles.Parse(r.role);
      if role.None? {
        return BadRequest(Accounts.InvalidRoleError);
      }
      var i := Accounts.UserIndex(users, id);
      if i.None? {
        return NotFound(Accounts.UserNotFoundError);
      }
      var u := users[i.value].(role := role.value);
      var pending := Tables().(users := users[i.value := u]);
      if SaveError(pending).Some? {
        return ServerError;
      }
      Commit(pending);
      response := Ok(Accounts.UserResponseOf(pending, u));
    }

    /** POST /auth/users/{id}/branches: one link for each listed branch the user is not yet linked to. */
    method AddBranches(token: Option<Token>, id: Guid, r: AddBranchesRequest, newId: nat -> Guid)
      returns (response: Response<UserResponse>)
      requires Valid()
      modifies this
      ensures var s := Endpoints.PostBranches(old(Tables()), token, id, r, newId);
        response == s.response && Tables() == s.db
      ensures patients == old(patients) && cache == old(cache)
      ensures Valid()
    {
      ghost var db0 := Tables();
      Endpoints.PostBranchesKeepsConsistent(db0, token, id, r, newId);
      var a := Admit(token, Endpoints.AdminOnly);
      if a.Challenged? {
        return Challenge;
      }
      if a.Forbidden? {
        return Forbid;
      }
      var tenant := ClaimTenantId(a.user.value);
      if tenant.None? {
        return Forbid;
      }
      var i := Accounts.UserIndex(users, id);
      if i.None? {
        return NotFound(Accounts.UserNotFoundError);
      }
      if users[i.value].tenantId != tenant.value {
        return Forbid;
      }
      if Accounts.ValidBranchCount(Tables(), tenant.value, r.branchIds) != |r.branchIds| {
        return BadRequest(Accounts.ForeignBranchesError);
      }
      var existing := Accounts.BranchSet(Tables(), id);
      var added := LinkMissing(id, r.branchIds, existing, newId);
      var pending := Tables().(userBranches := userBranches + added);
      if SaveError(pending).Some? {
        return ServerError;
      }
      Commit(pending);
      response := Ok(Accounts.UserResponseOf(pending, users[i.value]));
    }

    /** PUT /auth/users/{id}/tenant: the move is saved first, then the branch link when one is given and missing. */
    method AssignTenant(token: Option<Token>, id: Guid, r: AssignTenantRequest, newId: nat -> Guid)
      returns (response: Response<UserResponse>)
      requires Valid()
      modifies this
      ensures var s := Endpoints.PutTenant(old(Tables()), token, id, r, newId);
        response == s.response && Tables() == s.db
      ensures patients == old(patients) && cache == old(cache)
      ensures Valid()
    {
      ghost var db0 := Tables();
      Endpoints.PutTenantKeepsConsistent(db0, token, id, r, newId);
      var a := Admit(token, Endpoints.AdminOnly);
      if a.Challenged? {
        return Challenge;
      }
      if a.Forbidden? {
        return Forbid;
      }
      var i := Accounts.UserIndex(users, id);
      if i.None? {
        return NotFound(Accounts.UserNotFoundError);
      }
      var u := users[i.value].(tenantId := r.tenantId);
      var moved := Tables().(users := users[i.value := u]);
      if SaveError(moved).Some? {
        return ServerError;
      }
      Commit(moved);
      if r.branchId.Some? && First(userBranches, Accounts.HasPair, (id, r.branchId.value)).None? {
        var pending := Tables().(userBranches := userBranches + [UserBranch(newId(0), id, r.branchId.value)]);
        if SaveError(pending).Some? {
          return ServerError;
        }
        Commit(pending);
      }
      response := Ok(Accounts.UserResponseOf(Tables(), u));
    }
  }
}
