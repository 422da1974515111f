/**
 * `AuthController`: the tenant list, self-registration, login, and the
 * administrator endpoints that create users, change their role or tenant and
 * link them to branches. Each endpoint is a function from the store to the
 * response and the store after it; the store class carries them out step by
 * step. Password hashing is an input digest and password checking a
 * caller-supplied predicate; a token is the list of claims it carries.
 */
module Accounts {
  import opened Wrappers
  import opened Guids
  import opened Entities
  import opened Schema
  import opened Sequences
  import opened Sorting
  import opened Dtos
  import opened Http
  import opened Tenancy
  import Text
  import Roles
  import Policies

  /** The response an endpoint gives and the store after it. */
  datatype Step<T> = Step(response: Response<T>, db: Db)

  const InvalidTenantCodeError := "Invalid tenant code."
  const UsernameExistsError := "Username already exists."
  const InvalidRoleError := "Invalid role. Must be one of: Admin, User, Viewer"
  const ForeignBranchesError := "One or more branch IDs do not belong to your tenant."
  const UserNotFoundError := "User not found."
  const InvalidCredentialsError := "Invalid username or password."

  /** The role error lists the accepted roles joined by ", ". */
  lemma InvalidRoleErrorListsRoles()
    ensures InvalidRoleError
      == "Invalid role. Must be one of: " + Text.Join(", ", [Roles.Name(Roles.Admin), Roles.Name(Roles.User), Roles.Name(Roles.Viewer)])
  {
    var parts := [Roles.Name(Roles.Admin), Roles.Name(Roles.User), Roles.Name(Roles.Viewer)];
    assert parts == ["Admin", "User", "Viewer"];
    assert parts[1..] == ["User", "Viewer"] && ["User", "Viewer"][1..] == ["Viewer"];
    var tail := Text.Join(", ", ["User", "Viewer"]);
    assert tail == "User" + ", " + "Viewer";
    assert Text.Join(", ", parts) == "Admin" + ", " + tail;
    assert "Admin" + ", " + ("User" + ", " + "Viewer") == "Admin, User, Viewer";
  }

  // ----- Lookups -----

  predicate HasCode(t: Tenant, code: string) { t.code == code }
  predicate HasUsername(u: User, name: string) { u.username == name }
  predicate LoginMatch(u: User, key: (string, Guid)) { u.username == key.0 && u.tenantId == key.1 }

  /** The tenant a request's code names: codes are compared after upper-casing the request's. */
  function TenantByCode(db: Db, code: string): Option<Tenant> {
    First(db.tenants, HasCode, Text.ToUpper(code))
  }

  /** Usernames are unique across tenants, so a name taken in any tenant is refused. */
  predicate UsernameTaken(db: Db, name: string) {
    exists u | u in db.users :: u.username == name
  }

  /** `Users.FindAsync(id)`: the position of the row with that primary key. */
  function UserIndex(users: seq<User>, id: Guid): (r: Option<nat>)
    ensures r.Some? ==> r.value < |users| && users[r.value].id == id
    ensures r.None? <==> forall u | u in users :: u.id != id
    decreases |users|
  {
    if users == [] then None
    else if users[0].id == id then Some(0)
    else
      assert forall u | u in users :: u == users[0] || u in users[1..];
      match UserIndex(users[1..], id)
      case None => None
      case Some(i) => Some(i + 1)
  }

  // ----- Branch joins -----

  predicate LinkOf(ub: UserBranch, userId: Guid) { ub.userId == userId }
  predicate HasBranchId(b: Branch, id: Guid) { b.id == id }

  function Infos(bs: seq<Branch>): (r: seq<BranchInfo>)
    ensures |r| == |bs| && forall i | 0 <= i < |bs| :: r[i] == Info(bs[i])
  {
    seq(|bs|, i requires 0 <= i < |bs| => Info(bs[i]))
  }

  /** The inner join of links with branches on the branch id, projected to (Id, Name). */
  function JoinBranches(links: seq<UserBranch>, branches: seq<Branch>): (r: seq<BranchInfo>)
    ensures forall x | x in r :: exists ub, b | ub in links && b in branches :: b.id == ub.branchId && x == Info(b)
    ensures forall ub, b | ub in links && b in branches && b.id == ub.branchId :: Info(b) in r
    decreases |links|
  {
    if links == [] then []
    else
      var init, last := links[..|links| - 1], links[|links| - 1];
      assert links == init + [last];
      var matching := Where(branches, HasBranchId, last.branchId);
      var here := Infos(matching);
      assert forall x | x in here :: exists b | b in branches :: b.id == last.branchId && x == Info(b) by {
        forall x | x in here ensures exists b | b in branches :: b.id == last.branchId && x == Info(b) {
          var i :| 0 <= i < |here| && here[i] == x;
          assert matching[i] in matching;
        }
      }
      assert forall b | b in branches && b.id == last.branchId :: Info(b) in here by {
        forall b | b in branches && b.id == last.branchId ensures Info(b) in here {
          assert b in matching;
          var i :| 0 <= i < |matching| && matching[i] == b;
          assert here[i] == Info(b);
        }
      }
      JoinBranches(init, branches) + here
  }

  /** The branches of a user's links, as the responses and the token list them. */
  function LinkedBranches(db: Db, userId: Guid): seq<BranchInfo> {
    JoinBranches(Where(db.userBranches, LinkOf, userId), db.branches)
  }

  /** The ids of the branches a user is linked to. */
  function BranchSet(db: Db, userId: Guid): set<Guid> {
    set ub | ub in db.userBranches && ub.userId == userId :: ub.branchId
  }

  /** In a store whose links point at existing branches, a user's listed branches are exactly the linked ones. */
  lemma LinkedBranchesSpec(db: Db, userId: Guid)
    requires ForeignKeys(db)
    ensures (set x | x in LinkedBranches(db, userId) :: x.id) == BranchSet(db, userId)
  {
    var l := LinkedBranches(db, userId);
    forall id | id in BranchSet(db, userId) ensures id in set x | x in l :: x.id {
      var ub :| ub in db.userBranches && ub.userId == userId && ub.branchId == id;
      var b :| b in db.branches && b.id == id;
      assert Info(b) in l;
    }
  }

  /** A user as the endpoints return it: no password digest, the role by name, the linked branches listed. */
  function UserResponseOf(db: Db, u: User): (r: UserResponse)
    ensures r.id == u.id && r.tenantId == u.tenantId && r.role == Roles.Name(u.role)
    ensures ForeignKeys(db) ==> (set x | x in r.branches :: x.id) == BranchSet(db, u.id)
  {
    var r := UserResponse(u.id, u.username, u.fullName, Roles.Name(u.role), u.tenantId, LinkedBranches(db, u.id), u.createdAt);
    assert ForeignKeys(db) ==> (set x | x in r.branches :: x.id) == BranchSet(db, u.id) by {
      if ForeignKeys(db) {
        LinkedBranchesSpec(db, u.id);
      }
    }
    r
  }

  // ----- GET /auth/tenants -----

  predicate CodeNoLater(a: Tenant, b: Tenant) { Text.OrdinalLe(a.code, b.code) }

  lemma CodeNoLaterTotalPreorder()
    ensures TotalPreorder(CodeNoLater)
  {
    forall a: Tenant, b: Tenant ensures CodeNoLater(a, b) || CodeNoLater(b, a) {
      Text.OrdinalLeTotal(a.code, b.code);
    }
    forall a: Tenant, b: Tenant, c: Tenant | CodeNoLater(a, b) && CodeNoLater(b, c) ensures CodeNoLater(a, c) {
      Text.OrdinalLeTransitive(a.code, b.code, c.code);
    }
  }

  function TenantResponseOf(t: Tenant): TenantResponse {
    TenantResponse(t.id, t.code, t.name)
  }

  /** `GetTenants`: every tenant, ordered by code, for anyone. */
  function GetTenants(db: Db): (r: Response<seq<TenantResponse>>)
    ensures r.Ok? && |r.body| == |db.tenants|
  {
    var ts := SortBy(db.tenants, CodeNoLater);
    assert |ts| == |multiset(ts)| == |multiset(db.tenants)| == |db.tenants|;
    Ok(seq(|ts|, i requires 0 <= i < |ts| => TenantResponseOf(ts[i])))
  }

  /** The tenant list has one entry per tenant, in code order. */
  lemma GetTenantsSpec(db: Db)
    ensures var l := GetTenants(db).body;
      && |l| == |db.tenants|
      && (forall t | t in db.tenants :: TenantResponseOf(t) in l)
      && (forall x | x in l :: exists t | t in db.tenants :: x == TenantResponseOf(t))
      && (forall i, j | 0 <= i < j < |l| :: Text.OrdinalLe(l[i].code, l[j].code))
  {
    var ts := SortBy(db.tenants, CodeNoLater);
    var l := GetTenants(db).body;
    assert |ts| == |multiset(ts)| == |multiset(db.tenants)| == |db.tenants|;
    forall t | t in db.tenants ensures TenantResponseOf(t) in l {
      assert t in multiset(ts);
      var i :| 0 <= i < |ts| && ts[i] == t;
      assert l[i] == TenantResponseOf(t);
    }
    forall x | x in l ensures exists t | t in db.tenants :: x == TenantResponseOf(t) {
      var i :| 0 <= i < |l| && l[i] == x;
      assert ts[i] in multiset(db.tenants);
    }
    CodeNoLaterTotalPreorder();
    SortBySorted(db.tenants, CodeNoLater);
  }

  // ----- POST /auth/register -----

  function RegisterLinks(userId: Guid, branchId: Option<Guid>, linkId: Guid): seq<UserBranch> {
    if branchId.Some? then [UserBranch(linkId, userId, branchId.value)] else []
  }

  /**
   * `Register`, with `digest` the hash of the password, `now` the clock and
   * `newId` the supply of new ids (the user takes `newId(0)`, the link `newId(1)`).
   */
  function Register(db: Db, r: RegisterRequest, digest: string, now: nat, newId: nat -> Guid): (s: Step<UserResponse>)
    ensures !s.response.Created? ==> s.db == db
  {
    var tenant := TenantByCode(db, r.tenantCode);
    if tenant.None? then Step(BadRequest(InvalidTenantCodeError), db)
    else if UsernameTaken(db, r.username) then Step(Conflict(UsernameExistsError), db)
    else
      var u := User(newId(0), r.username, digest, r.username, Roles.Default, tenant.value.id, now);
      var pending := db.(users := db.users + [u], userBranches := db.userBranches + RegisterLinks(u.id, r.branchId, newId(1)));
      if SaveError(pending).None? then Step(Created(UserResponseOf(pending, u)), pending)
      else Step(ServerError, db)
  }

  /**
   * An unknown code is a bad request and a taken name a conflict, in that
   * order; a registration adds one Viewer in the tenant whose code is the
   * upper-cased request code, named after the username, and one link
   * exactly when a branch was given.
   */
  lemma RegisterOutcome(db: Db, r: RegisterRequest, digest: string, now: nat, newId: nat -> Guid)
    ensures var s := Register(db, r, digest, now, newId);
      && ((forall t | t in db.tenants :: t.code != Text.ToUpper(r.tenantCode))
            ==> s == Step(BadRequest(InvalidTenantCodeError), db))
      && ((exists t | t in db.tenants :: t.code == Text.ToUpper(r.tenantCode))
            ==> UsernameTaken(db, r.username) ==> s == Step(Conflict(UsernameExistsError), db))
      && (s.response.Created? ==>
            && !UsernameTaken(db, r.username)
            && |r.username| <= UsernameMax && |digest| <= PasswordHashMax
            && (r.branchId.Some? ==> r.branchId.value in BranchIds(db))
            && |s.db.users| == |db.users| + 1 && s.db.users[..|db.users|] == db.users
            && s.db.users[|db.users|].username == r.username
            && s.db.users[|db.users|].fullName == r.username
            && s.db.users[|db.users|].role == Roles.Viewer
            && (exists t | t in db.tenants :: t.code == Text.ToUpper(r.tenantCode) && s.db.users[|db.users|].tenantId == t.id)
            && s.db.userBranches[..|db.userBranches|] == db.userBranches
            && |s.db.userBranches| == |db.userBranches| + (if r.branchId.Some? then 1 else 0)
            && (r.branchId.Some? ==>
                  s.db.userBranches[|db.userBranches|] == UserBranch(newId(1), s.db.users[|db.users|].id, r.branchId.value))
            && s.db.tenants == db.tenants && s.db.branches == db.branches && s.db.patients == db.patients)
  {
    var s := Register(db, r, digest, now, newId);
    if s.response.Created? {
      var u := s.db.users[|db.users|];
      assert s.db.users == db.users + [u];
      assert u in s.db.users;
      if r.branchId.Some? {
        assert s.db.userBranches[|db.userBranches|] in s.db.userBranches;
      }
    }
  }

  /** Appending a new user that fits, in an existing tenant, with links of its own to existing branches, passes every constraint. */
  lemma NewUserEnforced(db: Db, u: User, links: seq<UserBranch>)
    requires Enforced(db)
    requires UserFits(u) && u.tenantId in TenantIds(db) && u.id !in UserIds(db) && !UsernameTaken(db, u.username)
    requires UniqueBy(db.userBranches + links, LinkKey) && UniqueBy(db.userBranches + links, LinkPairKey)
    requires forall l | l in links :: l.userId == u.id && l.branchId in BranchIds(db)
    ensures Enforced(db.(users := db.users + [u], userBranches := db.userBranches + links))
  {
    var pending := db.(users := db.users + [u], userBranches := db.userBranches + links);
    UniqueSnoc(db.users, u, UserKey);
    UniqueSnoc(db.users, u, UsernameKey);
    assert UserIds(pending) == UserIds(db) + {u.id};
  }

  /**
   * The converse of `RegisterOutcome`: on a consistent store, a known code,
   * a free name and a digest that fit their columns, fresh ids and, when a
   * branch is given, an existing branch always give Created.
   */
  lemma RegisterSucceeds(db: Db, r: RegisterRequest, digest: string, now: nat, newId: nat -> Guid)
    requires Consistent(db)
    requires TenantByCode(db, r.tenantCode).Some? && !UsernameTaken(db, r.username)
    requires |r.username| <= UsernameMax && |digest| <= PasswordHashMax
    requires newId(0) !in UserIds(db)
    requires r.branchId.Some? ==> r.branchId.value in BranchIds(db) && forall ub | ub in db.userBranches :: ub.id != newId(1)
    ensures Register(db, r, digest, now, newId).response.Created?
  {
    var t := TenantByCode(db, r.tenantCode).value;
    var u := User(newId(0), r.username, digest, r.username, Roles.Default, t.id, now);
    var links := RegisterLinks(u.id, r.branchId, newId(1));
    if r.branchId.Some? {
      var l := UserBranch(newId(1), u.id, r.branchId.value);
      assert links == [l];
      assert forall ub | ub in db.userBranches :: ub.userId in UserIds(db);
      UniqueSnoc(db.userBranches, l, LinkKey);
      UniqueSnoc(db.userBranches, l, LinkPairKey);
    } else {
      assert db.userBranches + links == db.userBranches;
    }
    NewUserEnforced(db, u, links);
  }

  // ----- POST /auth/login -----

  const NameIdentifierClaim := "http://schemas.xmlsoap.org/ws/2005/05/identity/claims/nameidentifier"
  const NameClaim := "http://schemas.xmlsoap.org/ws/2005/05/identity/claims/name"
  const BranchIdsClaim := "BranchIds"
  const TokenIdClaim := "jti"

  /** Claim types of different lengths never match, whatever their case. */
  lemma DifferentTypes(a: string, b: string)
    requires |a| != |b|
    ensures !SameClaimType(a, b)
  {
    assert |Text.ToUpper(a)| != |Text.ToUpper(b)|;
  }

  /**
   * The claims of the token `GenerateJwt` issues, as the bearer handler maps
   * them back on a later request: subject, name, role, tenant, the
   * comma-separated branch ids, and a freshly generated token id.
   */
  function TokenClaims(u: User, branches: seq<BranchInfo>, jti: Guid): Principal {
    Principal([
      Claim(NameIdentifierClaim, Format(u.id)),
      Claim(NameClaim, u.username),
      Claim(Policies.RoleClaim, Roles.Name(u.role)),
      Claim(TenantClaim, Format(u.tenantId)),
      Claim(BranchIdsClaim, Text.Join(",", seq(|branches|, i requires 0 <= i < |branches| => Format(branches[i].id)))),
      Claim(TokenIdClaim, Format(jti))
    ])
  }


  /** `Login`, with `verify` the password check against the stored digest and `jti` the token id. */
  function Login(db: Db, r: LoginRequest, verify: (string, string) -> bool, jti: Guid): (res: Response<LoginResponse>)
    ensures TenantByCode(db, r.tenantCode).None? ==> res == BadRequest(InvalidTenantCodeError)
    ensures TenantByCode(db, r.tenantCode).Some? && !res.Ok? ==> res == Unauthorized(InvalidCredentialsError)
    ensures res.Ok? ==>
      && TenantByCode(db, r.tenantCode).Some?
      && var t := TenantByCode(db, r.tenantCode).value;
      && res.body.tenantCode == t.code && res.body.tenantName == t.name
      && exists u | u in db.users ::
           && u.username == r.username && u.tenantId == t.id && verify(r.password, u.passwordHash)
           && res.body.username == u.username && res.body.tenantId == u.tenantId && res.body.role == Roles.Name(u.role)
           && res.body.fullName == u.fullName && res.body.branches == LinkedBranches(db, u.id)
           && res.body.token == TokenClaims(u, res.body.branches, jti)
  {
    var tenant := TenantByCode(db, r.tenantCode);
    if tenant.None? then BadRequest(InvalidTenantCodeError)
    else
      var user := First(db.users, LoginMatch, (r.username, tenant.value.id));
      if user.None? || !verify(r.password, user.value.passwordHash) then Unauthorized(InvalidCredentialsError)
      else
        var u := user.value;
        var branches := LinkedBranches(db, u.id);
        Ok(LoginResponse(TokenClaims(u, branches, jti), u.username, u.fullName, Roles.Name(u.role),
                         u.tenantId, tenant.value.code, tenant.value.name, branches))
  }

  /**
   * The branches a login lists, and carries in the token's BranchIds claim,
   * are exactly the branches the user is linked to.
   */
  lemma LoginBranches(db: Db, r: LoginRequest, verify: (string, string) -> bool, jti: Guid)
    requires UniqueBy(db.users, UsernameKey) && ForeignKeys(db)
    ensures var res := Login(db, r, verify, jti);
      res.Ok? ==> forall u | u in db.users && u.username == res.body.username ::
        (set x | x in res.body.branches :: x.id) == BranchSet(db, u.id)
  {
    var res := Login(db, r, verify, jti);
    if res.Ok? {
      var v :| v in db.users && v.username == r.username && res.body.username == v.username
        && res.body.branches == LinkedBranches(db, v.id);
      LinkedBranchesSpec(db, v.id);
      forall u | u in db.users && u.username == v.username ensures u == v {
        var i :| 0 <= i < |db.users| && db.users[i] == u;
        var j :| 0 <= j < |db.users| && db.users[j] == v;
        assert UsernameKey(db.users[i]) == UsernameKey(db.users[j]);
      }
    }
  }

  /** An unknown user and a wrong password get the same answer, so the answer does not reveal which usernames exist. */
  lemma LoginFailuresAlike(db: Db, r: LoginRequest, verify: (string, string) -> bool, jti: Guid, t: Tenant)
    requires TenantByCode(db, r.tenantCode) == Some(t)
    ensures (forall u | u in db.users :: !(u.username == r.username && u.tenantId == t.id))
      ==> Login(db, r, verify, jti) == Unauthorized(InvalidCredentialsError)
    ensures (forall u | u in db.users && u.username == r.username && u.tenantId == t.id :: !verify(r.password, u.passwordHash))
      ==> Login(db, r, verify, jti) == Unauthorized(InvalidCredentialsError)
  {
  }

  /** The role claim is the only claim of its type in an issued token. */
  lemma TokenHasOneRole(u: User, branches: seq<BranchInfo>, jti: Guid)
    ensures var claims := TokenClaims(u, branches, jti).claims;
      forall c | c in claims && SameClaimType(c.claimType, Policies.RoleClaim) :: c == claims[2]
  {
    var claims := TokenClaims(u, branches, jti).claims;
    DifferentTypes(NameIdentifierClaim, Policies.RoleClaim);
    DifferentTypes(NameClaim, Policies.RoleClaim);
    DifferentTypes(TenantClaim, Policies.RoleClaim);
    DifferentTypes(BranchIdsClaim, Policies.RoleClaim);
    DifferentTypes(TokenIdClaim, Policies.RoleClaim);
    forall c | c in claims && SameClaimType(c.claimType, Policies.RoleClaim) ensures c == claims[2] {
      var i :| 0 <= i < |claims| && claims[i] == c;
    }
  }

  /** The tenant claim of an issued token resolves to the user's tenant. */
  lemma TokenTenant(u: User, branches: seq<BranchInfo>, jti: Guid)
    ensures ClaimTenantId(TokenClaims(u, branches, jti)) == Some(u.tenantId)
  {
    var before := [Claim(NameIdentifierClaim, Format(u.id)), Claim(NameClaim, u.username),
                   Claim(Policies.RoleClaim, Roles.Name(u.role))];
    var after := TokenClaims(u, branches, jti).claims[4..];
    assert TokenClaims(u, branches, jti).claims == before + [Claim(TenantClaim, Format(u.tenantId))] + after;
    DifferentTypes(NameIdentifierClaim, TenantClaim);
    DifferentTypes(NameClaim, TenantClaim);
    DifferentTypes(Policies.RoleClaim, TenantClaim);
    ClaimOfTenant(before, u.tenantId, after);
  }



  /**
   * A token issued for `u` resolves to u's tenant, admits u to the patient
   * list and, exactly for Admin and User, to patient creation.
   */
  lemma TokenGrants(u: User, branches: seq<BranchInfo>, jti: Guid)
    ensures var p := TokenClaims(u, branches, jti);
      var token := Some(Policies.Token(true, p));
      && ClaimTenantId(p) == Some(u.tenantId)
      && Policies.Admit(token, Policies.RequirePolicy(Policies.CanViewPatient)).Admitted?
      && (u.role in {Roles.Admin, Roles.User}
          <==> Policies.Admit(token, Policies.RequirePolicy(Policies.CanCreatePatient)).Admitted?)
  {
    var p := TokenClaims(u, branches, jti);
    TokenTenant(u, branches, jti);
    TokenHasOneRole(u, branches, jti);
    assert p.claims[2] in p.claims;
    Policies.SingleRoleGrants(p, u.role);
  }

  /** The token of a successful login grants what `TokenGrants` says for the user who logged in. */
  lemma LoginTokenGrants(db: Db, r: LoginRequest, verify: (string, string) -> bool, jti: Guid)
    requires Login(db, r, verify, jti).Ok?
    ensures var resp := Login(db, r, verify, jti).body;
      var token := Some(Policies.Token(true, resp.token));
      && ClaimTenantId(resp.token) == Some(resp.tenantId)
      && Policies.Admit(token, Policies.RequirePolicy(Policies.CanViewPatient)).Admitted?
      && (resp.role == "Admin" || resp.role == "User"
          <==> Policies.Admit(token, Policies.RequirePolicy(Policies.CanCreatePatient)).Admitted?)
  {
    var t := TenantByCode(db, r.tenantCode).value;
    var u := First(db.users, LoginMatch, (r.username, t.id)).value;
    var resp := Login(db, r, verify, jti).body;
    assert resp.token == TokenClaims(u, LinkedBranches(db, u.id), jti);
    assert resp.role == Roles.Name(u.role) && resp.tenantId == u.tenantId;
    TokenGrants(u, LinkedBranches(db, u.id), jti);
  }

  /** Login succeeds for the only user of that name in the tenant when the password checks out. */
  lemma LoginSucceeds(db: Db, r: LoginRequest, verify: (string, string) -> bool, jti: Guid, t: Tenant, u: User)
    requires TenantByCode(db, r.tenantCode) == Some(t)
    requires u in db.users && u.username == r.username && u.tenantId == t.id
    requires forall v | v in db.users && v.username == r.username :: v == u
    requires verify(r.password, u.passwordHash)
    ensures Login(db, r, verify, jti).Ok?
    ensures Login(db, r, verify, jti).body.username == u.username
  {
    assert LoginMatch(u, (r.username, t.id));
  }

  /** A user registered with a password's digest can log in with that password in the tenant it registered with. */
  lemma RegisterThenLogin(db: Db, r: RegisterRequest, digest: string, now: nat, newId: nat -> Guid,
                          verify: (string, string) -> bool, jti: Guid)
    requires Register(db, r, digest, now, newId).response.Created?
    requires verify(r.password, digest)
    ensures var d := Register(db, r, digest, now, newId).db;
      Login(d, LoginRequest(r.username, r.password, r.tenantCode), verify, jti).Ok?
  {
    var d := Register(db, r, digest, now, newId).db;
    var t := TenantByCode(db, r.tenantCode).value;
    var u := User(newId(0), r.username, digest, r.username, Roles.Default, t.id, now);
    assert d.users == db.users + [u] && d.tenants == db.tenants;
    assert !UsernameTaken(db, r.username);
    forall v | v in d.users && v.username == r.username ensures v == u {
      assert v in db.users || v == u;
    }
    LoginSucceeds(d, LoginRequest(r.username, r.password, r.tenantCode), verify, jti, t, u);
  }

  // ----- POST /auth/users (Admin) -----

  predicate ListedBranchOf(b: Branch, arg: (Guid, seq<Guid>)) { b.tenantId == arg.0 && b.id in arg.1 }

  /** The number of the tenant's branches whose id the request lists. */
  function ValidBranchCount(db: Db, tenantId: Guid, ids: seq<Guid>): nat {
    |Where(db.branches, ListedBranchOf, (tenantId, ids))|
  }

  /**
   * With branch ids unique, the count check passes exactly when every listed
   * id is a branch of the tenant and no id is listed twice.
   */
  lemma BranchCountCheck(db: Db, t: Guid, ids: seq<Guid>)
    requires UniqueBy(db.branches, BranchKey)
    ensures ValidBranchCount(db, t, ids) == |ids| <==> Distinct(ids) && forall id | id in ids :: BranchOfTenant(db, id, t)
  {
    var w := Where(db.branches, ListedBranchOf, (t, ids));
    WhereUnique(db.branches, ListedBranchOf, (t, ids), BranchKey);
    UniqueKeysCard(w, BranchKey);
    var keys := KeySet(w, BranchKey);
    var listed := set id | id in ids;
    assert keys <= listed;
    SubsetCard(keys, listed);
    DistinctCard(ids);
    assert |listed| <= |ids|;
    if |w| == |ids| {
      SubsetCardEqual(keys, listed);
      forall id | id in ids ensures BranchOfTenant(db, id, t) {
        assert id in keys;
        var b :| b in w && b.id == id;
      }
    }
    if Distinct(ids) && forall id | id in ids :: BranchOfTenant(db, id, t) {
      forall id | id in listed ensures id in keys {
        var b :| b in db.branches && b.id == id && b.tenantId == t;
        assert b in w;
      }
      assert keys == listed;
    }
  }

  /** With no ids listed the count is zero, so the guard on an empty list changes nothing. */
  lemma NoIdsNoCount(db: Db, t: Guid)
    ensures ValidBranchCount(db, t, []) == 0
  {
    WhereNone(db.branches, ListedBranchOf, (t, []));
  }

  function NewLinks(userId: Guid, ids: seq<Guid>, newId: nat -> Guid, first: nat): (r: seq<UserBranch>)
    ensures |r| == |ids|
    ensures forall k | 0 <= k < |ids| :: r[k] == UserBranch(newId(first + k), userId, ids[k])
  {
    seq(|ids|, k requires 0 <= k < |ids| => UserBranch(newId(first + k), userId, ids[k]))
  }

  /** The ids `newId(first)` up to `newId(first + n - 1)` are pairwise distinct and no link has one of them yet. */
  predicate FreshLinkIds(db: Db, newId: nat -> Guid, first: nat, n: nat) {
    && (forall j, k | first <= j < k < first + n :: newId(j) != newId(k))
    && (forall ub, k | ub in db.userBranches && first <= k < first + n :: ub.id != newId(k))
  }

  /** The links `NewLinks` makes for distinct ids and fresh link ids can join any links of other users. */
  lemma NewLinksUnique(db: Db, userId: Guid, ids: seq<Guid>, newId: nat -> Guid, first: nat)
    requires UniqueIndexes(db) && FreshLinkIds(db, newId, first, |ids|) && Distinct(ids)
    requires forall ub | ub in db.userBranches :: ub.userId != userId
    ensures UniqueBy(db.userBranches + NewLinks(userId, ids, newId, first), LinkKey)
    ensures UniqueBy(db.userBranches + NewLinks(userId, ids, newId, first), LinkPairKey)
  {
    var added := NewLinks(userId, ids, newId, first);
    forall x, y | x in db.userBranches && y in added ensures LinkKey(x) != LinkKey(y) {
      var k :| 0 <= k < |added| && added[k] == y;
    }
    UniqueAppend(db.userBranches, added, LinkKey);
    UniqueAppend(db.userBranches, added, LinkPairKey);
  }

  /**
   * `CreateUser`, for an administrator whose token names `tenant`. The user
   * takes `newId(0)` and the link for the k-th listed branch `newId(k + 1)`.
   * Checks run in a fixed order: tenant, role, username, branches.
   */
  function CreateUser(db: Db, tenant: Option<Guid>, r: CreateUserRequest, digest: string, now: nat, newId: nat -> Guid)
    : (s: Step<UserResponse>)
    ensures !s.response.Created? ==> s.db == db
    ensures tenant.None? ==> s.response == Forbid
    ensures tenant.Some? && Roles.Parse(r.role).None? ==> s.response == BadRequest(InvalidRoleError)
    ensures tenant.Some? && Roles.Parse(r.role).Some? && UsernameTaken(db, r.username)
      ==> s.response == Conflict(UsernameExistsError)
    ensures tenant.Some? && Roles.Parse(r.role).Some? && !UsernameTaken(db, r.username)
        && ValidBranchCount(db, tenant.value, r.branchIds) != |r.branchIds|
      ==> s.response == BadRequest(ForeignBranchesError)
  {
    if tenant.None? then Step(Forbid, db)
    else
      NoIdsNoCount(db, tenant.value);
      var role := Roles.Parse(r.role);
      if role.None? then Step(BadRequest(InvalidRoleError), db)
      else if UsernameTaken(db, r.username) then Step(Conflict(UsernameExistsError), db)
      else if |r.branchIds| > 0 && ValidBranchCount(db, tenant.value, r.branchIds) != |r.branchIds| then
        Step(BadRequest(ForeignBranchesError), db)
      else
        var u := User(newId(0), r.username, digest, r.fullName, role.value, tenant.value, now);
        var pending := db.(users := db.users + [u], userBranches := db.userBranches + NewLinks(u.id, r.branchIds, newId, 1));
        if SaveError(pending).None? then Step(Created(UserResponseOf(pending, u)), pending)
        else Step(ServerError, db)
  }

  /**
   * A created user belongs to the administrator's tenant with the requested
   * role, and gets one link per listed branch, all distinct branches of that tenant.
   */
  lemma CreateUserOutcome(db: Db, tenant: Option<Guid>, r: CreateUserRequest, digest: string, now: nat, newId: nat -> Guid)
    requires UniqueBy(db.branches, BranchKey)
    requires CreateUser(db, tenant, r, digest, now, newId).response.Created?
    ensures var s := CreateUser(db, tenant, r, digest, now, newId);
      && tenant.Some?
      && s.db.users == db.users + [User(newId(0), r.username, digest, r.fullName, Roles.Parse(r.role).value, tenant.value, now)]
      && Roles.Name(s.db.users[|db.users|].role) == r.role
      && s.db.userBranches == db.userBranches + NewLinks(newId(0), r.branchIds, newId, 1)
      && Distinct(r.branchIds) && (forall id | id in r.branchIds :: BranchOfTenant(db, id, tenant.value))
      && s.db.tenants == db.tenants && s.db.branches == db.branches && s.db.patients == db.patients
  {
    BranchCountCheck(db, tenant.value, r.branchIds);
  }

  /**
   * The converse of `CreateUserOutcome`: on a consistent store, for an
   * existing tenant, a valid role, a free name, values that fit their
   * columns, distinct branches of that tenant and fresh ids, the create
   * always gives Created.
   */
  lemma CreateUserSucceeds(db: Db, tenant: Option<Guid>, r: CreateUserRequest, digest: string, now: nat, newId: nat -> Guid)
    requires Consistent(db)
    requires tenant.Some? && tenant.value in TenantIds(db)
    requires Roles.Parse(r.role).Some? && !UsernameTaken(db, r.username)
    requires Distinct(r.branchIds) && forall id | id in r.branchIds :: BranchOfTenant(db, id, tenant.value)
    requires |r.username| <= UsernameMax && |digest| <= PasswordHashMax && |r.fullName| <= FullNameMax
    requires newId(0) !in UserIds(db) && FreshLinkIds(db, newId, 1, |r.branchIds|)
    ensures CreateUser(db, tenant, r, digest, now, newId).response.Created?
  {
    BranchCountCheck(db, tenant.value, r.branchIds);
    var u := User(newId(0), r.username, digest, r.fullName, Roles.Parse(r.role).value, tenant.value, now);
    var added := NewLinks(u.id, r.branchIds, newId, 1);
    NewLinksUnique(db, u.id, r.branchIds, newId, 1);
    forall l | l in added ensures l.userId == u.id && l.branchId in BranchIds(db) {
      var k :| 0 <= k < |added| && added[k] == l;
      assert r.branchIds[k] in r.branchIds;
    }
    NewUserEnforced(db, u, added);
  }

  // ----- PUT /auth/users/{id}/role (Admin) -----

  /** `AssignRole`: the role is checked before the user is looked up; no tenant check is made. */
  function AssignRole(db: Db, id: Guid, r: AssignRoleRequest): (s: Step<UserResponse>)
    ensures !s.response.Ok? ==> s.db == db
    ensures Roles.Parse(r.role).None? ==> s.response == BadRequest(InvalidRoleError)
    ensures Roles.Parse(r.role).Some? && UserIndex(db.users, id).None? ==> s.response == NotFound(UserNotFoundError)
    ensures s.response.Ok? ==>
      var i := UserIndex(db.users, id).value;
      s.db == db.(users := db.users[i := db.users[i].(role := Roles.Parse(r.role).value)])
  {
    var role := Roles.Parse(r.role);
    if role.None? then Step(BadRequest(InvalidRoleError), db)
    else
      var i := UserIndex(db.users, id);
      if i.None? then Step(NotFound(UserNotFoundError), db)
      else
        var u := db.users[i.value].(role := role.value);
        var pending := db.(users := db.users[i.value := u]);
        if SaveError(pending).None? then Step(Ok(UserResponseOf(pending, u)), pending)
        else Step(ServerError, db)
  }

  /** Rewriting a user row in place, keeping its keys, keeps every database constraint. */
  lemma UpdateUserKeepsEnforced(db: Db, i: nat, u: User)
    requires Enforced(db) && i < |db.users|
    requires u.id == db.users[i].id && u.username == db.users[i].username
    requires UserFits(u) && u.tenantId in TenantIds(db)
    ensures Enforced(db.(users := db.users[i := u]))
  {
    var d := db.(users := db.users[i := u]);
    UniqueUpdate(db.users, i, u, UserKey);
    UniqueUpdate(db.users, i, u, UsernameKey);
    assert UserIds(d) == UserIds(db) by {
      forall x | x in UserIds(db) ensures x in UserIds(d) {
        var v :| v in db.users && v.id == x;
        var k :| 0 <= k < |db.users| && db.users[k] == v;
        assert d.users[k].id == x;
      }
    }
  }

  /** Changing a role never breaks a constraint, so on a consistent store a known user with a valid role always succeeds, in any tenant. */
  lemma AssignRoleSucceeds(db: Db, id: Guid, r: AssignRoleRequest)
    requires Consistent(db)
    requires Roles.Parse(r.role).Some? && UserIndex(db.users, id).Some?
    ensures AssignRole(db, id, r).response.Ok?
    ensures Consistent(AssignRole(db, id, r).db)
  {
    var i := UserIndex(db.users, id).value;
    var u := db.users[i].(role := Roles.Parse(r.role).value);
    assert db.users[i] in db.users;
    UpdateUserKeepsEnforced(db, i, u);
  }

  // ----- POST /auth/users/{id}/branches (Admin) -----

  /**
   * The links the loop adds for the listed ids that are not among `existing`;
   * the link for the k-th listed id takes `newId(k)`.
   */
  function MissingLinks(userId: Guid, ids: seq<Guid>, existing: set<Guid>, newId: nat -> Guid): (r: seq<UserBranch>)
    ensures forall l | l in r :: l.userId == userId && l.branchId in ids && l.branchId !in existing
    ensures forall id | id in ids && id !in existing :: exists l | l in r :: l.branchId == id
    ensures (set id | id in ids) <= existing ==> r == []
    decreases |ids|
  {
    if ids == [] then []
    else
      var init, last := ids[..|ids| - 1], ids[|ids| - 1];
      assert ids == init + [last];
      assert (set id | id in ids) == (set id | id in init) + {last};
      MissingLinks(userId, init, existing, newId)
        + (if last in existing then [] else [UserBranch(newId(|ids| - 1), userId, last)])
  }

  /** The k-th listed id, when missing, gets the link id `newId(k)`. */
  lemma {:induction false} MissingLinksIds(userId: Guid, ids: seq<Guid>, existing: set<Guid>, newId: nat -> Guid)
    ensures forall l | l in MissingLinks(userId, ids, existing, newId) ::
      exists k | 0 <= k < |ids| :: l.id == newId(k) && l.branchId == ids[k]
    decreases |ids|
  {
    if ids != [] {
      var init, last := ids[..|ids| - 1], ids[|ids| - 1];
      MissingLinksIds(userId, init, existing, newId);
      var r0 := MissingLinks(userId, init, existing, newId);
      forall l | l in MissingLinks(userId, ids, existing, newId)
        ensures exists k | 0 <= k < |ids| :: l.id == newId(k) && l.branchId == ids[k]
      {
        if l in r0 {
          var k :| 0 <= k < |init| && l.id == newId(k) && l.branchId == init[k];
          assert ids[k] == init[k];
        } else {
          assert l.id == newId(|ids| - 1) && l.branchId == ids[|ids| - 1];
        }
      }
    }
  }

  /** For distinct ids and distinct link ids, the added links repeat neither a link id nor a pair. */
  lemma {:induction false} MissingLinksKeys(userId: Guid, ids: seq<Guid>, existing: set<Guid>, newId: nat -> Guid)
    requires Distinct(ids)
    requires forall j, k | 0 <= j < k < |ids| :: newId(j) != newId(k)
    ensures UniqueBy(MissingLinks(userId, ids, existing, newId), LinkKey)
    ensures UniqueBy(MissingLinks(userId, ids, existing, newId), LinkPairKey)
    decreases |ids|
  {
    if ids != [] {
      var init, last := ids[..|ids| - 1], ids[|ids| - 1];
      assert Distinct(init) by {
        forall i, j | 0 <= i < j < |init| ensures init[i] != init[j] { assert init[i] == ids[i] && init[j] == ids[j]; }
      }
      MissingLinksKeys(userId, init, existing, newId);
      var r0 := MissingLinks(userId, init, existing, newId);
      if last !in existing {
        var l := UserBranch(newId(|ids| - 1), userId, last);
        assert MissingLinks(userId, ids, existing, newId) == r0 + [l];
        MissingLinksIds(userId, init, existing, newId);
        forall y | y in r0 ensures LinkKey(y) != LinkKey(l) && LinkPairKey(y) != LinkPairKey(l) {
          var k :| 0 <= k < |init| && y.id == newId(k) && y.branchId == init[k];
          assert ids[k] == init[k];
        }
        UniqueSnoc(r0, l, LinkKey);
        UniqueSnoc(r0, l, LinkPairKey);
      } else {
        assert MissingLinks(userId, ids, existing, newId) == r0;
      }
    }
  }

  /** The links added for distinct ids with fresh link ids repeat no link id and no pair already stored. */
  lemma MissingLinksAppend(db: Db, userId: Guid, ids: seq<Guid>, newId: nat -> Guid)
    requires UniqueIndexes(db) && Distinct(ids) && FreshLinkIds(db, newId, 0, |ids|)
    ensures UniqueBy(db.userBranches + MissingLinks(userId, ids, BranchSet(db, userId), newId), LinkKey)
    ensures UniqueBy(db.userBranches + MissingLinks(userId, ids, BranchSet(db, userId), newId), LinkPairKey)
  {
    var existing := BranchSet(db, userId);
    var added := MissingLinks(userId, ids, existing, newId);
    MissingLinksKeys(userId, ids, existing, newId);
    MissingLinksIds(userId, ids, existing, newId);
    forall x, y | x in db.userBranches && y in added ensures LinkKey(x) != LinkKey(y) && LinkPairKey(x) != LinkPairKey(y) {
      var k :| 0 <= k < |ids| && y.id == newId(k) && y.branchId == ids[k];
      if x.userId == userId { assert x.branchId in existing; }
    }
    UniqueAppend(db.userBranches, added, LinkKey);
    UniqueAppend(db.userBranches, added, LinkPairKey);
  }

  /** Appending links between existing users and branches that repeat no link id and no pair passes every constraint. */
  lemma NewLinksEnforced(db: Db, links: seq<UserBranch>)
    requires Enforced(db)
    requires UniqueBy(db.userBranches + links, LinkKey) && UniqueBy(db.userBranches + links, LinkPairKey)
    requires forall l | l in links :: l.userId in UserIds(db) && l.branchId in BranchIds(db)
    ensures Enforced(db.(userBranches := db.userBranches + links))
  {
  }

  /**
   * `AddBranches`, for an administrator whose token names `tenant`: unknown
   * user, user of another tenant, branches outside the tenant, in that order.
   */
  function AddBranches(db: Db, tenant: Option<Guid>, id: Guid, r: AddBranchesRequest, newId: nat -> Guid)
    : (s: Step<UserResponse>)
    ensures !s.response.Ok? ==> s.db == db
    ensures tenant.None? ==> s.response == Forbid
    ensures tenant.Some? && UserIndex(db.users, id).None? ==> s.response == NotFound(UserNotFoundError)
    ensures tenant.Some? && UserIndex(db.users, id).Some? && db.users[UserIndex(db.users, id).value].tenantId != tenant.value
      ==> s.response == Forbid
    ensures tenant.Some? && UserIndex(db.users, id).Some? && db.users[UserIndex(db.users, id).value].tenantId == tenant.value
      && ValidBranchCount(db, tenant.value, r.branchIds) != |r.branchIds|
      ==> s.response == BadRequest(ForeignBranchesError)
  {
    if tenant.None? then Step(Forbid, db)
    else
      var i := UserIndex(db.users, id);
      if i.None? then Step(NotFound(UserNotFoundError), db)
      else if db.users[i.value].tenantId != tenant.value then Step(Forbid, db)
      else if ValidBranchCount(db, tenant.value, r.branchIds) != |r.branchIds| then
        Step(BadRequest(ForeignBranchesError), db)
      else
        var pending := db.(userBranches := db.userBranches + MissingLinks(id, r.branchIds, BranchSet(db, id), newId));
        if SaveError(pending).None? then Step(Ok(UserResponseOf(pending, db.users[i.value])), pending)
        else Step(ServerError, db)
  }

  /**
   * On success the user is in the caller's tenant, the requested ids are
   * distinct branches of that tenant, the user's branch set becomes the old
   * set together with them, and no pair is linked twice.
   */
  lemma AddBranchesUnion(db: Db, tenant: Option<Guid>, id: Guid, r: AddBranchesRequest, newId: nat -> Guid)
    requires AddBranches(db, tenant, id, r, newId).response.Ok?
    ensures tenant.Some? && UserIndex(db.users, id).Some?
    ensures db.users[UserIndex(db.users, id).value].tenantId == tenant.value
    ensures Distinct(r.branchIds) && forall b | b in r.branchIds :: BranchOfTenant(db, b, tenant.value)
    ensures var d := AddBranches(db, tenant, id, r, newId).db;
      && BranchSet(d, id) == BranchSet(db, id) + set b | b in r.branchIds
      && UniqueBy(d.userBranches, LinkPairKey)
      && d.users == db.users && d.branches == db.branches && d.patients == db.patients
  {
    var d := AddBranches(db, tenant, id, r, newId).db;
    assert UniqueBy(d.branches, BranchKey) && d.branches == db.branches;
    BranchCountCheck(db, tenant.value, r.branchIds);
    var added := MissingLinks(id, r.branchIds, BranchSet(db, id), newId);
    assert d.userBranches == db.userBranches + added;
    forall b | b in BranchSet(d, id) ensures b in BranchSet(db, id) + set b | b in r.branchIds {
      var ub :| ub in d.userBranches && ub.userId == id && ub.branchId == b;
      if ub !in db.userBranches { assert ub in added; }
    }
    forall b | b in BranchSet(db, id) + set b | b in r.branchIds ensures b in BranchSet(d, id) {
      if b !in BranchSet(db, id) {
        var l :| l in added && l.branchId == b;
        assert l in d.userBranches;
      } else {
        var ub :| ub in db.userBranches && ub.userId == id && ub.branchId == b;
        assert ub in d.userBranches;
      }
    }
  }

  /**
   * The converse of `AddBranchesUnion`: on a consistent store, for a user of
   * the caller's tenant, distinct branches of that tenant and fresh link ids,
   * the assignment always succeeds.
   */
  lemma AddBranchesSucceeds(db: Db, tenant: Option<Guid>, id: Guid, r: AddBranchesRequest, newId: nat -> Guid)
    requires Consistent(db)
    requires tenant.Some? && UserIndex(db.users, id).Some?
    requires db.users[UserIndex(db.users, id).value].tenantId == tenant.value
    requires Distinct(r.branchIds) && forall b | b in r.branchIds :: BranchOfTenant(db, b, tenant.value)
    requires FreshLinkIds(db, newId, 0, |r.branchIds|)
    ensures AddBranches(db, tenant, id, r, newId).response.Ok?
  {
    BranchCountCheck(db, tenant.value, r.branchIds);
    var added := MissingLinks(id, r.branchIds, BranchSet(db, id), newId);
    MissingLinksAppend(db, id, r.branchIds, newId);
    assert db.users[UserIndex(db.users, id).value] in db.users;
    NewLinksEnforced(db, added);
  }

  /** Repeating a successful request changes nothing and succeeds again. */
  lemma AddBranchesIdempotent(db: Db, tenant: Option<Guid>, id: Guid, r: AddBranchesRequest, newId: nat -> Guid, newId': nat -> Guid)
    requires AddBranches(db, tenant, id, r, newId).response.Ok?
    ensures var d := AddBranches(db, tenant, id, r, newId).db;
      AddBranches(d, tenant, id, r, newId') == Step(AddBranches(db, tenant, id, r, newId).response, d)
  {
    var s := AddBranches(db, tenant, id, r, newId);
    var d := s.db;
    var i := UserIndex(db.users, id).value;
    var pending := db.(userBranches := db.userBranches + MissingLinks(id, r.branchIds, BranchSet(db, id), newId));
    assert s == Step(Ok(UserResponseOf(pending, db.users[i])), pending) && SaveError(pending).None?;
    AddBranchesUnion(db, tenant, id, r, newId);
    assert MissingLinks(id, r.branchIds, BranchSet(d, id), newId') == [];
    assert d.(userBranches := d.userBranches + []) == d;
    assert UserIndex(d.users, id) == Some(i) && d.users[i] == db.users[i];
    assert ValidBranchCount(d, tenant.value, r.branchIds) == ValidBranchCount(db, tenant.value, r.branchIds);
  }

  // ----- PUT /auth/users/{id}/tenant (Admin) -----

  predicate HasPair(ub: UserBranch, pair: (Guid, Guid)) { ub.userId == pair.0 && ub.branchId == pair.1 }

  /**
   * `AssignTenant`: moves the user to the requested tenant and saves; then,
   * when a branch is given and not yet linked, adds the link and saves again.
   * No tenant check is made. A failed second save leaves the move in place.
   */
  function AssignTenant(db: Db, id: Guid, r: AssignTenantRequest, newId: nat -> Guid): (s: Step<UserResponse>)
    ensures UserIndex(db.users, id).None? ==> s == Step(NotFound(UserNotFoundError), db)
    ensures s.response.Ok? ==>
      var i := UserIndex(db.users, id).value;
      && s.db.users == db.users[i := db.users[i].(tenantId := r.tenantId)]
      && s.db.userBranches == db.userBranches +
           (if r.branchId.Some? && First(db.userBranches, HasPair, (id, r.branchId.value)).None?
            then [UserBranch(newId(0), id, r.branchId.value)] else [])
      && s.db.tenants == db.tenants && s.db.branches == db.branches && s.db.patients == db.patients
    ensures UserIndex(db.users, id).Some? ==>
      var i := UserIndex(db.users, id).value;
      var moved := db.(users := db.users[i := db.users[i].(tenantId := r.tenantId)]);
      && (SaveError(moved).Some? ==> s == Step(ServerError, db))
      && (SaveError(moved).None? && s.response.ServerError? ==> s.db == moved)
  {
    var i := UserIndex(db.users, id);
    if i.None? then Step(NotFound(UserNotFoundError), db)
    else
      var u := db.users[i.value].(tenantId := r.tenantId);
      var moved := db.(users := db.users[i.value := u]);
      if SaveError(moved).Some? then Step(ServerError, db)
      else if r.branchId.Some? && First(moved.userBranches, HasPair, (id, r.branchId.value)).None? then
        var pending := moved.(userBranches := moved.userBranches + [UserBranch(newId(0), id, r.branchId.value)]);
        if SaveError(pending).None? then Step(Ok(UserResponseOf(pending, u)), pending)
        else Step(ServerError, moved)
      else Step(Ok(UserResponseOf(moved, u)), moved)
  }

  /**
   * Any administrator can move a user of any tenant to any existing tenant:
   * on a consistent store the move succeeds whatever tenant the user was in.
   */
  lemma AssignTenantCrossesTenants(db: Db, id: Guid, target: Guid, newId: nat -> Guid)
    requires Consistent(db) && UserIndex(db.users, id).Some? && target in TenantIds(db)
    ensures var s := AssignTenant(db, id, AssignTenantRequest(target, None), newId);
      s.response.Ok? && s.response.body.tenantId == target && Consistent(s.db)
  {
    var i := UserIndex(db.users, id).value;
    var u := db.users[i].(tenantId := target);
    assert db.users[i] in db.users;
    UpdateUserKeepsEnforced(db, i, u);
  }

  /**
   * A move to a tenant that does not exist breaks the user's foreign key, so
   * the first save fails and nothing changes.
   */
  lemma AssignTenantToUnknownTenant(db: Db, id: Guid, r: AssignTenantRequest, newId: nat -> Guid)
    requires Consistent(db) && UserIndex(db.users, id).Some? && r.tenantId !in TenantIds(db)
    ensures AssignTenant(db, id, r, newId) == Step(ServerError, db)
  {
    var i := UserIndex(db.users, id).value;
    var moved := db.(users := db.users[i := db.users[i].(tenantId := r.tenantId)]);
    assert moved.users[i] in moved.users;
    assert !ForeignKeys(moved);
  }

  /**
   * A move with a branch the user is not yet linked to succeeds on a
   * consistent store for an existing tenant and branch and a fresh link id:
   * the user moves and exactly that link is added.
   */
  lemma AssignTenantLinksBranch(db: Db, id: Guid, target: Guid, b: Guid, newId: nat -> Guid)
    requires Consistent(db) && UserIndex(db.users, id).Some?
    requires target in TenantIds(db) && b in BranchIds(db)
    requires First(db.userBranches, HasPair, (id, b)).None?
    requires forall l | l in db.userBranches :: l.id != newId(0)
    ensures var s := AssignTenant(db, id, AssignTenantRequest(target, Some(b)), newId);
      && s.response.Ok? && s.response.body.tenantId == target
      && s.db.userBranches == db.userBranches + [UserBranch(newId(0), id, b)]
  {
    var i := UserIndex(db.users, id).value;
    var u := db.users[i].(tenantId := target);
    assert db.users[i] in db.users;
    UpdateUserKeepsEnforced(db, i, u);
    var moved := db.(users := db.users[i := u]);
    assert moved.users[i] == u;
    var link := UserBranch(newId(0), id, b);
    UniqueSnoc(db.userBranches, link, LinkKey);
    UniqueSnoc(db.userBranches, link, LinkPairKey);
    assert id in UserIds(moved);
    NewLinksEnforced(moved, [link]);
  }

  /** A move with a branch the user is already linked to adds no link and succeeds like a move without one. */
  lemma AssignTenantAlreadyLinked(db: Db, id: Guid, target: Guid, b: Guid, newId: nat -> Guid)
    requires Consistent(db) && UserIndex(db.users, id).Some? && target in TenantIds(db)
    requires First(db.userBranches, HasPair, (id, b)).Some?
    ensures var s := AssignTenant(db, id, AssignTenantRequest(target, Some(b)), newId);
      && s.response.Ok? && s.response.body.tenantId == target
      && s.db.userBranches == db.userBranches
  {
    var i := UserIndex(db.users, id).value;
    var u := db.users[i].(tenantId := target);
    assert db.users[i] in db.users;
    UpdateUserKeepsEnforced(db, i, u);
  }

  /** A successful reassignment leaves every (user, branch) pair linked at most once and the store consistent. */
  lemma AssignTenantKeepsConsistent(db: Db, id: Guid, r: AssignTenantRequest, newId: nat -> Guid)
    requires Consistent(db)
    ensures Consistent(AssignTenant(db, id, r, newId).db)
  {
  }

  // ----- Every account endpoint keeps the store consistent -----

  /** A save that touches neither branches nor patients keeps the store consistent. */
  lemma AccountSaveKeepsConsistent(db: Db, d: Db)
    requires Consistent(db) && Enforced(d)
    requires d.branches == db.branches && d.patients == db.patients
    ensures Consistent(d)
  {
  }

  lemma RegisterKeepsConsistent(db: Db, r: RegisterRequest, digest: string, now: nat, newId: nat -> Guid)
    requires Consistent(db)
    ensures Consistent(Register(db, r, digest, now, newId).db)
  {
  }

  lemma CreateUserKeepsConsistent(db: Db, tenant: Option<Guid>, r: CreateUserRequest, digest: string, now: nat, newId: nat -> Guid)
    requires Consistent(db)
    ensures Consistent(CreateUser(db, tenant, r, digest, now, newId).db)
  {
  }

  lemma AddBranchesKeepsConsistent(db: Db, tenant: Option<Guid>, id: Guid, r: AddBranchesRequest, newId: nat -> Guid)
    requires Consistent(db)
    ensures Consistent(AddBranches(db, tenant, id, r, newId).db)
  {
  }
}
