/**
 * `DbSeeder.SeedAsync`: two clinics with two branches each, four staff
 * accounts, their branch links and three sample patients, written in two
 * saves, unless the store already holds the user "admin@aura".
 *
 * The seeded ids that are not fixed in the source, the password digests and
 * the clock are inputs: `newId(k)` is the k-th generated id (users 0-3,
 * links 4-9, patients 10-12), `digest(k)` the hash of the k-th user's
 * password. Every entity stamps its creation time when it is constructed,
 * so the k-th row built (tenants, branches, users, then patients) carries
 * the clock reading `now + k`.
 */
module Seeding {
  import opened Wrappers
  import opened Guids
  import opened Entities
  import opened Schema
  import opened Sequences
  import Roles
  import Patients

  /** A Guid whose text form is `LLLL0000-0000-0000-0000-00000000000N`. */
  function BranchGuid(lead: Nibble, last: Nibble): Guid {
    seq(32, i requires 0 <= i < 32 => if i < 4 then lead else if i == 31 then last else 0)
  }

  /** A Guid whose 32 digits are all `d`. */
  function Repeated(d: Nibble): Guid {
    seq(32, i requires 0 <= i < 32 => d)
  }

  const Tenant1: Guid := Repeated(1)
  const Tenant1BranchA: Guid := BranchGuid(0xa, 1)
  const Tenant1BranchB: Guid := BranchGuid(0xa, 2)
  const Tenant2: Guid := Repeated(2)
  const Tenant2BranchA: Guid := BranchGuid(0xb, 1)
  const Tenant2BranchB: Guid := BranchGuid(0xb, 2)

  /** A Guid whose printed form is `text` is what `Guid.Parse(text)` returns. */
  lemma ParsesTo(g: Guid, text: string)
    requires |text| == TextLength
    requires forall j | 0 <= j < TextLength :: text[j] == Format(g)[j]
    ensures TryParse(Some(text)) == Some(g)
  {
    assert text == Format(g);
    ParseFormat(g);
  }

  /** The first clinic's id is the one the seeder parses from its text. */
  lemma Tenant1Parses()
    ensures TryParse(Some("11111111-1111-1111-1111-111111111111")) == Some(Tenant1)
  {
    ParsesTo(Tenant1, "11111111-1111-1111-1111-111111111111");
  }

  /** The first clinic's first branch id is the one the seeder parses from its text. */
  lemma Tenant1BranchAParses()
    ensures TryParse(Some("aaaa0000-0000-0000-0000-000000000001")) == Some(Tenant1BranchA)
  {
    ParsesTo(Tenant1BranchA, "aaaa0000-0000-0000-0000-000000000001");
  }

  /** The first clinic's second branch id is the one the seeder parses from its text. */
  lemma Tenant1BranchBParses()
    ensures TryParse(Some("aaaa0000-0000-0000-0000-000000000002")) == Some(Tenant1BranchB)
  {
    ParsesTo(Tenant1BranchB, "aaaa0000-0000-0000-0000-000000000002");
  }

  /** The second clinic's id is the one the seeder parses from its text. */
  lemma Tenant2Parses()
    ensures TryParse(Some("22222222-2222-2222-2222-222222222222")) == Some(Tenant2)
  {
    ParsesTo(Tenant2, "22222222-2222-2222-2222-222222222222");
  }

  /** The second clinic's first branch id is the one the seeder parses from its text. */
  lemma Tenant2BranchAParses()
    ensures TryParse(Some("bbbb0000-0000-0000-0000-000000000001")) == Some(Tenant2BranchA)
  {
    ParsesTo(Tenant2BranchA, "bbbb0000-0000-0000-0000-000000000001");
  }

  /** The second clinic's second branch id is the one the seeder parses from its text. */
  lemma Tenant2BranchBParses()
    ensures TryParse(Some("bbbb0000-0000-0000-0000-000000000002")) == Some(Tenant2BranchB)
  {
    ParsesTo(Tenant2BranchB, "bbbb0000-0000-0000-0000-000000000002");
  }

  // ----- The seeded rows -----

  function SeedTenants(now: nat): seq<Tenant> {
    [ Tenant(Tenant1, "AURA", "Aura Clinic Bangkok", now),
      Tenant(Tenant2, "SLM", "Clinic Silom", now + 1) ]
  }

  function SeedBranches(now: nat): seq<Branch> {
    [ Branch(Tenant1BranchA, Tenant1, "Siam Branch", Some("Siam Square, Bangkok"), Some("02-111-1111"), now + 2),
      Branch(Tenant1BranchB, Tenant1, "Thonglor Branch", Some("Thonglor, Bangkok"), Some("02-222-2222"), now + 3),
      Branch(Tenant2BranchA, Tenant2, "Silom Main", Some("Silom Road, Bangkok"), Some("02-333-3333"), now + 4),
      Branch(Tenant2BranchB, Tenant2, "Sathorn Branch", Some("Sathorn, Bangkok"), Some("02-444-4444"), now + 5) ]
  }

  const SeedAdmin := "admin@aura"

  function SeedUsers(newId: nat -> Guid, digest: nat -> string, now: nat): seq<User> {
    [ User(newId(0), SeedAdmin, digest(0), "Admin Aura", Roles.Admin, Tenant1, now + 6),
      User(newId(1), "user@aura", digest(1), "User Aura", Roles.User, Tenant1, now + 7),
      User(newId(2), "viewer@aura", digest(2), "Viewer Aura", Roles.Viewer, Tenant1, now + 8),
      User(newId(3), "admin@silom", digest(3), "Admin Silom", Roles.Admin, Tenant2, now + 9) ]
  }

  function SeedLinks(newId: nat -> Guid): seq<UserBranch> {
    [ UserBranch(newId(4), newId(0), Tenant1BranchA),
      UserBranch(newId(5), newId(0), Tenant1BranchB),
      UserBranch(newId(6), newId(1), Tenant1BranchA),
      UserBranch(newId(7), newId(2), Tenant1BranchB),
      UserBranch(newId(8), newId(3), Tenant2BranchA),
      UserBranch(newId(9), newId(3), Tenant2BranchB) ]
  }

  function SeedPatients(newId: nat -> Guid, now: nat): seq<Patient> {
    [ Patient(newId(10), Tenant1, "สมชาย", "ใจดี", "081-111-1111", now + 10, Some(Tenant1BranchA)),
      Patient(newId(11), Tenant1, "สมหญิง", "รักสวย", "081-222-2222", now + 11, Some(Tenant1BranchB)),
      Patient(newId(12), Tenant1, "วิชัย", "สุขสันต์", "081-333-3333", now + 12, Some(Tenant1BranchA)) ]
  }

  /** The guard of `SeedAsync`: the seed's admin account exists. */
  predicate Seeded(db: Db) {
    exists u | u in db.users :: u.username == SeedAdmin
  }

  /**
   * Two consecutive saves: tenants, branches and users first, then links
   * and patients. A save that fails throws, so the store keeps what the
   * earlier saves wrote; a save that succeeds leaves every constraint met.
   */
  function SaveBatches(db: Db, ts: seq<Tenant>, bs: seq<Branch>, us: seq<User>,
                       ls: seq<UserBranch>, ps: seq<Patient>): (d: Db)
    ensures d == db || Enforced(d)
    ensures d != db ==> (
      && d.tenants == db.tenants + ts && d.branches == db.branches + bs && d.users == db.users + us
      && ((d.userBranches == db.userBranches && d.patients == db.patients)
          || (d.userBranches == db.userBranches + ls && d.patients == db.patients + ps)))
  {
    var first := db.(tenants := db.tenants + ts, branches := db.branches + bs, users := db.users + us);
    if SaveError(first).Some? then db
    else
      var second := first.(userBranches := first.userBranches + ls, patients := first.patients + ps);
      if SaveError(second).Some? then first else second
  }

  /** On an empty store, when both batches meet the constraints, both are written. */
  lemma SaveBatchesFromEmpty(ts: seq<Tenant>, bs: seq<Branch>, us: seq<User>, ls: seq<UserBranch>, ps: seq<Patient>)
    requires Enforced(Db(ts, bs, us, [], [])) && Enforced(Db(ts, bs, us, ls, ps))
    ensures SaveBatches(EmptyDb, ts, bs, us, ls, ps) == Db(ts, bs, us, ls, ps)
  {
    assert EmptyDb.(tenants := [] + ts, branches := [] + bs, users := [] + us) == Db(ts, bs, us, [], []);
    assert Db(ts, bs, us, [] + ls, [] + ps) == Db(ts, bs, us, ls, ps);
  }

  /**
   * `SeedAsync`: nothing when the store is already seeded; otherwise the
   * seed rows in two saves. A run that writes anything writes the admin
   * account, so the guard stops every later run.
   */
  function Seed(db: Db, newId: nat -> Guid, digest: nat -> string, now: nat): (d: Db)
    ensures Seeded(db) ==> d == db
    ensures d != db ==> Seeded(d) && Enforced(d) && d.tenants == db.tenants + SeedTenants(now)
  {
    if Seeded(db) then db
    else
      var d := SaveBatches(db, SeedTenants(now), SeedBranches(now), SeedUsers(newId, digest, now),
                           SeedLinks(newId), SeedPatients(newId, now));
      assert d != db ==> d.users[|db.users|] == SeedUsers(newId, digest, now)[0];
      d
  }

  /** Each table of `db` followed by the same table of `rows`. */
  function Append(db: Db, rows: Db): Db {
    Db(db.tenants + rows.tenants, db.branches + rows.branches, db.users + rows.users,
       db.userBranches + rows.userBranches, db.patients + rows.patients)
  }

  /**
   * What `SeedAsync` throws, if anything: the first save's failure, else the
   * second's. The exception leaves `Program.cs` unhandled, so the host stops
   * before serving any request. Without a failure an unseeded store gets
   * every seed row; with one it does not.
   */
  function SeedFailure(db: Db, newId: nat -> Guid, digest: nat -> string, now: nat): (f: Option<SaveFailure>)
    ensures Seeded(db) ==> f.None?
    ensures !Seeded(db) && f.None? ==> Seed(db, newId, digest, now) == Append(db, SeededDb(newId, digest, now))
    ensures f.Some? ==> !Seeded(db) && Seed(db, newId, digest, now) != Append(db, SeededDb(newId, digest, now))
  {
    if Seeded(db) then None
    else
      var first := db.(tenants := db.tenants + SeedTenants(now), branches := db.branches + SeedBranches(now),
                       users := db.users + SeedUsers(newId, digest, now));
      var second := first.(userBranches := first.userBranches + SeedLinks(newId),
                           patients := first.patients + SeedPatients(newId, now));
      assert second == Append(db, SeededDb(newId, digest, now));
      assert |SeedLinks(newId)| > 0 && |SeedTenants(now)| > 0;
      if SaveError(first).Some? then SaveError(first) else SaveError(second)
  }

  /** Seeding twice is seeding once: once a run has written the seed, every later run leaves the store alone. */
  lemma SeedIdempotent(db: Db, newId: nat -> Guid, digest: nat -> string, now: nat,
                       newId': nat -> Guid, digest': nat -> string, now': nat)
    requires Seed(db, newId, digest, now) != db || Seeded(db)
    ensures Seed(Seed(db, newId, digest, now), newId', digest', now') == Seed(db, newId, digest, now)
  {
  }

  /** The environment the first run needs: distinct generated ids per table and digests that fit their column. */
  predicate GoodEnvironment(newId: nat -> Guid, digest: nat -> string) {
    && DistinctIds(newId, 0, 4) && DistinctIds(newId, 4, 6) && DistinctIds(newId, 10, 3)
    && (forall k | 0 <= k < 4 :: |digest(k)| <= PasswordHashMax)
  }

  /** The five tables after the first run on an empty store. */
  function SeededDb(newId: nat -> Guid, digest: nat -> string, now: nat): Db {
    Db(SeedTenants(now), SeedBranches(now), SeedUsers(newId, digest, now), SeedLinks(newId), SeedPatients(newId, now))
  }

  /** The six fixed ids are pairwise different. */
  lemma FixedIdsDistinct()
    ensures Tenant1 != Tenant2
    ensures Tenant1BranchA != Tenant1BranchB && Tenant1BranchA != Tenant2BranchA && Tenant1BranchA != Tenant2BranchB
    ensures Tenant1BranchB != Tenant2BranchA && Tenant1BranchB != Tenant2BranchB && Tenant2BranchA != Tenant2BranchB
  {
    assert Tenant1[0] == 1 && Tenant2[0] == 2;
    assert Tenant1BranchA[0] == Tenant1BranchB[0] == 0xa && Tenant2BranchA[0] == Tenant2BranchB[0] == 0xb;
    assert Tenant1BranchA[31] == Tenant2BranchA[31] == 1 && Tenant1BranchB[31] == Tenant2BranchB[31] == 2;
  }

  /** Distinct generated ids for the rows of one table. */
  predicate DistinctIds(newId: nat -> Guid, from: nat, count: nat) {
    forall i, j | from <= i < j < from + count :: newId(i) != newId(j)
  }

  lemma TenantRows(now: nat)
    ensures var ts := SeedTenants(now);
      && (forall t | t in ts :: TenantFits(t))
      && UniqueBy(ts, TenantKey) && UniqueBy(ts, TenantCodeKey)
  {
    FixedIdsDistinct();
  }

  lemma BranchRows(now: nat)
    ensures var bs := SeedBranches(now);
      && (forall b | b in bs :: BranchFits(b))
      && UniqueBy(bs, BranchKey)
  {
    FixedIdsDistinct();
  }

  lemma UserRows(newId: nat -> Guid, digest: nat -> string, now: nat)
    requires DistinctIds(newId, 0, 4)
    requires forall k | 0 <= k < 4 :: |digest(k)| <= PasswordHashMax
    ensures var us := SeedUsers(newId, digest, now);
      && (forall u | u in us :: UserFits(u))
      && UniqueBy(us, UserKey) && UniqueBy(us, UsernameKey)
  {
  }

  lemma LinkRows(newId: nat -> Guid)
    requires DistinctIds(newId, 0, 4) && DistinctIds(newId, 4, 6)
    ensures var ls := SeedLinks(newId);
      && UniqueBy(ls, LinkKey) && UniqueBy(ls, LinkPairKey)
  {
    FixedIdsDistinct();
  }

  lemma PatientRows(newId: nat -> Guid, now: nat)
    requires DistinctIds(newId, 10, 3)
    ensures var ps := SeedPatients(newId, now);
      && (forall p | p in ps :: PatientFits(p))
      && UniqueBy(ps, PatientKey) && UniqueBy(ps, PatientPhoneKey)
  {
  }

  lemma BranchTenantsExist(db: Db, now: nat)
    requires db.tenants == SeedTenants(now) && db.branches == SeedBranches(now)
    ensures forall b | b in db.branches :: b.tenantId in TenantIds(db)
  {
    assert db.tenants[0].id == Tenant1 && db.tenants[1].id == Tenant2;
  }

  lemma UserTenantsExist(db: Db, newId: nat -> Guid, digest: nat -> string, now: nat)
    requires db.tenants == SeedTenants(now) && db.users == SeedUsers(newId, digest, now)
    ensures forall u | u in db.users :: u.tenantId in TenantIds(db)
  {
    assert db.tenants[0].id == Tenant1 && db.tenants[1].id == Tenant2;
  }

  lemma LinkEndsListed(newId: nat -> Guid)
    ensures forall ub | ub in SeedLinks(newId) ::
      && ub.userId in {newId(0), newId(1), newId(2), newId(3)}
      && ub.branchId in {Tenant1BranchA, Tenant1BranchB, Tenant2BranchA, Tenant2BranchB}
  {
  }

  lemma SeedBranchIds(db: Db, now: nat)
    requires db.branches == SeedBranches(now)
    ensures {Tenant1BranchA, Tenant1BranchB, Tenant2BranchA, Tenant2BranchB} <= BranchIds(db)
  {
    assert db.branches[0].id == Tenant1BranchA && db.branches[1].id == Tenant1BranchB;
    assert db.branches[2].id == Tenant2BranchA && db.branches[3].id == Tenant2BranchB;
  }

  lemma SeedUserIds(db: Db, newId: nat -> Guid, digest: nat -> string, now: nat)
    requires db.users == SeedUsers(newId, digest, now)
    ensures {newId(0), newId(1), newId(2), newId(3)} <= UserIds(db)
  {
    assert db.users[0].id == newId(0) && db.users[1].id == newId(1);
    assert db.users[2].id == newId(2) && db.users[3].id == newId(3);
  }

  lemma LinkEndsExist(db: Db, newId: nat -> Guid, digest: nat -> string, now: nat)
    requires db.branches == SeedBranches(now) && db.users == SeedUsers(newId, digest, now)
    requires db.userBranches == SeedLinks(newId)
    ensures forall ub | ub in db.userBranches :: ub.userId in UserIds(db) && ub.branchId in BranchIds(db)
  {
    LinkEndsListed(newId);
    SeedBranchIds(db, now);
    SeedUserIds(db, newId, digest, now);
  }

  lemma PatientReferencesExist(db: Db, newId: nat -> Guid, now: nat)
    requires db.tenants == SeedTenants(now) && db.branches == SeedBranches(now)
    requires db.patients == SeedPatients(newId, now)
    ensures forall p | p in db.patients ::
      && p.tenantId in TenantIds(db)
      && BranchOfTenant(db, p.primaryBranchId.value, p.tenantId)
      && p.primaryBranchId.Some? && p.primaryBranchId.value in BranchIds(db)
  {
    assert db.tenants[0].id == Tenant1;
    assert db.branches[0].id == Tenant1BranchA && db.branches[0].tenantId == Tenant1;
    assert db.branches[1].id == Tenant1BranchB && db.branches[1].tenantId == Tenant1;
  }

  /** Every staff link of the seed joins a user and a branch of the same clinic. */
  lemma SeedLinksWithinTenant(db: Db, newId: nat -> Guid, digest: nat -> string, now: nat)
    requires db.branches == SeedBranches(now) && db.users == SeedUsers(newId, digest, now)
    requires db.userBranches == SeedLinks(newId)
    ensures LinksWithinTenant(db)
  {
    forall ub | ub in db.userBranches
      ensures exists u, b | u in db.users && b in db.branches ::
                u.id == ub.userId && b.id == ub.branchId && u.tenantId == b.tenantId
    {
      var k :| 0 <= k < 6 && db.userBranches[k] == ub;
      var owner := [0, 0, 1, 2, 3, 3][k];
      var branch := [0, 1, 0, 1, 2, 3][k];
      assert db.users[owner].id == ub.userId && db.branches[branch].id == ub.branchId;
      assert db.users[owner].tenantId == db.branches[branch].tenantId;
    }
  }

  /** Both saves of the first run succeed: the seed rows meet every database constraint. */
  lemma SeedEnforced(newId: nat -> Guid, digest: nat -> string, now: nat)
    requires GoodEnvironment(newId, digest)
    ensures Enforced(SeededDb(newId, digest, now))
    ensures Enforced(SeededDb(newId, digest, now).(userBranches := [], patients := []))
  {
    var db := SeededDb(newId, digest, now);
    TenantRows(now);
    BranchRows(now);
    UserRows(newId, digest, now);
    LinkRows(newId);
    PatientRows(newId, now);
    BranchTenantsExist(db, now);
    UserTenantsExist(db, newId, digest, now);
    LinkEndsExist(db, newId, digest, now);
    PatientReferencesExist(db, newId, now);
    var first := db.(userBranches := [], patients := []);
    BranchTenantsExist(first, now);
    UserTenantsExist(first, newId, digest, now);
  }

  /**
   * The first run on an empty store writes exactly the seed rows, and they
   * satisfy the store invariant: every sample patient's branch is in its
   * clinic and every staff link stays inside one clinic.
   */
  lemma SeedFromEmpty(newId: nat -> Guid, digest: nat -> string, now: nat)
    requires GoodEnvironment(newId, digest)
    ensures Seed(EmptyDb, newId, digest, now) == SeededDb(newId, digest, now)
    ensures SeedFailure(EmptyDb, newId, digest, now).None?
    ensures Consistent(SeededDb(newId, digest, now)) && LinksWithinTenant(SeededDb(newId, digest, now))
  {
    var db := SeededDb(newId, digest, now);
    assert Append(EmptyDb, db) == db;
    SeedEnforced(newId, digest, now);
    SaveBatchesFromEmpty(db.tenants, db.branches, db.users, db.userBranches, db.patients);
    PatientReferencesExist(db, newId, now);
    SeedLinksWithinTenant(db, newId, digest, now);
  }

  /** Every sample patient's branch is a seeded branch of the patient's clinic, in any store holding the seeded branches. */
  lemma SeedPatientsOwnBranches(d: Db, newId: nat -> Guid, now: nat)
    requires forall b | b in SeedBranches(now) :: b in d.branches
    ensures forall p | p in SeedPatients(newId, now) ::
      p.primaryBranchId.Some? && BranchOfTenant(d, p.primaryBranchId.value, p.tenantId)
  {
    var bs := SeedBranches(now);
    assert bs[0] in d.branches && bs[1] in d.branches;
  }

  /** A run on any consistent store leaves it consistent, whether it writes nothing, one batch or both. */
  lemma SeedKeepsConsistent(db: Db, newId: nat -> Guid, digest: nat -> string, now: nat)
    requires Consistent(db)
    ensures Consistent(Seed(db, newId, digest, now))
  {
    var d := Seed(db, newId, digest, now);
    if d != db {
      assert d.branches == db.branches + SeedBranches(now);
      SeedPatientsOwnBranches(d, newId, now);
      forall p | p in d.patients && p.primaryBranchId.Some?
        ensures BranchOfTenant(d, p.primaryBranchId.value, p.tenantId)
      {
        if p in db.patients {
          var b :| b in db.branches && b.id == p.primaryBranchId.value && b.tenantId == p.tenantId;
          assert b in d.branches;
        } else {
          assert p in SeedPatients(newId, now);
        }
      }
    }
  }

  /**
   * The sample patients were built one after another, so the clinic's list
   * shows them newest first: the last one built comes first.
   */
  lemma SeedPatientsNewestFirst(newId: nat -> Guid, now: nat)
    ensures var ps := SeedPatients(newId, now);
      Patients.Query(ps, Tenant1, None) == [ps[2], ps[1], ps[0]]
  {
    var ps := SeedPatients(newId, now);
    assert ps == [ps[0], ps[1], ps[2]];
    Patients.QueryNewestFirst(ps[0], ps[1], ps[2], Tenant1);
  }
}
