/**
 * The store configured by `ClinicPosDbContext.OnModelCreating`: five tables,
 * their column bounds, primary keys, unique indexes, foreign keys with their
 * delete behaviours, and the tenant query filter on patients.
 *
 * `SaveChanges` is modelled by `SaveError`: the pending tables are committed
 * exactly when every constraint the database enforces holds of them;
 * otherwise the save throws and nothing is written.
 */
module Schema {
  import opened Wrappers
  import opened Guids
  import opened Entities
  import opened Sequences
  import Roles

  datatype Db = Db(
    tenants: seq<Tenant>,
    branches: seq<Branch>,
    users: seq<User>,
    userBranches: seq<UserBranch>,
    patients: seq<Patient>)

  const EmptyDb := Db([], [], [], [], [])

  // ----- Column bounds (HasMaxLength) -----

  const TenantCodeMax := 10
  const TenantNameMax := 200
  const BranchNameMax := 200
  const BranchAddressMax := 500
  const BranchPhoneMax := 50
  const PatientNameMax := 200
  const PatientPhoneMax := 50
  const UsernameMax := 100
  const PasswordHashMax := 200
  const FullNameMax := 200
  const RoleMax := 20

  predicate FitsOptional(s: Option<string>, max: nat) {
    s.None? || |s.value| <= max
  }

  predicate TenantFits(t: Tenant) {
    |t.code| <= TenantCodeMax && |t.name| <= TenantNameMax
  }

  predicate BranchFits(b: Branch) {
    |b.name| <= BranchNameMax && FitsOptional(b.address, BranchAddressMax) && FitsOptional(b.phoneNumber, BranchPhoneMax)
  }

  predicate PatientFits(p: Patient) {
    |p.firstName| <= PatientNameMax && |p.lastName| <= PatientNameMax && |p.phoneNumber| <= PatientPhoneMax
  }

  predicate UserFits(u: User) {
    && |u.username| <= UsernameMax && |u.passwordHash| <= PasswordHashMax
    && |u.fullName| <= FullNameMax && |Roles.Name(u.role)| <= RoleMax
  }

  predicate ColumnsFit(db: Db) {
    && (forall t | t in db.tenants :: TenantFits(t))
    && (forall b | b in db.branches :: BranchFits(b))
    && (forall p | p in db.patients :: PatientFits(p))
    && (forall u | u in db.users :: UserFits(u))
  }

  // ----- Primary keys and unique indexes -----

  function TenantKey(t: Tenant): Guid { t.id }
  function TenantCodeKey(t: Tenant): string { t.code }
  function BranchKey(b: Branch): Guid { b.id }
  function PatientKey(p: Patient): Guid { p.id }
  function PatientPhoneKey(p: Patient): (Guid, string) { (p.tenantId, p.phoneNumber) }
  function UserKey(u: User): Guid { u.id }
  function UsernameKey(u: User): string { u.username }
  function LinkKey(ub: UserBranch): Guid { ub.id }
  function LinkPairKey(ub: UserBranch): (Guid, Guid) { (ub.userId, ub.branchId) }

  predicate UniqueIndexes(db: Db) {
    && UniqueBy(db.tenants, TenantKey) && UniqueBy(db.tenants, TenantCodeKey)
    && UniqueBy(db.branches, BranchKey)
    && UniqueBy(db.patients, PatientKey) && UniqueBy(db.patients, PatientPhoneKey)
    && UniqueBy(db.users, UserKey) && UniqueBy(db.users, UsernameKey)
    && UniqueBy(db.userBranches, LinkKey) && UniqueBy(db.userBranches, LinkPairKey)
  }

  // ----- Foreign keys -----

  function TenantIds(db: Db): set<Guid> { set t | t in db.tenants :: t.id }
  function BranchIds(db: Db): set<Guid> { set b | b in db.branches :: b.id }
  function UserIds(db: Db): set<Guid> { set u | u in db.users :: u.id }

  predicate ForeignKeys(db: Db) {
    && (forall b | b in db.branches :: b.tenantId in TenantIds(db))
    && (forall p | p in db.patients ::
          p.tenantId in TenantIds(db) && (p.primaryBranchId.Some? ==> p.primaryBranchId.value in BranchIds(db)))
    && (forall u | u in db.users :: u.tenantId in TenantIds(db))
    && (forall ub | ub in db.userBranches :: ub.userId in UserIds(db) && ub.branchId in BranchIds(db))
  }

  /** Everything the database itself refuses to store otherwise. */
  predicate Enforced(db: Db) {
    ColumnsFit(db) && UniqueIndexes(db) && ForeignKeys(db)
  }

  datatype SaveFailure = ValueTooLong | UniqueViolation | ForeignKeyViolation

  /**
   * What `SaveChanges` throws for the pending tables, if anything. Values are
   * checked against their column types first, then unique indexes, then
   * foreign keys, the order in which the database reports them.
   */
  function SaveError(db: Db): (r: Option<SaveFailure>)
    ensures r.None? <==> Enforced(db)
    ensures r == Some(UniqueViolation) ==> ColumnsFit(db) && !UniqueIndexes(db)
  {
    if !ColumnsFit(db) then Some(ValueTooLong)
    else if !UniqueIndexes(db) then Some(UniqueViolation)
    else if !ForeignKeys(db) then Some(ForeignKeyViolation)
    else None
  }

  // ----- Invariants kept by the application code -----

  /** Some branch with this id belongs to this tenant. */
  predicate BranchOfTenant(db: Db, branchId: Guid, tenantId: Guid) {
    exists b | b in db.branches :: b.id == branchId && b.tenantId == tenantId
  }

  /** A patient's primary branch belongs to the patient's own tenant. */
  predicate PatientBranchesInTenant(db: Db) {
    forall p | p in db.patients && p.primaryBranchId.Some? :: BranchOfTenant(db, p.primaryBranchId.value, p.tenantId)
  }

  /** The store invariant: what the database enforces and what the controllers keep. */
  predicate Consistent(db: Db) {
    Enforced(db) && PatientBranchesInTenant(db)
  }

  /** Every user-branch link joins a user and a branch of one tenant (holds of the seed; not kept by every endpoint). */
  predicate LinksWithinTenant(db: Db) {
    forall ub | ub in db.userBranches ::
      exists u, b | u in db.users && b in db.branches ::
        u.id == ub.userId && b.id == ub.branchId && u.tenantId == b.tenantId
  }

  // ----- The global query filter on patients -----

  predicate PassesTenantFilter(p: Patient, current: Option<Guid>) {
    current.None? || p.tenantId == current.value
  }

  /** `db.Patients` as a query sees it under the context's current tenant. */
  function VisiblePatients(ps: seq<Patient>, current: Option<Guid>): (r: seq<Patient>)
    ensures forall p | p in r :: p in ps && PassesTenantFilter(p, current)
    ensures forall p | p in ps && PassesTenantFilter(p, current) :: p in r
  {
    Where(ps, PassesTenantFilter, current)
  }

  /** With a tenant set, only that tenant's patients are visible. */
  lemma VisibleOnlyCurrentTenant(ps: seq<Patient>, t: Guid)
    ensures forall p | p in VisiblePatients(ps, Some(t)) :: p.tenantId == t
    ensures forall p | p in ps && p.tenantId == t :: p in VisiblePatients(ps, Some(t))
  {
  }

  /** With no tenant set, the filter lets every patient through, in order. */
  lemma VisibleWithoutTenant(ps: seq<Patient>)
    ensures VisiblePatients(ps, None) == ps
  {
    WhereAll(ps, PassesTenantFilter, None);
  }

  // ----- Delete behaviours -----

  /** `OnDelete(SetNull)` on `Patient.PrimaryBranchId` for the deleted branch ids. */
  function Detach(p: Patient, gone: set<Guid>): Patient {
    if p.primaryBranchId.Some? && p.primaryBranchId.value in gone then p.(primaryBranchId := None) else p
  }

  function DetachAll(ps: seq<Patient>, gone: set<Guid>): (r: seq<Patient>)
    ensures |r| == |ps|
    ensures forall i | 0 <= i < |ps| :: r[i] == Detach(ps[i], gone)
  {
    seq(|ps|, i requires 0 <= i < |ps| => Detach(ps[i], gone))
  }

  lemma DetachAllKeepsKeys(ps: seq<Patient>, gone: set<Guid>)
    ensures UniqueBy(ps, PatientKey) ==> UniqueBy(DetachAll(ps, gone), PatientKey)
    ensures UniqueBy(ps, PatientPhoneKey) ==> UniqueBy(DetachAll(ps, gone), PatientPhoneKey)
    ensures forall q | q in DetachAll(ps, gone) :: exists p | p in ps :: q == Detach(p, gone)
  {
    var r := DetachAll(ps, gone);
    forall q | q in r ensures exists p | p in ps :: q == Detach(p, gone) {
      var i :| 0 <= i < |r| && r[i] == q;
      assert ps[i] in ps;
    }
  }

  predicate BranchIsNot(b: Branch, id: Guid) { b.id != id }
  predicate LinkAvoidsBranch(ub: UserBranch, id: Guid) { ub.branchId != id }
  predicate TenantIsNot(t: Tenant, id: Guid) { t.id != id }
  predicate BranchOutside(b: Branch, id: Guid) { b.tenantId != id }
  predicate UserOutside(u: User, id: Guid) { u.tenantId != id }
  predicate PatientOutside(p: Patient, id: Guid) { p.tenantId != id }
  /** The link survives when neither its user (first set) nor its branch (second set) is deleted. */
  predicate LinkSurvives(ub: UserBranch, gone: (set<Guid>, set<Guid>)) {
    ub.userId !in gone.0 && ub.branchId !in gone.1
  }

  /** Deleting a branch: its patients keep their rows with no primary branch, its user links go. */
  function DeleteBranch(db: Db, id: Guid): Db {
    db.(branches := Where(db.branches, BranchIsNot, id),
        userBranches := Where(db.userBranches, LinkAvoidsBranch, id),
        patients := DetachAll(db.patients, {id}))
  }

  function TenantBranchIds(db: Db, id: Guid): set<Guid> { set b | b in db.branches && b.tenantId == id :: b.id }
  function TenantUserIds(db: Db, id: Guid): set<Guid> { set u | u in db.users && u.tenantId == id :: u.id }

  /** Deleting a tenant cascades to its branches, patients and users, and from those to their links. */
  function DeleteTenant(db: Db, id: Guid): Db {
    Db(Where(db.tenants, TenantIsNot, id),
       Where(db.branches, BranchOutside, id),
       Where(db.users, UserOutside, id),
       Where(db.userBranches, LinkSurvives, (TenantUserIds(db, id), TenantBranchIds(db, id))),
       DetachAll(Where(db.patients, PatientOutside, id), TenantBranchIds(db, id)))
  }

  /**
   * A patient row that survives a deletion, with its branch cleared when the
   * branch is among the deleted ones, still meets its constraints in the new
   * tables when its tenant survives and so do the tenant's other branches.
   */
  lemma DetachedPatientFits(db: Db, d: Db, q: Patient, gone: set<Guid>)
    requires Consistent(db) && q in db.patients
    requires q.tenantId in TenantIds(d)
    requires forall b | b in db.branches && b.tenantId == q.tenantId && b.id !in gone :: b in d.branches
    ensures var p := Detach(q, gone);
      && PatientFits(p) && p.tenantId in TenantIds(d)
      && (p.primaryBranchId.Some? ==>
            p.primaryBranchId.value in BranchIds(d) && BranchOfTenant(d, p.primaryBranchId.value, p.tenantId))
  {
    var p := Detach(q, gone);
    if p.primaryBranchId.Some? {
      var b :| b in db.branches && b.id == q.primaryBranchId.value && b.tenantId == q.tenantId;
      assert b in d.branches;
    }
  }

  lemma DeleteBranchUnique(db: Db, id: Guid)
    requires UniqueIndexes(db)
    ensures UniqueIndexes(DeleteBranch(db, id))
  {
    WhereUnique(db.branches, BranchIsNot, id, BranchKey);
    WhereUnique(db.userBranches, LinkAvoidsBranch, id, LinkKey);
    WhereUnique(db.userBranches, LinkAvoidsBranch, id, LinkPairKey);
    DetachAllKeepsKeys(db.patients, {id});
  }

  lemma DeleteBranchConsistent(db: Db, id: Guid)
    requires Consistent(db)
    ensures Consistent(DeleteBranch(db, id))
  {
    var d := DeleteBranch(db, id);
    DeleteBranchUnique(db, id);
    forall p | p in d.patients
      ensures p.primaryBranchId.Some? ==>
        p.primaryBranchId.value in BranchIds(d) && BranchOfTenant(d, p.primaryBranchId.value, p.tenantId)
      ensures PatientFits(p) && p.tenantId in TenantIds(d)
    {
      var i :| 0 <= i < |d.patients| && d.patients[i] == p;
      DetachedPatientFits(db, d, db.patients[i], {id});
    }
    assert ForeignKeys(d);
  }

  lemma DeleteBranchEffect(db: Db, id: Guid)
    requires Consistent(db)
    ensures var d := DeleteBranch(db, id);
      && Consistent(d)
      && id !in BranchIds(d)
      && (forall p | p in d.patients :: p.primaryBranchId != Some(id))
      && |d.patients| == |db.patients|
      && (forall i | 0 <= i < |db.patients| ::
            d.patients[i] == if db.patients[i].primaryBranchId == Some(id)
                             then db.patients[i].(primaryBranchId := None) else db.patients[i])
      && (forall ub :: ub in d.userBranches <==> ub in db.userBranches && ub.branchId != id)
      && (forall b :: b in d.branches <==> b in db.branches && b.id != id)
      && d.tenants == db.tenants && d.users == db.users
  {
    DeleteBranchConsistent(db, id);
  }

  lemma DeleteTenantUnique(db: Db, id: Guid)
    requires UniqueIndexes(db)
    ensures UniqueIndexes(DeleteTenant(db, id))
  {
    var gone := (TenantUserIds(db, id), TenantBranchIds(db, id));
    WhereUnique(db.tenants, TenantIsNot, id, TenantKey);
    WhereUnique(db.tenants, TenantIsNot, id, TenantCodeKey);
    WhereUnique(db.branches, BranchOutside, id, BranchKey);
    WhereUnique(db.users, UserOutside, id, UserKey);
    WhereUnique(db.users, UserOutside, id, UsernameKey);
    WhereUnique(db.userBranches, LinkSurvives, gone, LinkKey);
    WhereUnique(db.userBranches, LinkSurvives, gone, LinkPairKey);
    WhereUnique(db.patients, PatientOutside, id, PatientKey);
    WhereUnique(db.patients, PatientOutside, id, PatientPhoneKey);
    DetachAllKeepsKeys(Where(db.patients, PatientOutside, id), TenantBranchIds(db, id));
  }

  lemma DeleteTenantPatients(db: Db, id: Guid)
    requires Consistent(db)
    ensures var d := DeleteTenant(db, id);
      forall p | p in d.patients ::
        && p.tenantId in TenantIds(d) && PatientFits(p) && p.tenantId != id
        && (p.primaryBranchId.Some? ==>
              p.primaryBranchId.value in BranchIds(d) && BranchOfTenant(d, p.primaryBranchId.value, p.tenantId))
  {
    var d := DeleteTenant(db, id);
    var kept := Where(db.patients, PatientOutside, id);
    forall p | p in d.patients
      ensures p.tenantId in TenantIds(d) && PatientFits(p) && p.tenantId != id
      ensures p.primaryBranchId.Some? ==>
        p.primaryBranchId.value in BranchIds(d) && BranchOfTenant(d, p.primaryBranchId.value, p.tenantId)
    {
      var i :| 0 <= i < |d.patients| && d.patients[i] == p;
      var q := kept[i];
      assert q in kept;
      assert q in db.patients && q.tenantId != id;
      var t :| t in db.tenants && t.id == q.tenantId;
      assert t in d.tenants;
      assert forall b | b in db.branches && b.tenantId == q.tenantId :: b in d.branches;
      DetachedPatientFits(db, d, q, TenantBranchIds(db, id));
    }
  }

  lemma DeleteTenantForeignKeys(db: Db, id: Guid)
    requires Consistent(db)
    ensures ForeignKeys(DeleteTenant(db, id)) && ColumnsFit(DeleteTenant(db, id))
    ensures PatientBranchesInTenant(DeleteTenant(db, id))
  {
    var d := DeleteTenant(db, id);
    forall b | b in d.branches ensures b.tenantId in TenantIds(d) {
      var t :| t in db.tenants && t.id == b.tenantId;
      assert t in d.tenants;
    }
    forall u | u in d.users ensures u.tenantId in TenantIds(d) {
      var t :| t in db.tenants && t.id == u.tenantId;
      assert t in d.tenants;
    }
    forall ub | ub in d.userBranches ensures ub.userId in UserIds(d) && ub.branchId in BranchIds(d) {
      var u :| u in db.users && u.id == ub.userId;
      var b :| b in db.branches && b.id == ub.branchId;
      assert u in d.users && b in d.branches;
    }
    DeleteTenantPatients(db, id);
  }

  /** A patient of another tenant keeps its row unchanged: its primary branch, being in its own tenant, is not deleted. */
  lemma DeleteTenantKeepsPatient(db: Db, id: Guid, p: Patient)
    requires Consistent(db) && p in db.patients && p.tenantId != id
    ensures p in DeleteTenant(db, id).patients
  {
    var kept := Where(db.patients, PatientOutside, id);
    var goneBranches := TenantBranchIds(db, id);
    assert p in kept;
    if p.primaryBranchId.Some? {
      var b :| b in db.branches && b.id == p.primaryBranchId.value && b.tenantId == p.tenantId;
      forall b' | b' in db.branches && b'.id == b.id ensures b'.tenantId != id {
        var i :| 0 <= i < |db.branches| && db.branches[i] == b;
        var j :| 0 <= j < |db.branches| && db.branches[j] == b';
        assert BranchKey(db.branches[i]) == BranchKey(db.branches[j]);
      }
      assert p.primaryBranchId.value !in goneBranches;
    }
    var i :| 0 <= i < |kept| && kept[i] == p;
    assert DetachAll(kept, goneBranches)[i] == p;
  }

  lemma DeleteTenantEffect(db: Db, id: Guid)
    requires Consistent(db)
    ensures var d := DeleteTenant(db, id);
      && Consistent(d)
      && id !in TenantIds(d)
      && (forall b | b in d.branches :: b.tenantId != id)
      && (forall u | u in d.users :: u.tenantId != id)
      && (forall p | p in d.patients :: p.tenantId != id)
      && (forall b | b in db.branches && b.tenantId != id :: b in d.branches)
      && (forall u | u in db.users && u.tenantId != id :: u in d.users)
      && (forall p | p in db.patients && p.tenantId != id :: p in d.patients)
      && (forall t :: t in d.tenants <==> t in db.tenants && t.id != id)
      && (forall ub :: ub in d.userBranches <==>
            ub in db.userBranches && ub.userId !in TenantUserIds(db, id) && ub.branchId !in TenantBranchIds(db, id))
  {
    DeleteTenantUnique(db, id);
    DeleteTenantForeignKeys(db, id);
    DeleteTenantPatients(db, id);
    forall p | p in db.patients && p.tenantId != id ensures p in DeleteTenant(db, id).patients {
      DeleteTenantKeepsPatient(db, id, p);
    }
  }
}
