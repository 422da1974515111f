/**
 * `PatientsController`: creating a patient in the caller's tenant and listing
 * the tenant's patients through a read-through cache of lists.
 *
 * The distributed cache is a map from key to the list it holds (its JSON
 * form is left out). `Create` and `List` are the endpoints' behaviour as
 * functions of the store, the cache and the caller's tenant; the store class
 * carries them out step by step.
 */
module Patients {
  import opened Wrappers
  import opened Guids
  import opened Entities
  import opened Schema
  import opened Sequences
  import opened Sorting
  import opened Dtos
  import opened Http

  type Cache = map<string, seq<PatientResponse>>

  /** The response an endpoint gives, the store after it and the cache after it. */
  datatype Outcome<T> = Outcome(response: Response<T>, db: Db, cache: Cache)

  // ----- Cache keys -----

  const AllBranchesKey := "all"

  /** `BuildCacheKey`: `tenant:{tenantId}:patients:list:{branchId or "all"}`. */
  function CacheKey(tenantId: Guid, branchId: Option<Guid>): (k: string)
    ensures |k| == if branchId.Some? then 94 else 61
    ensures k[7..43] == Format(tenantId)
  {
    "tenant:" + Format(tenantId) + ":patients:list:" + (if branchId.Some? then Format(branchId.value) else AllBranchesKey)
  }

  /** Distinct (tenant, branch filter) pairs never share a key, so no cached list is shared across tenants. */
  lemma CacheKeyInjective(t1: Guid, b1: Option<Guid>, t2: Guid, b2: Option<Guid>)
    requires CacheKey(t1, b1) == CacheKey(t2, b2)
    ensures t1 == t2 && b1 == b2
  {
    var k1, k2 := CacheKey(t1, b1), CacheKey(t2, b2);
    FormatInjective(t1, t2);
    assert b1.Some? == b2.Some?;
    if b1.Some? {
      assert k1[58..] == Format(b1.value);
      assert k2[58..] == Format(b2.value);
      FormatInjective(b1.value, b2.value);
    }
  }

  // ----- Responses -----

  function ToResponse(p: Patient): PatientResponse {
    PatientResponse(p.id, p.tenantId, p.firstName, p.lastName, p.phoneNumber, p.createdAt, p.primaryBranchId)
  }

  /** The response carries all seven fields of the row: distinct rows give distinct responses. */
  lemma ToResponseInjective(p: Patient, q: Patient)
    requires ToResponse(p) == ToResponse(q)
    ensures p == q
  {
  }

  // ----- The list query -----

  predicate OnBranch(p: Patient, branchId: Option<Guid>) {
    branchId.None? || p.primaryBranchId == branchId
  }

  /** `OrderByDescending(p => p.CreatedAt)`: a may come before b. */
  predicate NewerOrSame(a: Patient, b: Patient) {
    a.createdAt >= b.createdAt
  }

  lemma NewerOrSameTotalPreorder()
    ensures TotalPreorder(NewerOrSame)
  {
  }

  /** The rows the list query returns for a caller in `tenantId`, filtered by the optional branch. */
  function Query(ps: seq<Patient>, tenantId: Guid, branchId: Option<Guid>): seq<Patient> {
    SortBy(Where(VisiblePatients(ps, Some(tenantId)), OnBranch, branchId), NewerOrSame)
  }

  /** A patient older than every listed one goes to the end of a newest-first list. */
  lemma {:induction false} InsertOldest(x: Patient, s: seq<Patient>)
    requires forall y | y in s :: x.createdAt < y.createdAt
    ensures Insert(x, s, NewerOrSame) == s + [x]
    decreases |s|
  {
    if s != [] {
      assert !NewerOrSame(x, s[0]);
      assert forall y | y in s[1..] :: y in s;
      InsertOldest(x, s[1..]);
      assert [s[0]] + (s[1..] + [x]) == s + [x];
    }
  }

  /** Patients created one after another sort newest first. */
  lemma SortTwoNewestFirst(b: Patient, c: Patient)
    requires b.createdAt < c.createdAt
    ensures SortBy([b, c], NewerOrSame) == [c, b]
  {
    assert [b, c][1..] == [c];
    assert SortBy([c], NewerOrSame) == [c] by { assert [c][1..] == []; }
    InsertOldest(b, [c]);
  }

  /** Three patients created one after another sort in reverse creation order. */
  lemma SortThreeNewestFirst(a: Patient, b: Patient, c: Patient)
    requires a.createdAt < b.createdAt < c.createdAt
    ensures SortBy([a, b, c], NewerOrSame) == [c, b, a]
  {
    assert [a, b, c][1..] == [b, c];
    SortTwoNewestFirst(b, c);
    InsertOldest(a, [c, b]);
  }

  /** Three patients of one tenant created one after another are listed newest first. */
  lemma QueryNewestFirst(a: Patient, b: Patient, c: Patient, t: Guid)
    requires a.tenantId == t && b.tenantId == t && c.tenantId == t
    requires a.createdAt < b.createdAt < c.createdAt
    ensures Query([a, b, c], t, None) == [c, b, a]
  {
    WhereAll([a, b, c], PassesTenantFilter, Some(t));
    WhereAll([a, b, c], OnBranch, None);
    SortThreeNewestFirst(a, b, c);
  }

  /** The list the endpoint computes on a cache miss. */
  function Listing(ps: seq<Patient>, tenantId: Guid, branchId: Option<Guid>): (l: seq<PatientResponse>)
    ensures |l| == |Query(ps, tenantId, branchId)|
  {
    var q := Query(ps, tenantId, branchId);
    seq(|q|, i requires 0 <= i < |q| => ToResponse(q[i]))
  }

  /**
   * A listing holds exactly the tenant's patients on the requested branch
   * (all of them without a branch), newest first.
   */
  lemma ListingSpec(ps: seq<Patient>, t: Guid, b: Option<Guid>)
    ensures var l := Listing(ps, t, b);
      && (forall r | r in l :: r.tenantId == t && (b.None? || r.primaryBranchId == b))
      && (forall r | r in l :: exists p | p in ps :: ToResponse(p) == r)
      && (forall p | p in ps && p.tenantId == t && OnBranch(p, b) :: ToResponse(p) in l)
      && (forall i, j | 0 <= i < j < |l| :: l[i].createdAt >= l[j].createdAt)
  {
    var l := Listing(ps, t, b);
    var w := Where(VisiblePatients(ps, Some(t)), OnBranch, b);
    var q := Query(ps, t, b);
    assert multiset(q) == multiset(w);
    forall r | r in l ensures r.tenantId == t && (b.None? || r.primaryBranchId == b) && exists p | p in ps :: ToResponse(p) == r {
      var i :| 0 <= i < |l| && l[i] == r;
      assert q[i] in multiset(w);
      assert q[i] in w;
    }
    forall p | p in ps && p.tenantId == t && OnBranch(p, b) ensures ToResponse(p) in l {
      assert p in w;
      assert p in multiset(q);
      var i :| 0 <= i < |q| && q[i] == p;
      assert l[i] == ToResponse(p);
    }
    NewerOrSameTotalPreorder();
    SortBySorted(w, NewerOrSame);
  }

  /** A row the (tenant, branch) query does not select leaves that listing as it was. */
  lemma ListingIgnores(ps: seq<Patient>, p: Patient, t: Guid, b: Option<Guid>)
    requires !(p.tenantId == t && OnBranch(p, b))
    ensures Listing(ps + [p], t, b) == Listing(ps, t, b)
  {
    var v := VisiblePatients(ps, Some(t));
    WhereSnoc(ps, p, PassesTenantFilter, Some(t));
    if p.tenantId == t {
      assert VisiblePatients(ps + [p], Some(t)) == v + [p];
      WhereSnoc(v, p, OnBranch, b);
      assert Where(v + [p], OnBranch, b) == Where(v, OnBranch, b);
    } else {
      assert VisiblePatients(ps + [p], Some(t)) == v;
    }
  }

  /** Every list the cache holds under a key of the form `CacheKey(t, b)` is the fresh query for (t, b). */
  ghost predicate Coherent(ps: seq<Patient>, cache: Cache) {
    forall t: Guid, b: Option<Guid> | CacheKey(t, b) in cache :: cache[CacheKey(t, b)] == Listing(ps, t, b)
  }

  /** Dropping entries (as the cache's expiry does) keeps it coherent. */
  lemma EvictionKeepsCoherent(ps: seq<Patient>, cache: Cache, keys: set<string>)
    requires Coherent(ps, cache)
    ensures Coherent(ps, cache - keys)
  {
  }

  /**
   * Every list the cache holds under a tenant's key holds only that tenant's
   * patients, however old the entry is: an entry is only ever written by that
   * tenant's query.
   */
  ghost predicate TenantScoped(cache: Cache) {
    forall t: Guid, b: Option<Guid> | CacheKey(t, b) in cache :: forall r | r in cache[CacheKey(t, b)] :: r.tenantId == t
  }

  /** A fresh cache is in particular scoped to tenants. */
  lemma CoherentIsScoped(ps: seq<Patient>, cache: Cache)
    requires Coherent(ps, cache)
    ensures TenantScoped(cache)
  {
    forall t: Guid, b: Option<Guid> | CacheKey(t, b) in cache
      ensures forall r | r in cache[CacheKey(t, b)] :: r.tenantId == t
    {
      ListingSpec(ps, t, b);
    }
  }

  /** Dropping entries keeps the cache scoped to tenants. */
  lemma EvictionKeepsScoped(cache: Cache, keys: set<string>)
    requires TenantScoped(cache)
    ensures TenantScoped(cache - keys)
  {
  }

  // ----- POST /patients -----

  const ForeignBranchError := "Branch does not belong to your tenant."
  const DuplicatePhoneError := "A patient with this phone number already exists in this tenant."

  function NewPatient(tenantId: Guid, r: CreatePatientRequest, id: Guid, now: nat): Patient {
    Patient(id, tenantId, r.firstName, r.lastName, r.phoneNumber, now, r.primaryBranchId)
  }

  /** `InvalidateCacheAsync`: the "all" key of the tenant and, when there is one, the key of the patient's branch. */
  function Evicted(tenantId: Guid, branchId: Option<Guid>): (keys: set<string>)
    ensures keys == {CacheKey(tenantId, None), CacheKey(tenantId, branchId)}
    ensures CacheKey(tenantId, None) in keys && CacheKey(tenantId, branchId) in keys
    ensures forall t, b | CacheKey(t, b) in keys :: t == tenantId && (b.None? || b == branchId)
  {
    var keys := {CacheKey(tenantId, None)} + (if branchId.Some? then {CacheKey(tenantId, branchId)} else {});
    forall t, b | CacheKey(t, b) in keys ensures t == tenantId && (b.None? || b == branchId) {
      if CacheKey(t, b) == CacheKey(tenantId, None) {
        CacheKeyInjective(t, b, tenantId, None);
      } else {
        CacheKeyInjective(t, b, tenantId, branchId);
      }
    }
    keys
  }

  /**
   * `Create`, for a caller whose token names `tenant`, with `id` and `now`
   * the new row's generated id and creation time. A refused or failed
   * request changes neither the store nor the cache; a created patient is
   * the one new row, and exactly the evicted keys leave the cache.
   */
  function Create(db: Db, cache: Cache, tenant: Option<Guid>, r: CreatePatientRequest, id: Guid, now: nat)
    : (o: Outcome<PatientResponse>)
    ensures !o.response.Created? ==> o.db == db && o.cache == cache
    ensures o.response.Created? ==>
      && tenant.Some?
      && o.response.body == ToResponse(NewPatient(tenant.value, r, id, now))
      && o.db == db.(patients := db.patients + [NewPatient(tenant.value, r, id, now)])
      && o.cache == cache - Evicted(tenant.value, r.primaryBranchId)
    ensures tenant.None? ==> o.response == Forbid
    ensures tenant.Some? && r.primaryBranchId.Some? && !BranchOfTenant(db, r.primaryBranchId.value, tenant.value)
      ==> o.response == BadRequest(ForeignBranchError)
  {
    if tenant.None? then Outcome(Forbid, db, cache)
    else if r.primaryBranchId.Some? && !BranchOfTenant(db, r.primaryBranchId.value, tenant.value) then
      Outcome(BadRequest(ForeignBranchError), db, cache)
    else
      var p := NewPatient(tenant.value, r, id, now);
      var pending := db.(patients := db.patients + [p]);
      match SaveError(pending)
      case None => Outcome(Created(ToResponse(p)), pending, cache - Evicted(tenant.value, r.primaryBranchId))
      case Some(UniqueViolation) => Outcome(Conflict(DuplicatePhoneError), db, cache)
      case Some(_) => Outcome(ServerError, db, cache)
  }

  /** A request that passes validation fits the patient columns. */
  lemma ValidRequestFits(t: Guid, r: CreatePatientRequest, id: Guid, now: nat)
    requires ValidCreatePatient(r)
    ensures PatientFits(NewPatient(t, r, id, now))
  {
  }

  /** The phone number is already taken within the tenant. */
  predicate PhoneTaken(db: Db, t: Guid, phone: string) {
    exists q | q in db.patients :: q.tenantId == t && q.phoneNumber == phone
  }

  /**
   * With a fresh id and a valid request that gets past the branch check,
   * the answer is Conflict exactly when the tenant already has a patient
   * with that phone number; another tenant's use of the number is no obstacle.
   */
  lemma CreateConflictIffPhoneTaken(db: Db, cache: Cache, t: Guid, r: CreatePatientRequest, id: Guid, now: nat)
    requires Consistent(db) && ValidCreatePatient(r)
    requires id !in set q | q in db.patients :: q.id
    requires r.primaryBranchId.Some? ==> BranchOfTenant(db, r.primaryBranchId.value, t)
    ensures Create(db, cache, Some(t), r, id, now).response.Conflict? <==> PhoneTaken(db, t, r.phoneNumber)
  {
    var p := NewPatient(t, r, id, now);
    var pending := db.(patients := db.patients + [p]);
    assert ColumnsFit(pending);
    if PhoneTaken(db, t, r.phoneNumber) {
      var q :| q in db.patients && q.tenantId == t && q.phoneNumber == r.phoneNumber;
      var i :| 0 <= i < |db.patients| && db.patients[i] == q;
      assert PatientPhoneKey(pending.patients[i]) == PatientPhoneKey(pending.patients[|db.patients|]);
      assert !UniqueIndexes(pending);
    } else {
      UniqueSnoc(db.patients, p, PatientKey);
      UniqueSnoc(db.patients, p, PatientPhoneKey);
      assert UniqueIndexes(pending);
    }
  }

  /**
   * When the tenant exists as well, the create succeeds exactly when the
   * tenant has no patient with that phone number: nothing else refuses it.
   */
  lemma {:induction false} CreateCreatedIffPhoneFree(db: Db, cache: Cache, t: Guid, r: CreatePatientRequest, id: Guid, now: nat)
    requires Consistent(db) && ValidCreatePatient(r)
    requires id !in set q | q in db.patients :: q.id
    requires t in TenantIds(db)
    requires r.primaryBranchId.Some? ==> BranchOfTenant(db, r.primaryBranchId.value, t)
    ensures Create(db, cache, Some(t), r, id, now).response.Created? <==> !PhoneTaken(db, t, r.phoneNumber)
  {
    CreateConflictIffPhoneTaken(db, cache, t, r, id, now);
    if !PhoneTaken(db, t, r.phoneNumber) {
      var p := NewPatient(t, r, id, now);
      var pending := db.(patients := db.patients + [p]);
      if r.primaryBranchId.Some? {
        var b :| b in db.branches && b.id == r.primaryBranchId.value && b.tenantId == t;
        assert r.primaryBranchId.value in BranchIds(pending);
      }
      assert ForeignKeys(pending);
    }
  }

  /** A successful create keeps the store consistent: every constraint and same-tenant primary branches. */
  lemma CreateKeepsConsistent(db: Db, cache: Cache, tenant: Option<Guid>, r: CreatePatientRequest, id: Guid, now: nat)
    requires Consistent(db)
    ensures Consistent(Create(db, cache, tenant, r, id, now).db)
  {
    var o := Create(db, cache, tenant, r, id, now);
    if o.response.Created? {
      var p := NewPatient(tenant.value, r, id, now);
      forall q | q in o.db.patients && q.primaryBranchId.Some?
        ensures BranchOfTenant(o.db, q.primaryBranchId.value, q.tenantId)
      {
        if q != p {
          assert q in db.patients;
        }
      }
    }
  }

  /** Every list still in the cache after a create equals the fresh query over the new store. */
  lemma CreateKeepsCoherent(db: Db, cache: Cache, tenant: Option<Guid>, r: CreatePatientRequest, id: Guid, now: nat)
    requires Coherent(db.patients, cache)
    ensures var o := Create(db, cache, tenant, r, id, now); Coherent(o.db.patients, o.cache)
  {
    var o := Create(db, cache, tenant, r, id, now);
    if o.response.Created? {
      var t := tenant.value;
      var p := NewPatient(t, r, id, now);
      forall t', b' | CacheKey(t', b') in o.cache
        ensures o.cache[CacheKey(t', b')] == Listing(o.db.patients, t', b')
      {
        assert CacheKey(t', b') !in Evicted(t, r.primaryBranchId);
        assert !(t' == t && OnBranch(p, b'));
        ListingIgnores(db.patients, p, t', b');
      }
    }
  }

  // ----- GET /patients -----

  /**
   * `GetByTenant`: a hit returns the stored list unchanged; a miss runs the
   * query and stores its result under the key. The store never changes.
   */
  function List(db: Db, cache: Cache, tenant: Option<Guid>, branchId: Option<Guid>): (o: Outcome<seq<PatientResponse>>)
    ensures o.db == db
    ensures tenant.None? ==> o == Outcome(Forbid, db, cache)
    ensures tenant.Some? && CacheKey(tenant.value, branchId) in cache
      ==> o == Outcome(Ok(cache[CacheKey(tenant.value, branchId)]), db, cache)
    ensures tenant.Some? && CacheKey(tenant.value, branchId) !in cache ==>
      o == Outcome(Ok(Listing(db.patients, tenant.value, branchId)), db,
                   cache[CacheKey(tenant.value, branchId) := Listing(db.patients, tenant.value, branchId)])
  {
    if tenant.None? then Outcome(Forbid, db, cache)
    else
      var key := CacheKey(tenant.value, branchId);
      if key in cache then Outcome(Ok(cache[key]), db, cache)
      else
        var l := Listing(db.patients, tenant.value, branchId);
        Outcome(Ok(l), db, cache[key := l])
  }

  /**
   * Under a coherent cache, hit or miss, the caller receives the fresh query
   * for its own tenant, and the cache stays coherent.
   */
  lemma ListServesQuery(db: Db, cache: Cache, t: Guid, b: Option<Guid>)
    requires Coherent(db.patients, cache)
    ensures var o := List(db, cache, Some(t), b);
      && o.response == Ok(Listing(db.patients, t, b))
      && Coherent(db.patients, o.cache)
  {
    var o := List(db, cache, Some(t), b);
    var key := CacheKey(t, b);
    if key !in cache {
      forall t', b' | CacheKey(t', b') in o.cache
        ensures o.cache[CacheKey(t', b')] == Listing(db.patients, t', b')
      {
        if CacheKey(t', b') == key {
          CacheKeyInjective(t', b', t, b);
        }
      }
    }
  }

  /**
   * Every patient a caller receives belongs to the caller's tenant, whether
   * the cache is fresh or stale, and the cache stays scoped to tenants.
   */
  lemma {:induction false} ListStaysInTenant(db: Db, cache: Cache, t: Guid, b: Option<Guid>)
    requires TenantScoped(cache)
    ensures var o := List(db, cache, Some(t), b);
      && o.response.Ok? && (forall r | r in o.response.body :: r.tenantId == t)
      && TenantScoped(o.cache)
  {
    var o := List(db, cache, Some(t), b);
    var key := CacheKey(t, b);
    ListingSpec(db.patients, t, b);
    if key !in cache {
      forall t', b' | CacheKey(t', b') in o.cache
        ensures forall r | r in o.cache[CacheKey(t', b')] :: r.tenantId == t'
      {
        if CacheKey(t', b') == key {
          CacheKeyInjective(t', b', t, b);
        }
      }
    }
  }

  /** Creating a patient only removes entries, so the cache stays scoped to tenants. */
  lemma CreateKeepsScoped(db: Db, cache: Cache, tenant: Option<Guid>, r: CreatePatientRequest, id: Guid, now: nat)
    requires TenantScoped(cache)
    ensures TenantScoped(Create(db, cache, tenant, r, id, now).cache)
  {
    EvictionKeepsScoped(cache, if tenant.Some? then Evicted(tenant.value, r.primaryBranchId) else {});
  }

  /** A patient just created shows up in its tenant's lists and in no other tenant's. */
  lemma CreatedPatientListed(db: Db, cache: Cache, t: Guid, r: CreatePatientRequest, id: Guid, now: nat, t': Guid, b: Option<Guid>)
    requires Create(db, cache, Some(t), r, id, now).response.Created?
    ensures var o := Create(db, cache, Some(t), r, id, now);
      (ToResponse(NewPatient(t, r, id, now)) in Listing(o.db.patients, t', b)
       <==> t' == t && (b.None? || b == r.primaryBranchId))
  {
    var o := Create(db, cache, Some(t), r, id, now);
    var p := NewPatient(t, r, id, now);
    ListingSpec(o.db.patients, t', b);
  }
}
