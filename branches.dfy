/** `BranchesController.GetByTenant`: the caller's branches, by name. */
module Branches {
  import opened Wrappers
  import opened Guids
  import opened Entities
  import opened Schema
  import opened Sequences
  import opened Sorting
  import opened Dtos
  import opened Http
  import Text

  predicate InTenant(b: Branch, tenantId: Guid) { b.tenantId == tenantId }

  /** `OrderBy(b => b.Name)`: a may come before b. */
  predicate NameNoLater(a: Branch, b: Branch) { Text.OrdinalLe(a.name, b.name) }

  lemma NameNoLaterTotalPreorder()
    ensures TotalPreorder(NameNoLater)
  {
    forall a: Branch, b: Branch ensures NameNoLater(a, b) || NameNoLater(b, a) {
      Text.OrdinalLeTotal(a.name, b.name);
    }
    forall a: Branch, b: Branch, c: Branch | NameNoLater(a, b) && NameNoLater(b, c) ensures NameNoLater(a, c) {
      Text.OrdinalLeTransitive(a.name, b.name, c.name);
    }
  }

  /** The listing for a caller whose token names `tenant`; it changes no state. */
  function ListBranches(db: Db, tenant: Option<Guid>): (r: Response<seq<BranchInfo>>)
    ensures tenant.None? <==> r == Forbid
    ensures tenant.Some? ==> r.Ok?
  {
    if tenant.None? then Forbid
    else
      var bs := SortBy(Where(db.branches, InTenant, tenant.value), NameNoLater);
      Ok(seq(|bs|, i requires 0 <= i < |bs| => Info(bs[i])))
  }

  /**
   * The listing holds exactly the (Id, Name) of each branch of the caller's
   * tenant, once per row, in name order.
   */
  lemma ListBranchesSpec(db: Db, t: Guid)
    ensures var l := ListBranches(db, Some(t)).body;
      && |l| == |Where(db.branches, InTenant, t)|
      && (forall b | b in db.branches && b.tenantId == t :: Info(b) in l)
      && (forall x | x in l :: exists b | b in db.branches :: b.tenantId == t && x == Info(b))
      && (forall i, j | 0 <= i < j < |l| :: Text.OrdinalLe(l[i].name, l[j].name))
  {
    ListedBranches(db, t);
    ListedBranchesByName(db, t);
  }

  /** The listing's entries are the tenant's branches, one per row. */
  lemma ListedBranches(db: Db, t: Guid)
    ensures var l := ListBranches(db, Some(t)).body;
      && |l| == |Where(db.branches, InTenant, t)|
      && (forall b | b in db.branches && b.tenantId == t :: Info(b) in l)
      && (forall x | x in l :: exists b | b in db.branches :: b.tenantId == t && x == Info(b))
  {
    var w := Where(db.branches, InTenant, t);
    var bs := SortBy(w, NameNoLater);
    var l := ListBranches(db, Some(t)).body;
    assert |bs| == |multiset(bs)| == |multiset(w)| == |w|;
    forall b | b in db.branches && b.tenantId == t ensures Info(b) in l {
      assert b in multiset(bs);
      var i :| 0 <= i < |bs| && bs[i] == b;
      assert l[i] == Info(b);
    }
    forall x | x in l ensures exists b | b in db.branches :: b.tenantId == t && x == Info(b) {
      var i :| 0 <= i < |l| && l[i] == x;
      assert bs[i] in multiset(w);
      assert bs[i] in w && l[i] == Info(bs[i]);
    }
  }

  /** The listing is in name order. */
  lemma ListedBranchesByName(db: Db, t: Guid)
    ensures var l := ListBranches(db, Some(t)).body;
      forall i, j | 0 <= i < j < |l| :: Text.OrdinalLe(l[i].name, l[j].name)
  {
    var w := Where(db.branches, InTenant, t);
    NameNoLaterTotalPreorder();
    SortBySorted(w, NameNoLater);
  }

  /** A caller never sees another tenant's branch. */
  lemma ListBranchesIsolated(db: Db, t: Guid, b: Branch)
    requires Consistent(db) && b in db.branches && b.tenantId != t
    ensures Info(b) !in ListBranches(db, Some(t)).body
  {
    ListBranchesSpec(db, t);
    var i :| 0 <= i < |db.branches| && db.branches[i] == b;
    forall b' | b' in db.branches && b'.tenantId == t ensures Info(b') != Info(b) {
      var j :| 0 <= j < |db.branches| && db.branches[j] == b';
      assert i != j;
      assert BranchKey(db.branches[i]) != BranchKey(db.branches[j]);
    }
  }
}
