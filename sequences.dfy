/** Row filters (LINQ `Where`) and per-key uniqueness over ordered tables. */
module Sequences {
  import opened Wrappers

  /** No two rows share a key (a primary key or a unique index). */
  predicate UniqueBy<T, K(==)>(s: seq<T>, key: T -> K) {
    forall i, j | 0 <= i < j < |s| :: key(s[i]) != key(s[j])
  }

  /**
   * The rows that pass `keep` with argument `a`. The contract gives membership;
   * `WhereSnoc` gives order and multiplicity (the filter of `s + [x]` is the
   * filter of `s`, then `x` if it passes).
   */
  function Where<T, A>(s: seq<T>, keep: (T, A) -> bool, a: A): (r: seq<T>)
    ensures |r| <= |s|
    ensures forall x | x in r :: x in s && keep(x, a)
    ensures forall x | x in s && keep(x, a) :: x in r
    decreases |s|
  {
    if s == [] then []
    else
      var init, last := s[..|s| - 1], s[|s| - 1];
      assert s == init + [last];
      Where(init, keep, a) + (if keep(last, a) then [last] else [])
  }

  /** LINQ `FirstOrDefault(predicate)`: the earliest row that passes, if any. */
  function First<T, A>(s: seq<T>, keep: (T, A) -> bool, a: A): (r: Option<T>)
    ensures r.Some? ==> r.value in s && keep(r.value, a)
    ensures r.None? <==> forall x | x in s :: !keep(x, a)
    ensures r.Some? ==> exists i | 0 <= i < |s| :: s[i] == r.value && forall k | 0 <= k < i :: !keep(s[k], a)
    decreases |s|
  {
    if s == [] then None
    else if keep(s[0], a) then Some(s[0])
    else
      assert forall x | x in s :: x == s[0] || x in s[1..];
      var r := First(s[1..], keep, a);
      assert r.Some? ==> exists i | 0 <= i < |s| :: s[i] == r.value && forall k | 0 <= k < i :: !keep(s[k], a) by {
        if r.Some? {
          var i :| 0 <= i < |s[1..]| && s[1..][i] == r.value && forall k | 0 <= k < i :: !keep(s[1..][k], a);
          assert s[i + 1] == r.value;
          assert forall k | 0 < k < i + 1 :: s[k] == s[1..][k - 1];
        }
      }
      r
  }

  lemma WhereSnoc<T, A>(s: seq<T>, x: T, keep: (T, A) -> bool, a: A)
    ensures Where(s + [x], keep, a) == Where(s, keep, a) + (if keep(x, a) then [x] else [])
  {
    assert (s + [x])[..|s|] == s;
  }

  lemma {:induction false} WhereAll<T, A>(s: seq<T>, keep: (T, A) -> bool, a: A)
    requires forall x | x in s :: keep(x, a)
    ensures Where(s, keep, a) == s
    decreases |s|
  {
    if s != [] {
      var init, last := s[..|s| - 1], s[|s| - 1];
      assert s == init + [last];
      WhereAll(init, keep, a);
      WhereSnoc(init, last, keep, a);
    }
  }

  lemma {:induction false} WhereNone<T, A>(s: seq<T>, keep: (T, A) -> bool, a: A)
    requires forall x | x in s :: !keep(x, a)
    ensures Where(s, keep, a) == []
    decreases |s|
  {
    if s != [] {
      WhereNone(s[..|s| - 1], keep, a);
    }
  }

  /** Deleting rows never makes two remaining rows share a key. */
  lemma {:induction false} WhereUnique<T, A, K>(s: seq<T>, keep: (T, A) -> bool, a: A, key: T -> K)
    requires UniqueBy(s, key)
    ensures UniqueBy(Where(s, keep, a), key)
    decreases |s|
  {
    if s != [] {
      var init, last := s[..|s| - 1], s[|s| - 1];
      WhereUnique(init, keep, a, key);
      var w := Where(init, keep, a);
      if keep(last, a) {
        forall i | 0 <= i < |w| ensures key(w[i]) != key(last) {
          assert w[i] in init;
          var m :| 0 <= m < |init| && init[m] == w[i];
          assert s[m] == w[i];
        }
      }
    }
  }

  /** Appending one row keeps a key unique exactly when no existing row has its key. */
  lemma UniqueSnoc<T, K>(s: seq<T>, x: T, key: T -> K)
    requires UniqueBy(s, key)
    ensures UniqueBy(s + [x], key) <==> forall y | y in s :: key(y) != key(x)
  {
    var t := s + [x];
    if forall y | y in s :: key(y) != key(x) {
      forall i, j | 0 <= i < j < |t| ensures key(t[i]) != key(t[j]) {
        if j == |s| { assert t[i] in s; }
        else { assert t[i] == s[i] && t[j] == s[j]; }
      }
    } else {
      var y :| y in s && key(y) == key(x);
      var m :| 0 <= m < |s| && s[m] == y;
      assert t[m] == y && t[|s|] == x;
    }
  }

  /** Appending rows whose keys are unique among themselves and new to `s` keeps the key unique. */
  lemma UniqueAppend<T, K>(s: seq<T>, t: seq<T>, key: T -> K)
    requires UniqueBy(s, key) && UniqueBy(t, key)
    requires forall x, y | x in s && y in t :: key(x) != key(y)
    ensures UniqueBy(s + t, key)
  {
    var u := s + t;
    forall i, j | 0 <= i < j < |u| ensures key(u[i]) != key(u[j]) {
      if j < |s| {
        assert u[i] == s[i] && u[j] == s[j];
      } else if i >= |s| {
        assert u[i] == t[i - |s|] && u[j] == t[j - |s|];
      } else {
        assert u[i] in s && u[j] in t;
      }
    }
  }

  /** Replacing a row by one with the same key keeps that key unique. */
  lemma UniqueUpdate<T, K>(s: seq<T>, i: nat, x: T, key: T -> K)
    requires UniqueBy(s, key) && i < |s| && key(x) == key(s[i])
    ensures UniqueBy(s[i := x], key)
  {
    var t := s[i := x];
    forall m, n | 0 <= m < n < |t| ensures key(t[m]) != key(t[n]) {
      assert key(t[m]) == key(s[m]) && key(t[n]) == key(s[n]);
    }
  }

  // ----- Counting -----

  /** No value occurs twice. */
  predicate Distinct<T(==)>(s: seq<T>) {
    forall i, j | 0 <= i < j < |s| :: s[i] != s[j]
  }

  /** A sequence has at least as many entries as distinct values, and exactly as many when none repeats. */
  lemma {:induction false} DistinctCard<T>(s: seq<T>)
    ensures |set x | x in s| <= |s|
    ensures |set x | x in s| == |s| <==> Distinct(s)
    decreases |s|
  {
    if s != [] {
      var init, last := s[..|s| - 1], s[|s| - 1];
      assert s == init + [last];
      DistinctCard(init);
      assert (set x | x in s) == (set x | x in init) + {last};
      if last in init {
        var m :| 0 <= m < |init| && init[m] == last;
        assert s[m] == s[|s| - 1];
      } else {
        if Distinct(init) {
          forall i, j | 0 <= i < j < |s| ensures s[i] != s[j] {
            if j < |s| - 1 { assert s[i] == init[i] && s[j] == init[j]; }
            else { assert s[i] in init; }
          }
        } else {
          var i, j :| 0 <= i < j < |init| && init[i] == init[j];
          assert s[i] == s[j];
        }
      }
    }
  }

  /** The keys the rows carry. */
  ghost function KeySet<T, K>(s: seq<T>, key: T -> K): set<K> {
    set x | x in s :: key(x)
  }

  /** The keys of rows whose key is unique are as many as the rows. */
  lemma {:induction false} UniqueKeysCard<T, K>(s: seq<T>, key: T -> K)
    requires UniqueBy(s, key)
    ensures |KeySet(s, key)| == |s|
    decreases |s|
  {
    if s != [] {
      var init, last := s[..|s| - 1], s[|s| - 1];
      assert s == init + [last];
      UniqueKeysCard(init, key);
      assert KeySet(s, key) == KeySet(init, key) + {key(last)};
      forall y | y in init ensures key(y) != key(last) {
        var m :| 0 <= m < |init| && init[m] == y;
        assert s[m] == y;
      }
    }
  }

  lemma {:induction false} SubsetCard<T>(a: set<T>, b: set<T>)
    requires a <= b
    ensures |a| <= |b|
    decreases |a|
  {
    if a != {} {
      var x :| x in a;
      SubsetCard(a - {x}, b - {x});
    }
  }

  /** A subset as large as its superset is the superset. */
  lemma SubsetCardEqual<T>(a: set<T>, b: set<T>)
    requires a <= b && |a| == |b|
    ensures a == b
  {
    if a != b {
      var y :| y in b && y !in a;
      SubsetCard(a, b - {y});
    }
  }
}
