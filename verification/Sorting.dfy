/** The library sorts (sort.Strings, sort.Slice, slices.SortFunc), by their contract alone. */
module Sorting {

  /** What the sorts ask of their less function: a strict order whose ties are transitive. */
  ghost predicate StrictWeak<T(!new)>(less: (T, T) -> bool) {
    && (forall x, y {:trigger less(x, y)} :: less(x, y) ==> !less(y, x))
    && (forall x, y, z {:trigger less(y, x), less(z, y)} :: !less(y, x) && !less(z, y) ==> !less(z, x))
  }

  ghost predicate SortedBy<T>(less: (T, T) -> bool, s: seq<T>) {
    forall i, j :: 0 <= i < j < |s| ==> !less(s[j], s[i])
  }

  /** A sorted rearrangement; nothing is said about the order of ties. */
  method Sort<T(!new)>(less: (T, T) -> bool, s: seq<T>) returns (r: seq<T>)
    requires StrictWeak(less)
    ensures SortedBy(less, r) && multiset(r) == multiset(s)
  {
    r := [];
    for n := 0 to |s|
      invariant SortedBy(less, r) && multiset(r) == multiset(s[..n])
    {
      var k := 0;
      while k < |r| && less(r[k], s[n])
        invariant 0 <= k <= |r|
        invariant forall i :: 0 <= i < k ==> less(r[i], s[n])
      {
        k := k + 1;
      }
      assert s[..n + 1] == s[..n] + [s[n]];
      assert r == r[..k] + r[k..];
      InsertKeepsSorted(less, r, s[n], k);
      r := r[..k] + [s[n]] + r[k..];
    }
    assert s[..|s|] == s;
  }

  lemma InsertKeepsSorted<T(!new)>(less: (T, T) -> bool, r: seq<T>, x: T, k: nat)
    requires StrictWeak(less) && SortedBy(less, r) && k <= |r|
    requires forall i :: 0 <= i < k ==> less(r[i], x)
    requires k < |r| ==> !less(r[k], x)
    ensures SortedBy(less, r[..k] + [x] + r[k..])
  {
    var t := r[..k] + [x] + r[k..];
    forall i, j | 0 <= i < j < |t| ensures !less(t[j], t[i]) {
      assert t[i] == if i < k then r[i] else if i == k then x else r[i - 1];
      assert t[j] == if j < k then r[j] else if j == k then x else r[j - 1];
      if i == k && j > k + 1 {
        assert !less(r[j - 1], r[k]);
      }
    }
  }

  // ---------- Multiplicity ----------

  lemma {:induction false} DistinctCountsOne<T>(s: seq<T>, x: T)
    requires forall i, j :: 0 <= i < j < |s| ==> s[i] != s[j]
    ensures multiset(s)[x] <= 1
  {
    if s != [] {
      assert s == s[..|s| - 1] + [s[|s| - 1]];
      DistinctCountsOne(s[..|s| - 1], x);
      if x == s[|s| - 1] {
        assert x !in s[..|s| - 1];
      }
    }
  }

  lemma RepeatCountsTwo<T>(s: seq<T>, i: nat, j: nat)
    requires i < j < |s| && s[i] == s[j]
    ensures multiset(s)[s[i]] >= 2
  {
    assert s == s[..j] + s[j..];
    assert s[i] in s[..j] && s[j] in s[j..];
  }
}
