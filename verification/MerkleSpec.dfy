/**
 * The meaning of the level-by-level Merkle loops: the root of a list is the root of a perfect
 * binary tree over the list's duplicate-last completion.
 */
module MerkleSpec {

  // ---------- One level at a time, for any node function ----------

  function Pad<T>(level: seq<T>): (r: seq<T>)
  {
    if |level| % 2 == 1 then level + [level[|level| - 1]] else level
  }

  /** The level above: neighbours hashed in pairs, a last odd one with itself. */
  function NextLevel<T>(node: (T, T) -> T, level: seq<T>): (r: seq<T>)
    ensures |r| == (|level| + 1) / 2
  {
    if |level| == 0 then []
    else if |level| == 1 then [node(level[0], level[0])]
    else [node(level[0], level[1])] + NextLevel(node, level[2..])
  }

  function LevelRoot<T>(node: (T, T) -> T, level: seq<T>): T
    requires |level| > 0
    decreases |level|
  {
    if |level| == 1 then level[0] else LevelRoot(node, NextLevel(node, level))
  }

  // ---------- The duplicate-last completion ----------

  function Pow2(d: nat): (r: nat)
    ensures r > 0
  {
    if d == 0 then 1 else 2 * Pow2(d - 1)
  }

  /** Number of levels above n leaves. */
  function Depth(n: nat): nat
    decreases n
  {
    if n <= 1 then 0 else 1 + Depth((n + 1) / 2)
  }

  /** The depth is the base-two logarithm rounded up: the least d with n <= 2^d. */
  lemma {:induction false} DepthIsCeilLog2(n: nat)
    requires n > 0
    ensures n <= Pow2(Depth(n))
    ensures Depth(n) > 0 ==> Pow2(Depth(n) - 1) < n
    decreases n
  {
    if n > 1 {
      DepthIsCeilLog2((n + 1) / 2);
    }
  }

  /** The position in a list of n leaves that leaf j of the completed tree copies. */
  function Source(n: nat, j: nat): (i: nat)
    requires n > 0
    ensures i < n
    decreases n
  {
    if n == 1 then 0 else
    var i := 2 * Source((n + 1) / 2, j / 2) + j % 2;
    if i < n then i else n - 1
  }

  /** The perfect tree's leaves: the list itself, then copies of its last block at each level. */
  function Completion<T>(s: seq<T>): (r: seq<T>)
    requires |s| > 0
    ensures |r| == Pow2(Depth(|s|))
  {
    Copies(s, Pow2(Depth(|s|)))
  }

  function Copies<T>(s: seq<T>, size: nat): (r: seq<T>)
    requires |s| > 0
    ensures |r| == size
  {
    if size == 0 then [] else Copies(s, size - 1) + [s[Source(|s|, size - 1)]]
  }

  lemma {:induction false} CopiesAt<T>(s: seq<T>, size: nat, j: nat)
    requires |s| > 0 && j < size
    ensures Copies(s, size)[j] == s[Source(|s|, j)]
  {
    if j < size - 1 {
      CopiesAt(s, size - 1, j);
    }
  }

  lemma CompletionAt<T>(s: seq<T>, j: nat)
    requires |s| > 0 && j < Pow2(Depth(|s|))
    ensures Completion(s)[j] == s[Source(|s|, j)]
  {
    CopiesAt(s, Pow2(Depth(|s|)), j);
  }

  lemma {:induction false} SourceOfOwnLeaf(n: nat, j: nat)
    requires j < n
    ensures Source(n, j) == j
    decreases n
  {
    if n > 1 {
      SourceOfOwnLeaf((n + 1) / 2, j / 2);
    }
  }

  /** The completion starts with the list itself and adds no new element. */
  lemma CompletionExtends<T>(s: seq<T>)
    requires |s| > 0
    ensures |s| <= |Completion(s)| && Completion(s)[..|s|] == s
    ensures forall x :: x in Completion(s) <==> x in s
  {
    DepthIsCeilLog2(|s|);
    var c := Completion(s);
    forall j: nat | j < |c| ensures c[j] in s && (j < |s| ==> c[j] == s[j]) {
      CompletionAt(s, j);
      if j < |s| {
        SourceOfOwnLeaf(|s|, j);
      }
    }
    forall x | x in s ensures x in c {
      var j :| 0 <= j < |s| && s[j] == x;
      assert c[j] == x;
    }
  }

  /** An odd list and the same list with its last element repeated have one completion. */
  lemma OddListAndRepeat<T>(s: seq<T>)
    requires |s| > 1 && |s| % 2 == 1
    ensures Completion(s) == Completion(Pad(s))
  {
    var n := |s|;
    assert (n + 2) / 2 == (n + 1) / 2;
    var a, b := Completion(s), Completion(Pad(s));
    forall j: nat | j < |a| ensures a[j] == b[j] {
      CompletionAt(s, j);
      CompletionAt(Pad(s), j);
      assert Source(n + 1, j) == 2 * Source((n + 1) / 2, j / 2) + j % 2;
    }
  }

  /** Lists without repetitions are determined by their completion. */
  lemma CompletionInjectiveOnDistinct<T>(a: seq<T>, b: seq<T>)
    requires |a| > 0 && |b| > 0 && Completion(a) == Completion(b)
    requires forall i, j :: 0 <= i < j < |a| ==> a[i] != a[j]
    requires forall i, j :: 0 <= i < j < |b| ==> b[i] != b[j]
    ensures a == b
  {
    CompletionExtends(a);
    CompletionExtends(b);
    DistinctPrefix(a, b);
    DistinctPrefix(b, a);
  }

  lemma DistinctPrefix<T>(a: seq<T>, b: seq<T>)
    requires |a| > 0 && |b| > 0 && Completion(a) == Completion(b)
    requires forall i, j :: 0 <= i < j < |a| ==> a[i] != a[j]
    ensures a <= b
  {
    DistinctPrefixAt(a, b, |a| - 1);
    forall i: nat | i < |a| ensures a[i] == b[i] {
      DistinctPrefixAt(a, b, i);
    }
  }

  lemma DistinctPrefixAt<T>(a: seq<T>, b: seq<T>, i: nat)
    requires |a| > 0 && |b| > 0 && Completion(a) == Completion(b)
    requires forall i, j :: 0 <= i < j < |a| ==> a[i] != a[j]
    requires i < |a|
    ensures i < |b| && a[i] == b[i]
  {
    CompletionExtends(a);
    CompletionExtends(b);
    var c := Completion(a);
    assert c[..|a|][i] == c[i];
    assert a[i] in c;
    var j :| 0 <= j < |b| && b[j] == a[i];
    assert c[..|b|][j] == c[j];
    if j < |a| {
      assert c[..|a|][j] == c[j];
    }
  }

  /** Completions of lists of equal length are equal exactly when the lists are. */
  lemma CompletionInjectiveOnLength<T>(a: seq<T>, b: seq<T>)
    requires |a| == |b| > 0 && Completion(a) == Completion(b)
    ensures a == b
  {
    CompletionExtends(a);
    CompletionExtends(b);
  }

  // ---------- The perfect tree, from the top down ----------

  function PerfectRoot<T>(node: (T, T) -> T, d: nat, s: seq<T>): T
    requires |s| == Pow2(d)
  {
    if d == 0 then s[0]
    else node(PerfectRoot(node, d - 1, s[..Pow2(d - 1)]), PerfectRoot(node, d - 1, s[Pow2(d - 1)..]))
  }

  lemma {:induction false} NextLevelAt<T>(node: (T, T) -> T, s: seq<T>, i: nat)
    requires i < (|s| + 1) / 2
    ensures 2 * i < |s|
    ensures NextLevel(node, s)[i] == node(s[2 * i], if 2 * i + 1 < |s| then s[2 * i + 1] else s[2 * i])
  {
    if |s| > 1 && i > 0 {
      NextLevelAt(node, s[2..], i - 1);
    }
  }

  lemma {:induction false} NextLevelOfHalves<T>(node: (T, T) -> T, l: seq<T>, r: seq<T>)
    requires |l| % 2 == 0
    ensures NextLevel(node, l + r) == NextLevel(node, l) + NextLevel(node, r)
  {
    if l == [] {
      assert l + r == r;
    } else {
      assert (l + r)[2..] == l[2..] + r;
      NextLevelOfHalves(node, l[2..], r);
    }
  }

  lemma PerfectRootOfHalves<T>(node: (T, T) -> T, d: nat, l: seq<T>, r: seq<T>)
    requires |l| == |r| == Pow2(d)
    ensures PerfectRoot(node, d + 1, l + r) == node(PerfectRoot(node, d, l), PerfectRoot(node, d, r))
  {
    assert (l + r)[..Pow2(d)] == l && (l + r)[Pow2(d)..] == r;
  }

  /** Hashing the leaves of a perfect tree in pairs first leaves its root unchanged. */
  lemma {:induction false} PerfectRootOfNextLevel<T>(node: (T, T) -> T, d: nat, s: seq<T>)
    requires d > 0 && |s| == Pow2(d)
    ensures |NextLevel(node, s)| == Pow2(d - 1)
    ensures PerfectRoot(node, d, s) == PerfectRoot(node, d - 1, NextLevel(node, s))
  {
    if d == 1 {
      NextLevelAt(node, s, 0);
    } else {
      var l, r := s[..Pow2(d - 1)], s[Pow2(d - 1)..];
      assert s == l + r;
      PerfectRootOfNextLevel(node, d - 1, l);
      PerfectRootOfNextLevel(node, d - 1, r);
      NextLevelOfHalves(node, l, r);
      PerfectRootOfHalves(node, d - 1, l, r);
      PerfectRootOfHalves(node, d - 2, NextLevel(node, l), NextLevel(node, r));
    }
  }

  lemma CompletionOfNextLevel<T>(node: (T, T) -> T, s: seq<T>)
    requires |s| > 1
    ensures Completion(NextLevel(node, s)) == NextLevel(node, Completion(s))
  {
    var high, next := Completion(NextLevel(node, s)), NextLevel(node, Completion(s));
    LengthsOfNextLevel(node, s);
    forall j: nat | j < |high| ensures high[j] == next[j] {
      CompletionOfNextLevelAt(node, s, j);
    }
    assert high == next;
  }

  lemma LengthsOfNextLevel<T>(node: (T, T) -> T, s: seq<T>)
    requires |s| > 1
    ensures |Completion(NextLevel(node, s))| == Pow2(Depth((|s| + 1) / 2)) == |NextLevel(node, Completion(s))|
  {
  }

  lemma SourceOfChildren(n: nat, j: nat)
    requires n > 1
    ensures var p := Source((n + 1) / 2, j);
            && Source(n, 2 * j) == 2 * p
            && Source(n, 2 * j + 1) == if 2 * p + 1 < n then 2 * p + 1 else 2 * p
  {
    assert (2 * j) / 2 == j && (2 * j + 1) / 2 == j;
  }

  lemma CompletionOfNextLevelAt<T>(node: (T, T) -> T, s: seq<T>, j: nat)
    requires |s| > 1 && j < Pow2(Depth((|s| + 1) / 2))
    ensures Completion(NextLevel(node, s))[j] == NextLevel(node, Completion(s))[j]
  {
    var p := Source((|s| + 1) / 2, j);
    SourceOfChildren(|s|, j);
    CompletionAt(NextLevel(node, s), j);
    CompletionAt(s, 2 * j);
    CompletionAt(s, 2 * j + 1);
    NextLevelAt(node, s, p);
    NextLevelAt(node, Completion(s), j);
  }

  /** The level loop computes the root of the perfect tree over the duplicate-last completion. */
  lemma {:induction false} LevelRootIsPerfectRoot<T>(node: (T, T) -> T, s: seq<T>)
    requires |s| > 0
    ensures LevelRoot(node, s) == PerfectRoot(node, Depth(|s|), Completion(s))
    decreases |s|
  {
    if |s| == 1 {
      assert Completion(s) == s;
    } else {
      var next := NextLevel(node, s);
      LevelRootIsPerfectRoot(node, next);
      CompletionOfNextLevel(node, s);
      PerfectRootOfNextLevel(node, Depth(|s|), Completion(s));
    }
  }
}
