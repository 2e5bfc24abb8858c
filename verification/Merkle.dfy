/** internal/merkle: tagged hashes, the two tree loops, the path fold, and what equal roots mean. */
module Merkle {
  import opened Common
  import opened MerkleSpec

  const LEAF_TAG: byte := 0
  const INNER_TAG: byte := 1

  function LeafInput(data: Bytes): Bytes {
    [LEAF_TAG] + data
  }

  function NodeInput(l: Digest, r: Digest): Bytes {
    [INNER_TAG] + l + r
  }

  lemma NodeInputInjective(l: Digest, r: Digest, l': Digest, r': Digest)
    requires NodeInput(l, r) == NodeInput(l', r')
    ensures l == l' && r == r'
  {
    var a, b := NodeInput(l, r), NodeInput(l', r');
    assert l == a[1..33] && l' == b[1..33];
    assert r == a[33..] && r' == b[33..];
  }

  function Leaf(H: Hasher, data: Bytes): Digest {
    H(LeafInput(data))
  }

  function Node(H: Hasher): (Digest, Digest) -> Digest {
    (l, r) => H(NodeInput(l, r))
  }

  function Leaves(H: Hasher, raw: seq<Bytes>): (r: seq<Digest>)
    ensures |r| == |raw|
    ensures forall i :: 0 <= i < |raw| ==> r[i] == Leaf(H, raw[i])
  {
    if raw == [] then [] else [Leaf(H, raw[0])] + Leaves(H, raw[1..])
  }

  /** What both loops compute; the empty list hashes the leaf tag alone. */
  function Root(H: Hasher, raw: seq<Bytes>): Digest {
    if raw == [] then H([LEAF_TAG]) else LevelRoot(Node(H), Leaves(H, raw))
  }

  /** The roots of up to three leaves, byte by byte: tag 0 before a leaf, tag 1 before two nodes, the odd one twice. */
  lemma RootsOfFew(H: Hasher, a: Bytes, b: Bytes, c: Bytes)
    ensures Root(H, []) == H([0])
    ensures Root(H, [a]) == H([0] + a)
    ensures Root(H, [a, b]) == H([1] + H([0] + a) + H([0] + b))
    ensures Root(H, [a, b, c]) == H([1] + H([1] + H([0] + a) + H([0] + b)) + H([1] + H([0] + c) + H([0] + c)))
  {
    var x, y, z := Leaf(H, a), Leaf(H, b), Leaf(H, c);
    assert Leaves(H, [a]) == [x] && Leaves(H, [a, b]) == [x, y] && Leaves(H, [a, b, c]) == [x, y, z];
    LevelsOfFew(Node(H), x, y, z);
    hide LevelRoot, Leaves;
    NodeSpelled(H, x, y);
    NodeSpelled(H, z, z);
    NodeSpelled(H, Node(H)(x, y), Node(H)(z, z));
  }

  lemma NodeSpelled(H: Hasher, l: Digest, r: Digest)
    ensures Node(H)(l, r) == H([1] + l + r)
  {
    assert NodeInput(l, r) == [1] + l + r;
  }

  lemma LevelsOfFew<T>(node: (T, T) -> T, x: T, y: T, z: T)
    ensures LevelRoot(node, [x]) == x
    ensures LevelRoot(node, [x, y]) == node(x, y)
    ensures LevelRoot(node, [x, y, z]) == node(node(x, y), node(z, z))
  {
    hide LevelRoot;
    LevelRootOfOne(node, x);
    LevelRootOfOne(node, node(x, y));
    LevelRootOfOne(node, node(node(x, y), node(z, z)));
    LevelRootUp(node, [x, y]);
    LevelRootUp(node, [x, y, z]);
    LevelRootUp(node, [node(x, y), node(z, z)]);
    assert [x, y][2..] == [] && [x, y, z][2..] == [z] && [node(x, y), node(z, z)][2..] == [];
    assert NextLevel(node, [x, y]) == [node(x, y)];
    assert NextLevel(node, [x, y, z]) == [node(x, y), node(z, z)];
    assert NextLevel(node, [node(x, y), node(z, z)]) == [node(node(x, y), node(z, z))];
  }

  lemma LevelRootOfOne<T>(node: (T, T) -> T, x: T)
    ensures LevelRoot(node, [x]) == x
  {
  }

  lemma LevelRootUp<T>(node: (T, T) -> T, level: seq<T>)
    requires |level| > 1
    ensures LevelRoot(node, level) == LevelRoot(node, NextLevel(node, level))
  {
  }

  // ---------- The reference tree ----------

  /** The tagged root of a perfect tree over raw payloads, from the top down. */
  function TreeHash(H: Hasher, d: nat, t: seq<Bytes>): Digest
    requires |t| == Pow2(d)
  {
    H(RootInput(H, d, t))
  }

  /** The bytes hashed last for a perfect tree's root. */
  function RootInput(H: Hasher, d: nat, t: seq<Bytes>): Bytes
    requires |t| == Pow2(d)
  {
    if d == 0 then LeafInput(t[0])
    else NodeInput(H(RootInput(H, d - 1, t[..Pow2(d - 1)])), H(RootInput(H, d - 1, t[Pow2(d - 1)..])))
  }

  /** Every byte string hashed for a perfect tree. */
  ghost function Inputs(H: Hasher, d: nat, t: seq<Bytes>): (r: set<Bytes>)
    requires |t| == Pow2(d)
    ensures RootInput(H, d, t) in r
  {
    {RootInput(H, d, t)} +
    if d == 0 then {}
    else Inputs(H, d - 1, t[..Pow2(d - 1)]) + Inputs(H, d - 1, t[Pow2(d - 1)..])
  }

  /** The completed leaf list of a root. No leaf at all counts as one empty leaf: both hash to H(0x00). */
  function Completed(raw: seq<Bytes>): (r: seq<Bytes>)
    ensures |r| == Pow2(Depth(|raw|))
  {
    if raw == [] then [[]] else Completion(raw)
  }

  /** Every byte string hashed for the root of a list. */
  ghost function RootInputs(H: Hasher, raw: seq<Bytes>): set<Bytes> {
    Inputs(H, Depth(|raw|), Completed(raw))
  }

  lemma {:induction false} TreeHashIsPerfectRoot(H: Hasher, d: nat, t: seq<Bytes>)
    requires |t| == Pow2(d)
    ensures TreeHash(H, d, t) == PerfectRoot(Node(H), d, Leaves(H, t))
  {
    if d > 0 {
      var half := Pow2(d - 1);
      TreeHashIsPerfectRoot(H, d - 1, t[..half]);
      TreeHashIsPerfectRoot(H, d - 1, t[half..]);
      assert Leaves(H, t)[..half] == Leaves(H, t[..half]);
      assert Leaves(H, t)[half..] == Leaves(H, t[half..]);
    }
  }

  lemma LeavesOfCompletion(H: Hasher, raw: seq<Bytes>)
    requires raw != []
    ensures Leaves(H, Completion(raw)) == Completion(Leaves(H, raw))
  {
    var a, b := Leaves(H, Completion(raw)), Completion(Leaves(H, raw));
    forall j: nat | j < |a| ensures a[j] == b[j] {
      CompletionAt(raw, j);
      CompletionAt(Leaves(H, raw), j);
    }
    assert a == b;
  }

  /** The root of a list is the reference hash of its duplicate-last completion. */
  lemma RootIsTreeHash(H: Hasher, raw: seq<Bytes>)
    ensures Root(H, raw) == TreeHash(H, Depth(|raw|), Completed(raw))
  {
    if raw == [] {
      assert LeafInput([]) == [LEAF_TAG];
    } else {
      LevelRootIsPerfectRoot(Node(H), Leaves(H, raw));
      LeavesOfCompletion(H, raw);
      TreeHashIsPerfectRoot(H, Depth(|raw|), Completion(raw));
    }
  }

  // ---------- Binding ----------

  lemma TreeOfHalves(H: Hasher, d: nat, l: seq<Bytes>, r: seq<Bytes>)
    requires |l| == |r| == Pow2(d)
    ensures RootInput(H, d + 1, l + r) == NodeInput(TreeHash(H, d, l), TreeHash(H, d, r))
    ensures Inputs(H, d, l) <= Inputs(H, d + 1, l + r)
    ensures Inputs(H, d, r) <= Inputs(H, d + 1, l + r)
  {
    assert (l + r)[..Pow2(d)] == l && (l + r)[Pow2(d)..] == r;
  }

  /** A leaf input is never a node input, and each leaf input comes from one payload. */
  lemma RootInputOfLeaf(H: Hasher, d: nat, t: seq<Bytes>, data: Bytes)
    requires |t| == Pow2(d) && RootInput(H, d, t) == LeafInput(data)
    ensures d == 0 && t == [data]
  {
    assert RootInput(H, d, t)[0] == LEAF_TAG;
    if d > 0 {
      assert false;
    }
    assert t[0] == LeafInput(t[0])[1..] && data == LeafInput(data)[1..];
  }

  lemma {:induction false} TreeHashBinds(H: Hasher, d: nat, t: seq<Bytes>, e: nat, u: seq<Bytes>)
    requires |t| == Pow2(d) && |u| == Pow2(e)
    requires TreeHash(H, d, t) == TreeHash(H, e, u)
    ensures t == u || Collision(H, Inputs(H, d, t), Inputs(H, e, u))
    decreases d, 1
  {
    var x, y := RootInput(H, d, t), RootInput(H, e, u);
    if x != y {
      CollisionIn(H, x, y, Inputs(H, d, t), Inputs(H, e, u));
    } else if d == 0 {
      RootInputOfLeaf(H, e, u, t[0]);
    } else if e == 0 {
      RootInputOfLeaf(H, d, t, u[0]);
    } else {
      assert t == t[..Pow2(d - 1)] + t[Pow2(d - 1)..] && u == u[..Pow2(e - 1)] + u[Pow2(e - 1)..];
      HalvesBind(H, d - 1, t[..Pow2(d - 1)], t[Pow2(d - 1)..], e - 1, u[..Pow2(e - 1)], u[Pow2(e - 1)..]);
    }
  }

  lemma {:induction false} HalvesBind(H: Hasher, d: nat, tl: seq<Bytes>, tr: seq<Bytes>, e: nat, ul: seq<Bytes>,
                                      ur: seq<Bytes>)
    requires |tl| == |tr| == Pow2(d) && |ul| == |ur| == Pow2(e)
    requires RootInput(H, d + 1, tl + tr) == RootInput(H, e + 1, ul + ur)
    ensures tl + tr == ul + ur || Collision(H, Inputs(H, d + 1, tl + tr), Inputs(H, e + 1, ul + ur))
    decreases d + 1, 0
  {
    HalvesHashEqual(H, d, tl, tr, e, ul, ur);
    TreeHashBinds(H, d, tl, e, ul);
    TreeHashBinds(H, d, tr, e, ur);
    if tl != ul {
      HalvesCollide(H, d, tl, tl, tr, e, ul, ul, ur);
    } else if tr != ur {
      HalvesCollide(H, d, tr, tl, tr, e, ur, ul, ur);
    }
  }

  lemma HalvesHashEqual(H: Hasher, d: nat, tl: seq<Bytes>, tr: seq<Bytes>, e: nat, ul: seq<Bytes>, ur: seq<Bytes>)
    requires |tl| == |tr| == Pow2(d) && |ul| == |ur| == Pow2(e)
    requires RootInput(H, d + 1, tl + tr) == RootInput(H, e + 1, ul + ur)
    ensures TreeHash(H, d, tl) == TreeHash(H, e, ul) && TreeHash(H, d, tr) == TreeHash(H, e, ur)
  {
    TreeOfHalves(H, d, tl, tr);
    TreeOfHalves(H, e, ul, ur);
    NodeInputInjective(TreeHash(H, d, tl), TreeHash(H, d, tr), TreeHash(H, e, ul), TreeHash(H, e, ur));
  }

  lemma HalvesCollide(H: Hasher, d: nat, t: seq<Bytes>, tl: seq<Bytes>, tr: seq<Bytes>,
                      e: nat, u: seq<Bytes>, ul: seq<Bytes>, ur: seq<Bytes>)
    requires |t| == |tl| == |tr| == Pow2(d) && |u| == |ul| == |ur| == Pow2(e)
    requires (t == tl || t == tr) && (u == ul || u == ur)
    requires Collision(H, Inputs(H, d, t), Inputs(H, e, u))
    ensures Collision(H, Inputs(H, d + 1, tl + tr), Inputs(H, e + 1, ul + ur))
  {
    TreeOfHalves(H, d, tl, tr);
    TreeOfHalves(H, e, ul, ur);
    CollisionGrows(H, Inputs(H, d, t), Inputs(H, e, u), Inputs(H, d + 1, tl + tr), Inputs(H, e + 1, ul + ur));
  }

  /** Lists with one completion have one root. */
  lemma EqualCompletionsEqualRoots(H: Hasher, a: seq<Bytes>, b: seq<Bytes>)
    requires Completed(a) == Completed(b)
    ensures Root(H, a) == Root(H, b)
  {
    RootIsTreeHash(H, a);
    RootIsTreeHash(H, b);
    Pow2Injective(Depth(|a|), Depth(|b|));
  }

  lemma {:induction false} Pow2Injective(d: nat, e: nat)
    requires Pow2(d) == Pow2(e)
    ensures d == e
  {
    if d > 0 && e > 0 {
      Pow2Injective(d - 1, e - 1);
    }
  }

  /**
   * A root binds the completion of its list: without a collision among the bytes hashed for the
   * two trees, roots are equal exactly when the completions are.
   */
  lemma RootBinds(H: Hasher, a: seq<Bytes>, b: seq<Bytes>)
    ensures Collision(H, RootInputs(H, a), RootInputs(H, b))
            || (Root(H, a) == Root(H, b) <==> Completed(a) == Completed(b))
  {
    if Root(H, a) == Root(H, b) {
      RootIsTreeHash(H, a);
      RootIsTreeHash(H, b);
      TreeHashBinds(H, Depth(|a|), Completed(a), Depth(|b|), Completed(b));
    } else if Completed(a) == Completed(b) {
      EqualCompletionsEqualRoots(H, a, b);
    }
  }

  /** Among lists of one length a root binds the list itself. */
  lemma RootBindsEqualLengths(H: Hasher, a: seq<Bytes>, b: seq<Bytes>)
    requires |a| == |b| && Root(H, a) == Root(H, b)
    ensures a == b || Collision(H, RootInputs(H, a), RootInputs(H, b))
  {
    RootBinds(H, a, b);
    if Completed(a) == Completed(b) && a != [] {
      CompletionInjectiveOnLength(a, b);
    }
  }

  /** Among lists without repetitions that avoid the lone empty leaf, it does so for any lengths. */
  lemma RootBindsDistinct(H: Hasher, a: seq<Bytes>, b: seq<Bytes>)
    requires Root(H, a) == Root(H, b)
    requires forall i, j :: 0 <= i < j < |a| ==> a[i] != a[j]
    requires forall i, j :: 0 <= i < j < |b| ==> b[i] != b[j]
    requires a != [[]] && b != [[]]
    ensures a == b || Collision(H, RootInputs(H, a), RootInputs(H, b))
  {
    RootBinds(H, a, b);
    if Completed(a) == Completed(b) {
      if a == [] || b == [] {
        OneLeafCompletion(a);
        OneLeafCompletion(b);
      } else {
        CompletionInjectiveOnDistinct(a, b);
      }
    }
  }

  lemma OneLeafCompletion(a: seq<Bytes>)
    requires Completed(a) == [[]] && a != [[]]
    requires forall i, j :: 0 <= i < j < |a| ==> a[i] != a[j]
    ensures a == []
  {
    if a != [] {
      CompletionExtends(a);
    }
  }

  /** The cost of the odd-node rule: repeating the last leaf of an odd list leaves the root unchanged. */
  lemma RepeatedLastLeafSameRoot(H: Hasher, raw: seq<Bytes>)
    requires |raw| > 1 && |raw| % 2 == 1
    ensures Root(H, raw + [raw[|raw| - 1]]) == Root(H, raw)
  {
    OddListAndRepeat(raw);
    EqualCompletionsEqualRoots(H, Pad(raw), raw);
  }

  // ---------- The loops ----------

  lemma {:induction false} NextLevelOfPad<T>(node: (T, T) -> T, s: seq<T>)
    ensures NextLevel(node, Pad(s)) == NextLevel(node, s)
  {
    if |s| > 1 {
      NextLevelOfPad(node, s[2..]);
      assert Pad(s)[2..] == Pad(s[2..]);
    }
  }

  lemma NextLevelExtend<T>(node: (T, T) -> T, s: seq<T>, i: nat)
    requires i % 2 == 0 && i + 1 < |s|
    ensures NextLevel(node, s[..i + 2]) == NextLevel(node, s[..i]) + [node(s[i], s[i + 1])]
  {
    assert s[..i + 2] == s[..i] + [s[i], s[i + 1]];
    NextLevelOfHalves(node, s[..i], [s[i], s[i + 1]]);
    assert [s[i], s[i + 1]][2..] == [];
  }

  /** The inner loop: fill the next level by index. */
  method HashPairs(H: Hasher, current: seq<Digest>) returns (next: seq<Digest>)
    requires |current| % 2 == 0
    ensures next == NextLevel(Node(H), current)
  {
    var a := new Digest[|current| / 2](_ => ZERO_DIGEST);
    var i := 0;
    while i < |current|
      invariant 0 <= i <= |current| && i % 2 == 0
      invariant a[..i / 2] == NextLevel(Node(H), current[..i])
    {
      NextLevelExtend(Node(H), current, i);
      a[i / 2] := Node(H)(current[i], current[i + 1]);
      i := i + 2;
    }
    assert current[..i] == current;
    next := a[..];
  }

  /** Pads an odd level by appending its last node. The SHA-256 tree of merkle.go is this loop at another H. */
  method Blake3RootFromRaw(H: Hasher, rawLeaves: seq<Bytes>) returns (root: Digest)
    ensures root == Root(H, rawLeaves)
  {
    if |rawLeaves| == 0 {
      return H([LEAF_TAG]);
    }
    var level := new Digest[|rawLeaves|](_ => ZERO_DIGEST);
    for i := 0 to |rawLeaves|
      invariant level[..i] == Leaves(H, rawLeaves)[..i]
    {
      level[i] := Leaf(H, rawLeaves[i]);
    }
    var current: seq<Digest> := level[..];
    assert current == Leaves(H, rawLeaves);
    while |current| > 1
      invariant |current| > 0
      invariant LevelRoot(Node(H), current) == Root(H, rawLeaves)
      decreases |current|
    {
      NextLevelOfPad(Node(H), current);
      if |current| % 2 == 1 {
        current := current + [current[|current| - 1]];
      }
      current := HashPairs(H, current);
    }
    root := current[0];
  }

  datatype PathError = LengthMismatch | BadSibling | BadDirection

  /** Go's BytesTo32. */
  function BytesTo32(b: Bytes): Result<Digest, PathError> {
    if |b| != 32 then Err(BadSibling) else Ok(b)
  }

  /** One step up: direction 0 keeps the node on the left, 1 on the right. */
  function StepUp(H: Hasher, node: Digest, sibling: Bytes, direction: byte): Result<Digest, PathError> {
    match BytesTo32(sibling)
    case Err(e) => Err(e)
    case Ok(sib) =>
      if direction == 0 then Ok(Node(H)(node, sib))
      else if direction == 1 then Ok(Node(H)(sib, node))
      else Err(BadDirection)
  }

  /** One step, byte by byte: direction 0 hashes the node before its sibling, 1 after it; anything else is an error. */
  lemma StepUpSpelled(H: Hasher, node: Digest, sibling: Bytes, direction: byte)
    ensures |sibling| == 32 && direction == 0 ==> StepUp(H, node, sibling, direction) == Ok(H([1] + node + sibling))
    ensures |sibling| == 32 && direction == 1 ==> StepUp(H, node, sibling, direction) == Ok(H([1] + sibling + node))
    ensures |sibling| == 32 && direction > 1 ==> StepUp(H, node, sibling, direction) == Err(BadDirection)
    ensures |sibling| != 32 ==> StepUp(H, node, sibling, direction) == Err(BadSibling)
  {
    if |sibling| == 32 {
      var s: Digest := sibling;
      NodeSpelled(H, node, s);
      NodeSpelled(H, s, node);
      assert [1] + node + s == [1] + node + sibling && [1] + s + node == [1] + sibling + node;
    }
  }

  /** The whole path, its last step outermost. */
  function FoldPath(H: Hasher, leaf: Digest, siblings: seq<Bytes>, directions: seq<byte>): Result<Digest, PathError>
    requires |siblings| == |directions|
  {
    if siblings == [] then Ok(leaf) else
    var k := |siblings| - 1;
    match FoldPath(H, leaf, siblings[..k], directions[..k])
    case Err(e) => Err(e)
    case Ok(node) => StepUp(H, node, siblings[k], directions[k])
  }

  lemma {:induction false} FoldPathErrorStays(H: Hasher, leaf: Digest, siblings: seq<Bytes>, directions: seq<byte>,
                                              k: nat)
    requires k <= |siblings| == |directions|
    requires FoldPath(H, leaf, siblings[..k], directions[..k]).Err?
    ensures FoldPath(H, leaf, siblings, directions) == FoldPath(H, leaf, siblings[..k], directions[..k])
    decreases |siblings|
  {
    if k == |siblings| {
      assert siblings[..k] == siblings && directions[..k] == directions;
    } else {
      var n := |siblings| - 1;
      assert siblings[..n][..k] == siblings[..k] && directions[..n][..k] == directions[..k];
      FoldPathErrorStays(H, leaf, siblings[..n], directions[..n], k);
    }
  }

  /** A path of any length folds exactly when every sibling has 32 bytes and every direction is 0 or 1. */
  lemma {:induction false} PathFoldsIff(H: Hasher, leaf: Digest, siblings: seq<Bytes>, directions: seq<byte>)
    requires |siblings| == |directions|
    ensures FoldPath(H, leaf, siblings, directions).Ok?
            <==> forall k :: 0 <= k < |siblings| ==> |siblings[k]| == 32 && directions[k] <= 1
  {
    if siblings != [] {
      var n := |siblings| - 1;
      PathFoldsIff(H, leaf, siblings[..n], directions[..n]);
      assert forall k :: 0 <= k < n ==> siblings[..n][k] == siblings[k] && directions[..n][k] == directions[k];
    }
  }

  method ComputeBlake3Root(H: Hasher, leaf: Digest, siblings: seq<Bytes>, directions: seq<byte>)
    returns (r: Result<Digest, PathError>)
    ensures r == if |siblings| != |directions| then Err(LengthMismatch) else FoldPath(H, leaf, siblings, directions)
  {
    if |siblings| != |directions| {
      return Err(LengthMismatch);
    }
    var node := leaf;
    for i := 0 to |siblings|
      invariant FoldPath(H, leaf, siblings[..i], directions[..i]) == Ok(node)
    {
      assert siblings[..i + 1][..i] == siblings[..i] && directions[..i + 1][..i] == directions[..i];
      var up := StepUp(H, node, siblings[i], directions[i]);
      if up.Err? {
        FoldPathErrorStays(H, leaf, siblings, directions, i + 1);
        return up;
      }
      node := up.value;
    }
    assert siblings[..|siblings|] == siblings && directions[..|siblings|] == directions;
    return Ok(node);
  }
}
