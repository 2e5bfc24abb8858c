/** internal/types/proof.go: what an accepted inclusion proof proves, and a proof for every leaf. */
module Proofs {
  import opened Common
  import opened MerkleSpec
  import opened Merkle

  // ---------- Following a path down from the root ----------

  /** The leaf position a full path names: direction i is bit i. */
  function PathIndex(directions: seq<byte>): nat {
    if directions == [] then 0 else
    var k := |directions| - 1;
    PathIndex(directions[..k]) + (if directions[k] == 0 then 0 else Pow2(k))
  }

  function Half<T>(d: nat, t: seq<T>, direction: byte): (r: seq<T>)
    requires d > 0 && |t| == Pow2(d)
    ensures |r| == Pow2(d - 1)
  {
    if direction == 0 then t[..Pow2(d - 1)] else t[Pow2(d - 1)..]
  }

  /** The block of a perfect tree's leaves that a path leads to; its last direction is taken first. */
  function Subtree<T>(d: nat, t: seq<T>, directions: seq<byte>): (r: seq<T>)
    requires |t| == Pow2(d) && |directions| <= d
    ensures |r| == Pow2(d - |directions|)
  {
    if directions == [] then t else
    var k := |directions| - 1;
    Subtree(d - 1, Half(d, t, directions[k]), directions[..k])
  }

  lemma {:induction false} SubtreeOfFullPath<T>(d: nat, t: seq<T>, directions: seq<byte>)
    requires |t| == Pow2(d) && |directions| == d
    ensures PathIndex(directions) < Pow2(d) && Subtree(d, t, directions) == [t[PathIndex(directions)]]
  {
    if d > 0 {
      SubtreeOfFullPath(d - 1, Half(d, t, directions[d - 1]), directions[..d - 1]);
    }
  }

  function StepInput(node: Digest, sibling: Bytes, direction: byte): Bytes {
    [INNER_TAG] + (if direction == 0 then node + sibling else sibling + node)
  }

  /** Every byte string hashed on the way up a path. */
  ghost function PathInputs(H: Hasher, leaf: Digest, siblings: seq<Bytes>, directions: seq<byte>): set<Bytes>
    requires |siblings| == |directions|
  {
    if siblings == [] then {} else
    var k := |siblings| - 1;
    PathInputs(H, leaf, siblings[..k], directions[..k]) +
    match FoldPath(H, leaf, siblings[..k], directions[..k])
    case Err(_) => {}
    case Ok(node) => {StepInput(node, siblings[k], directions[k])}
  }

  lemma StepUpHashes(H: Hasher, node: Digest, sibling: Bytes, direction: byte)
    requires StepUp(H, node, sibling, direction).Ok?
    ensures |sibling| == 32 && direction <= 1
    ensures StepUp(H, node, sibling, direction).value == H(StepInput(node, sibling, direction))
  {
    var s: Digest := sibling;
    assert NodeInput(node, s) == StepInput(node, sibling, 0);
    assert NodeInput(s, node) == StepInput(node, sibling, 1);
  }

  /** If the last step's input is the tree's root input, the node below it is the root of that half. */
  lemma {:induction false} StepDown(H: Hasher, d: nat, t: seq<Bytes>, node: Digest, sibling: Bytes, direction: byte)
    requires |t| == Pow2(d) && |sibling| == 32 && direction <= 1
    requires RootInput(H, d, t) == StepInput(node, sibling, direction)
    ensures d > 0
    ensures node == TreeHash(H, d - 1, Half(d, t, direction))
  {
    var s: Digest := sibling;
    assert RootInput(H, d, t)[0] == INNER_TAG;
    if d > 0 {
      var l, r := TreeHash(H, d - 1, t[..Pow2(d - 1)]), TreeHash(H, d - 1, t[Pow2(d - 1)..]);
      assert RootInput(H, d, t) == NodeInput(l, r);
      if direction == 0 {
        assert StepInput(node, sibling, direction) == NodeInput(node, s);
        NodeInputInjective(l, r, node, s);
      } else {
        assert StepInput(node, sibling, direction) == NodeInput(s, node);
        NodeInputInjective(l, r, s, node);
      }
    }
  }

  lemma HalfInputs(H: Hasher, d: nat, t: seq<Bytes>, direction: byte)
    requires d > 0 && |t| == Pow2(d)
    ensures Inputs(H, d - 1, Half(d, t, direction)) <= Inputs(H, d, t)
  {
  }

  /**
   * A path that folds to the root of a tree starts at the root of one of its subtrees: it is no longer than
   * the tree is deep and its start is the hash of the block it leads to, or a collision shows.
   */
  lemma {:induction false} PathSound(H: Hasher, d: nat, t: seq<Bytes>, start: Digest, siblings: seq<Bytes>,
                                     directions: seq<byte>)
    requires |t| == Pow2(d) && |siblings| == |directions|
    requires FoldPath(H, start, siblings, directions) == Ok(TreeHash(H, d, t))
    ensures Collision(H, Inputs(H, d, t), PathInputs(H, start, siblings, directions))
            || (|directions| <= d && start == TreeHash(H, d - |directions|, Subtree(d, t, directions)))
    decreases |siblings|
  {
    if siblings != [] {
      var k := |siblings| - 1;
      var below := FoldPath(H, start, siblings[..k], directions[..k]);
      assert below.Ok?;
      var node := below.value;
      StepUpHashes(H, node, siblings[k], directions[k]);
      var x, y := RootInput(H, d, t), StepInput(node, siblings[k], directions[k]);
      if x != y {
        CollisionIn(H, x, y, Inputs(H, d, t), PathInputs(H, start, siblings, directions));
      } else {
        StepDown(H, d, t, node, siblings[k], directions[k]);
        PathSoundBelow(H, d, t, start, siblings, directions);
      }
    }
  }

  lemma {:induction false} PathSoundBelow(H: Hasher, d: nat, t: seq<Bytes>, start: Digest, siblings: seq<Bytes>,
                                          directions: seq<byte>)
    requires d > 0 && |t| == Pow2(d) && |siblings| == |directions| > 0
    requires var k := |siblings| - 1;
             FoldPath(H, start, siblings[..k], directions[..k])
             == Ok(TreeHash(H, d - 1, Half(d, t, directions[k])))
    ensures Collision(H, Inputs(H, d, t), PathInputs(H, start, siblings, directions))
            || (|directions| <= d && start == TreeHash(H, d - |directions|, Subtree(d, t, directions)))
    decreases |siblings|, 0
  {
    hide TreeHash, Inputs, Collision, FoldPath, PathInputs, Half;
    var k := |siblings| - 1;
    var half := Half(d, t, directions[k]);
    PathSound(H, d - 1, half, start, siblings[..k], directions[..k]);
    PathInputsGrow(H, start, siblings, directions);
    HalfInputs(H, d, t, directions[k]);
    if Collision(H, Inputs(H, d - 1, half), PathInputs(H, start, siblings[..k], directions[..k])) {
      CollisionGrows(H, Inputs(H, d - 1, half), PathInputs(H, start, siblings[..k], directions[..k]),
                     Inputs(H, d, t), PathInputs(H, start, siblings, directions));
    }
  }

  lemma PathInputsGrow(H: Hasher, start: Digest, siblings: seq<Bytes>, directions: seq<byte>)
    requires |siblings| == |directions| > 0
    ensures PathInputs(H, start, siblings[..|siblings| - 1], directions[..|siblings| - 1])
            <= PathInputs(H, start, siblings, directions)
  {
    hide FoldPath;
  }

  // ---------- The two proof kinds ----------

  datatype ProofError = TxHashLength | Path(error: PathError)

  function Verdict(folded: Result<Digest, PathError>, root: Digest): Result<bool, ProofError> {
    match folded
    case Err(e) => Err(Path(e))
    case Ok(computed) => Ok(computed == root)
  }

  method CopyDirections(directions: seq<byte>) returns (dirs: seq<byte>)
    ensures dirs == directions
  {
    var a := new byte[|directions|](_ => 0);
    for i := 0 to |directions|
      invariant a[..i] == directions[..i]
    {
      a[i] := directions[i];
    }
    dirs := a[..];
  }

  datatype TxInclusionProof = TxInclusionProof(txHash: Bytes, siblings: seq<Bytes>, directions: seq<byte>) {
    ghost predicate Accepted(H: Hasher, root: Digest) {
      && |txHash| == 32 && |siblings| == |directions|
      && FoldPath(H, txHash, siblings, directions) == Ok(root)
    }

    method Verify(H: Hasher, root: Digest) returns (r: Result<bool, ProofError>)
      ensures r == Ok(true) <==> Accepted(H, root)
      ensures r == Ok(false) <==> |txHash| == 32 && |siblings| == |directions|
                                  && FoldPath(H, txHash, siblings, directions).Ok?
                                  && FoldPath(H, txHash, siblings, directions).value != root
      ensures r == Err(TxHashLength) <==> |txHash| != 32
      ensures |txHash| == 32 && |siblings| != |directions| ==> r == Err(Path(LengthMismatch))
      ensures |txHash| == 32 && |siblings| == |directions| && FoldPath(H, txHash, siblings, directions).Err?
              ==> r == Err(Path(FoldPath(H, txHash, siblings, directions).error))
    {
      if |txHash| != 32 {
        return Err(TxHashLength);
      }
      var dirs := CopyDirections(directions);
      var computed := ComputeBlake3Root(H, txHash, siblings, dirs);
      r := Verdict(computed, root);
    }
  }

  /** The payload of a state leaf: the key and the value, a zero byte between them. */
  function StateLeaf(key: Bytes, value: Bytes): Bytes {
    key + [0] + value
  }

  datatype StateProof = StateProof(key: Bytes, value: Bytes, siblings: seq<Bytes>, directions: seq<byte>,
      version: Bytes) {
    ghost predicate Accepted(H: Hasher, root: Digest) {
      && |siblings| == |directions|
      && FoldPath(H, Leaf(H, StateLeaf(key, value)), siblings, directions) == Ok(root)
    }

    method VerifyBinary(H: Hasher, root: Digest) returns (r: Result<bool, ProofError>)
      ensures r == Ok(true) <==> Accepted(H, root)
      ensures r == Ok(false) <==> |siblings| == |directions|
                                  && FoldPath(H, Leaf(H, StateLeaf(key, value)), siblings, directions).Ok?
                                  && FoldPath(H, Leaf(H, StateLeaf(key, value)), siblings, directions).value != root
      ensures |siblings| != |directions| ==> r == Err(Path(LengthMismatch))
      ensures |siblings| == |directions| && FoldPath(H, Leaf(H, StateLeaf(key, value)), siblings, directions).Err?
              ==> r == Err(Path(FoldPath(H, Leaf(H, StateLeaf(key, value)), siblings, directions).error))
    {
      var leafInput := key + [0];
      leafInput := leafInput + value;
      var dirs := CopyDirections(directions);
      var computed := ComputeBlake3Root(H, Leaf(H, leafInput), siblings, dirs);
      r := Verdict(computed, root);
    }

    /** Every byte string hashed while checking this proof. */
    ghost function CheckedInputs(H: Hasher): set<Bytes>
      requires |siblings| == |directions|
    {
      PathInputs(H, Leaf(H, StateLeaf(key, value)), siblings, directions) + {LeafInput(StateLeaf(key, value))}
    }
  }

  /** A state leaf, byte by byte: a zero tag, the key, a zero byte, the value. */
  lemma StateLeafSpelled(H: Hasher, key: Bytes, value: Bytes, version: Bytes, root: Digest)
    ensures StateProof(key, value, [], [], version).Accepted(H, root) <==> root == H([0] + (key + [0] + value))
  {
  }

  /**
   * An accepted state proof of any path length proves its leaf: the path has exactly the tree's depth
   * and the claimed payload is the raw leaf at the position the directions spell, or a collision shows.
   */
  lemma {:induction false} StateProofSound(H: Hasher, raw: seq<Bytes>, p: StateProof)
    requires p.Accepted(H, Root(H, raw))
    ensures Collision(H, RootInputs(H, raw), p.CheckedInputs(H))
            || (&& raw != [] && |p.directions| == Depth(|raw|)
                && raw[Source(|raw|, PathIndex(p.directions))] == StateLeaf(p.key, p.value))
  {
    var payload := StateLeaf(p.key, p.value);
    assert payload[|p.key|] == 0;
    RootIsTreeHash(H, raw);
    PathFromLeafSound(H, Depth(|raw|), Completed(raw), payload, p.siblings, p.directions);
    if !Collision(H, RootInputs(H, raw), p.CheckedInputs(H)) {
      FullPathLeaf(raw, p.directions, payload);
    }
  }

  lemma PathFromLeafSound(H: Hasher, d: nat, t: seq<Bytes>, payload: Bytes, siblings: seq<Bytes>, directions: seq<byte>)
    requires |t| == Pow2(d) && |siblings| == |directions|
    requires FoldPath(H, Leaf(H, payload), siblings, directions) == Ok(TreeHash(H, d, t))
    ensures Collision(H, Inputs(H, d, t), PathInputs(H, Leaf(H, payload), siblings, directions) + {LeafInput(payload)})
            || (|directions| == d && PathIndex(directions) < |t| && t[PathIndex(directions)] == payload)
  {
    var inputs, path := Inputs(H, d, t), PathInputs(H, Leaf(H, payload), siblings, directions);
    PathSound(H, d, t, Leaf(H, payload), siblings, directions);
    if Collision(H, inputs, path) {
      CollisionGrows(H, inputs, path, inputs, path + {LeafInput(payload)});
    } else {
      BlockOfLeaf(H, d, t, directions, payload);
      if Collision(H, inputs, {LeafInput(payload)}) {
        CollisionGrows(H, inputs, {LeafInput(payload)}, inputs, path + {LeafInput(payload)});
      }
    }
  }

  /** If the block a path leads to hashes like a payload's leaf, it is that one leaf. */
  lemma BlockOfLeaf(H: Hasher, d: nat, t: seq<Bytes>, directions: seq<byte>, payload: Bytes)
    requires |t| == Pow2(d) && |directions| <= d
    requires Leaf(H, payload) == TreeHash(H, d - |directions|, Subtree(d, t, directions))
    ensures Collision(H, Inputs(H, d, t), {LeafInput(payload)})
            || (|directions| == d && PathIndex(directions) < |t| && t[PathIndex(directions)] == payload)
  {
    hide Collision, Inputs, RootInput, Subtree;
    var e, block := d - |directions|, Subtree(d, t, directions);
    SubtreeInputs(H, d, t, directions);
    var x := RootInput(H, e, block);
    if x != LeafInput(payload) {
      CollisionIn(H, x, LeafInput(payload), Inputs(H, d, t), {LeafInput(payload)});
    } else {
      RootInputOfLeaf(H, e, block, payload);
      SubtreeOfFullPath(d, t, directions);
    }
  }

  lemma {:induction false} SubtreeInputs(H: Hasher, d: nat, t: seq<Bytes>, directions: seq<byte>)
    requires |t| == Pow2(d) && |directions| <= d
    ensures Inputs(H, d - |directions|, Subtree(d, t, directions)) <= Inputs(H, d, t)
    decreases |directions|
  {
    if directions != [] {
      var k := |directions| - 1;
      HalfInputs(H, d, t, directions[k]);
      SubtreeInputs(H, d - 1, Half(d, t, directions[k]), directions[..k]);
    }
  }

  /** The completed leaf at a full path's position is the raw leaf it copies. */
  lemma FullPathLeaf(raw: seq<Bytes>, directions: seq<byte>, payload: Bytes)
    requires |directions| == Depth(|raw|) && PathIndex(directions) < Pow2(Depth(|raw|))
    requires Completed(raw)[PathIndex(directions)] == payload && payload != []
    ensures raw != [] && raw[Source(|raw|, PathIndex(directions))] == payload
  {
    if raw != [] {
      CompletionAt(raw, PathIndex(directions));
    }
  }

  /**
   * The path is no longer than the tree is deep, and starts at a leaf hash exactly when the list is not empty and it is
   * as long; the leaf is then the one the directions name.
   */
  ghost predicate LeafExactlyAtDepth(H: Hasher, raw: seq<Bytes>, start: Digest, directions: seq<byte>) {
    && |directions| <= Depth(|raw|)
    && (raw != [] && |directions| == Depth(|raw|) <==> start in Leaves(H, raw))
    && (raw != [] && |directions| == Depth(|raw|) ==> start == Leaf(H, raw[Source(|raw|, PathIndex(directions))]))
  }

  /** The block a path leads to has the path's start as its root. */
  ghost predicate StartsAtBlock(H: Hasher, raw: seq<Bytes>, start: Digest, directions: seq<byte>) {
    && |directions| <= Depth(|raw|)
    && start == TreeHash(H, Depth(|raw|) - |directions|, Subtree(Depth(|raw|), Completed(raw), directions))
  }

  /**
   * An accepted transaction proof starts at some node of the tree, since the claimed hash is not hashed again.
   * It starts at a leaf exactly when the list is not empty and its path is as long as the tree is deep; then the leaf
   * is the one the directions name.
   */
  lemma TxProofSound(H: Hasher, raw: seq<Bytes>, p: TxInclusionProof)
    requires p.Accepted(H, Root(H, raw))
    ensures Collision(H, RootInputs(H, raw), RootInputs(H, raw) + PathInputs(H, p.txHash, p.siblings, p.directions))
            || LeafExactlyAtDepth(H, raw, p.txHash, p.directions)
  {
    hide Root, TreeHash, Inputs, Collision, FoldPath, Subtree, Completed, Depth, PathInputs, PathIndex, Source, Leaf,
        Leaves;
    RootIsTreeHash(H, raw);
    PathSound(H, Depth(|raw|), Completed(raw), p.txHash, p.siblings, p.directions);
    StartIsNode(H, raw, p.txHash, p.directions, PathInputs(H, p.txHash, p.siblings, p.directions));
  }

  lemma StartIsNode(H: Hasher, raw: seq<Bytes>, start: Digest, directions: seq<byte>, path: set<Bytes>)
    requires Collision(H, RootInputs(H, raw), path)
             || StartsAtBlock(H, raw, start, directions)
    ensures Collision(H, RootInputs(H, raw), RootInputs(H, raw) + path)
            || LeafExactlyAtDepth(H, raw, start, directions)
  {
    hide TreeHash, Inputs, Completed, Collision, Subtree, Source, PathIndex, Depth;
    var inputs := RootInputs(H, raw);
    if Collision(H, inputs, path) {
      CollisionGrows(H, inputs, path, inputs, inputs + path);
    } else if raw != [] {
      BlockIsLeafOrInner(H, raw, start, directions);
      if Collision(H, inputs, inputs) {
        CollisionGrows(H, inputs, inputs, inputs, inputs + path);
      }
    }
  }

  /** The empty list has no leaf, yet its root accepts the hash of the lone leaf tag by an empty path. */
  lemma EmptyListTxProofAccepted(H: Hasher)
    ensures TxInclusionProof(H([LEAF_TAG]), [], []).Accepted(H, Root(H, [])) && Depth(0) == 0
    ensures H([LEAF_TAG]) !in Leaves(H, [])
  {
  }

  lemma BlockIsLeafOrInner(H: Hasher, raw: seq<Bytes>, start: Digest, directions: seq<byte>)
    requires raw != [] && |directions| <= Depth(|raw|)
    requires start == TreeHash(H, Depth(|raw|) - |directions|, Subtree(Depth(|raw|), Completed(raw), directions))
    ensures Collision(H, RootInputs(H, raw), RootInputs(H, raw))
            || (&& (|directions| == Depth(|raw|) <==> start in Leaves(H, raw))
                && (|directions| == Depth(|raw|) ==> start == Leaf(H, raw[Source(|raw|, PathIndex(directions))])))
  {
    if |directions| == Depth(|raw|) {
      LeafOfFullPath(H, raw, directions);
    } else if start in Leaves(H, raw) {
      var i :| 0 <= i < |raw| && Leaves(H, raw)[i] == start;
      InnerNodeIsNoLeaf(H, raw, directions, i);
    }
  }

  lemma LeafOfFullPath(H: Hasher, raw: seq<Bytes>, directions: seq<byte>)
    requires raw != [] && |directions| == Depth(|raw|)
    ensures var leaf := Leaf(H, raw[Source(|raw|, PathIndex(directions))]);
            TreeHash(H, 0, Subtree(Depth(|raw|), Completed(raw), directions)) == leaf && leaf in Leaves(H, raw)
  {
    SubtreeOfFullPath(Depth(|raw|), Completed(raw), directions);
    CompletionAt(raw, PathIndex(directions));
    var i := Source(|raw|, PathIndex(directions));
    assert Leaves(H, raw)[i] == Leaf(H, raw[i]);
  }

  lemma {:induction false} InnerNodeIsNoLeaf(H: Hasher, raw: seq<Bytes>, directions: seq<byte>, i: nat)
    requires raw != [] && i < |raw| && |directions| < Depth(|raw|)
    requires TreeHash(H, Depth(|raw|) - |directions|, Subtree(Depth(|raw|), Completed(raw), directions))
            == Leaf(H, raw[i])
    ensures Collision(H, RootInputs(H, raw), RootInputs(H, raw))
  {
    hide TreeHash, Inputs, Subtree;
    CompletionExtends(raw);
    assert raw[i] in Completion(raw);
    InnerNodeIsNoLeafOf(H, Depth(|raw|), Completed(raw), directions, raw[i]);
  }

  lemma InnerNodeIsNoLeafOf(H: Hasher, d: nat, t: seq<Bytes>, directions: seq<byte>, data: Bytes)
    requires |t| == Pow2(d) && data in t && |directions| < d
    requires TreeHash(H, d - |directions|, Subtree(d, t, directions)) == Leaf(H, data)
    ensures Collision(H, Inputs(H, d, t), Inputs(H, d, t))
  {
    var e, block := d - |directions|, Subtree(d, t, directions);
    SubtreeInputs(H, d, t, directions);
    LeafInputs(H, d, t, data);
    InnerInput(H, e, block, data);
    CollisionIn(H, RootInput(H, e, block), LeafInput(data), Inputs(H, d, t), Inputs(H, d, t));
  }

  lemma InnerInput(H: Hasher, e: nat, block: seq<Bytes>, data: Bytes)
    requires e > 0 && |block| == Pow2(e)
    ensures RootInput(H, e, block) != LeafInput(data)
  {
    assert LeafInput(data)[0] != RootInput(H, e, block)[0];
  }

  lemma {:induction false} LeafInputs(H: Hasher, d: nat, t: seq<Bytes>, data: Bytes)
    requires |t| == Pow2(d) && data in t
    ensures LeafInput(data) in Inputs(H, d, t)
  {
    if d > 0 {
      var l, r := t[..Pow2(d - 1)], t[Pow2(d - 1)..];
      assert t == l + r;
      if data in l {
        LeafInputs(H, d - 1, l, data);
      } else {
        LeafInputs(H, d - 1, r, data);
      }
    }
  }

  /** Without the length condition the claim fails: an inner node passes as a transaction. */
  lemma ShortTxProofAccepted(H: Hasher, a: Bytes, b: Bytes)
    ensures TxInclusionProof(Root(H, [a, b]), [], []).Accepted(H, Root(H, [a, b]))
    ensures Root(H, [a, b]) == H(NodeInput(Leaf(H, a), Leaf(H, b)))
  {
    assert Leaves(H, [a, b]) == [Leaf(H, a), Leaf(H, b)];
    var level := [Leaf(H, a), Leaf(H, b)];
    assert level[2..] == [];
    assert NextLevel(Node(H), level) == [Node(H)(level[0], level[1])];
    assert LevelRoot(Node(H), level) == LevelRoot(Node(H), NextLevel(Node(H), level));
  }

  // ---------- A proof for every leaf ----------

  /** The neighbour a node is hashed with: index i xor 1 of the padded level. */
  function Sibling<T>(level: seq<T>, i: nat): T
    requires i < |level|
  {
    if i % 2 == 1 then level[i - 1] else if i + 1 < |level| then level[i + 1] else level[i]
  }

  function Siblings<T>(node: (T, T) -> T, level: seq<T>, i: nat): (r: seq<T>)
    requires i < |level|
    ensures |r| == Depth(|level|)
    decreases |level|
  {
    if |level| == 1 then [] else [Sibling(level, i)] + Siblings(node, NextLevel(node, level), i / 2)
  }

  function Directions(n: nat, i: nat): (r: seq<byte>)
    ensures |r| == Depth(n)
    decreases n
  {
    if n <= 1 then [] else [i % 2] + Directions((n + 1) / 2, i / 2)
  }

  lemma {:induction false} PathIndexOfDirections(n: nat, i: nat)
    requires i < n
    ensures PathIndex(Directions(n, i)) == i
    decreases n
  {
    if n > 1 {
      PathIndexOfDirections((n + 1) / 2, i / 2);
      PathIndexCons(i % 2, Directions((n + 1) / 2, i / 2));
    }
  }

  lemma {:induction false} PathIndexCons(b: byte, directions: seq<byte>)
    requires b <= 1
    ensures PathIndex([b] + directions) == b + 2 * PathIndex(directions)
    decreases |directions|
  {
    var all := [b] + directions;
    var k := |directions|;
    if k == 0 {
      assert all[..0] == [];
    } else {
      PathIndexCons(b, directions[..k - 1]);
      assert all[..k] == [b] + directions[..k - 1];
    }
  }

  lemma {:induction false} FoldPathCons(H: Hasher, leaf: Digest, s: Bytes, siblings: seq<Bytes>, b: byte,
                                        directions: seq<byte>)
    requires |siblings| == |directions| && StepUp(H, leaf, s, b).Ok?
    ensures FoldPath(H, leaf, [s] + siblings, [b] + directions)
            == FoldPath(H, StepUp(H, leaf, s, b).value, siblings, directions)
    decreases |siblings|
  {
    var ss, dd := [s] + siblings, [b] + directions;
    var k := |siblings|;
    if k == 0 {
      assert ss[..0] == [] && dd[..0] == [];
      assert FoldPath(H, leaf, ss[..0], dd[..0]) == Ok(leaf);
    } else {
      FoldPathCons(H, leaf, s, siblings[..k - 1], b, directions[..k - 1]);
      assert ss[..k] == [s] + siblings[..k - 1] && dd[..k] == [b] + directions[..k - 1];
    }
  }

  lemma StepUpToNextLevel(H: Hasher, level: seq<Digest>, i: nat)
    requires i < |level| && |level| > 1
    ensures i / 2 < (|level| + 1) / 2
    ensures StepUp(H, level[i], Sibling(level, i), i % 2) == Ok(NextLevel(Node(H), level)[i / 2])
  {
    NextLevelHash(H, level, i);
    StepUpHash(H, level[i], Sibling(level, i), i % 2);
  }

  lemma {:induction false} NextLevelHash(H: Hasher, level: seq<Digest>, i: nat)
    requires i < |level| && |level| > 1
    ensures i / 2 < (|level| + 1) / 2
    ensures NextLevel(Node(H), level)[i / 2]
            == if i % 2 == 1 then H(NodeInput(Sibling(level, i), level[i]))
                else H(NodeInput(level[i], Sibling(level, i)))
  {
    NextLevelAt(Node(H), level, i / 2);
  }

  lemma StepUpHash(H: Hasher, node: Digest, sibling: Digest, b: byte)
    requires b <= 1
    ensures StepUp(H, node, sibling, b)
            == Ok(if b == 1 then H(NodeInput(sibling, node)) else H(NodeInput(node, sibling)))
  {
  }

  /** The path read off the levels leads from its leaf to the root. */
  lemma {:induction false} PathFoldsToRoot(H: Hasher, level: seq<Digest>, i: nat)
    requires i < |level|
    ensures FoldPath(H, level[i], Siblings(Node(H), level, i), Directions(|level|, i)) == Ok(LevelRoot(Node(H), level))
    decreases |level|
  {
    if |level| > 1 {
      var next := NextLevel(Node(H), level);
      StepUpToNextLevel(H, level, i);
      PathFoldsToRoot(H, next, i / 2);
      FoldPathCons(H, level[i], Sibling(level, i), Siblings(Node(H), next, i / 2), i % 2, Directions(|next|, i / 2));
    }
  }

  function ProofSiblings(H: Hasher, raw: seq<Bytes>, i: nat): seq<Bytes>
    requires i < |raw|
  {
    Siblings(Node(H), Leaves(H, raw), i)
  }

  /** Every leaf of every list has a transaction proof: ceil(log2 n) steps, accepted, and naming that leaf. */
  lemma TxProofComplete(H: Hasher, raw: seq<Bytes>, i: nat)
    requires i < |raw|
    ensures var p := TxInclusionProof(Leaf(H, raw[i]), ProofSiblings(H, raw, i), Directions(|raw|, i));
            p.Accepted(H, Root(H, raw)) && |p.siblings| == Depth(|raw|) && PathIndex(p.directions) == i
  {
    PathFoldsToRoot(H, Leaves(H, raw), i);
    PathIndexOfDirections(|raw|, i);
  }

  /** Every key and value stored as a state leaf has an accepted state proof. */
  lemma StateProofComplete(H: Hasher, raw: seq<Bytes>, i: nat, key: Bytes, value: Bytes, version: Bytes)
    requires i < |raw| && raw[i] == StateLeaf(key, value)
    ensures StateProof(key, value, ProofSiblings(H, raw, i), Directions(|raw|, i), version).Accepted(H, Root(H, raw))
  {
    PathFoldsToRoot(H, Leaves(H, raw), i);
  }
}
