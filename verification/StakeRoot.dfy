/** internal/stake/root.go: the validators root, and why the order of validators and ops does not matter. */
module StakeRoot {
  import opened Common
  import opened Text
  import opened Sorting
  import opened MerkleSpec
  import opened Cbor
  import opened Stake

  function LeafItem(v: Validator): Item {
    Array([Bin(v.pubKey), Int(v.stakeMas), Int(NormalizeNodeType(v.nodeType)), Int(v.scoreQ), Item.Bool(v.jailed)])
  }

  function LeafFor(H: Hasher, enc: Encoder, v: Validator): Digest {
    H(enc(LeafItem(v)))
  }

  function PairHash(H: Hasher, enc: Encoder): (Digest, Digest) -> Digest {
    (l, r) => H(enc(Array([Bin(l), Bin(r)])))
  }

  function LeavesFor(H: Hasher, enc: Encoder, vs: seq<Validator>): (r: seq<Digest>)
    ensures |r| == |vs| && forall i :: 0 <= i < |vs| ==> r[i] == LeafFor(H, enc, vs[i])
  {
    if vs == [] then [] else [LeafFor(H, enc, vs[0])] + LeavesFor(H, enc, vs[1..])
  }

  function RootOfLeaves(node: (Digest, Digest) -> Digest, leaves: seq<Digest>): Digest {
    if leaves == [] then ZERO_DIGEST else LevelRoot(node, leaves)
  }

  /** The root of a map of validators: over its ascending listing. */
  ghost function RootOfMap(H: Hasher, enc: Encoder, m: ValidatorMap): Digest
    requires WellKeyed(m)
  {
    RootOfLeaves(PairHash(H, enc), LeavesFor(H, enc, ListingOf(m)))
  }

  /** The third tree loop: an odd node is paired with itself instead of being appended. */
  method MerkleRoot(node: (Digest, Digest) -> Digest, leaves: seq<Digest>) returns (root: Digest)
    ensures root == RootOfLeaves(node, leaves)
  {
    if |leaves| == 0 {
      return ZERO_DIGEST;
    }
    var level := leaves;
    while |level| > 1
      invariant |level| > 0 && LevelRoot(node, level) == LevelRoot(node, leaves)
      decreases |level|
    {
      level := PairLevel(node, level);
    }
    root := level[0];
  }

  method PairLevel(node: (Digest, Digest) -> Digest, level: seq<Digest>) returns (next: seq<Digest>)
    ensures next == NextLevel(node, level)
  {
    next := [];
    var i := 0;
    while i < |level|
      invariant i % 2 == 0 && 0 <= i <= |level| + 1
      invariant |next| == i / 2
      invariant forall j :: 0 <= j < i / 2 ==> next[j] == NextLevel(node, level)[j]
    {
      var l := level[i];
      var r := l;
      if i + 1 < |level| {
        r := level[i + 1];
      }
      NextLevelAt(node, level, i / 2);
      next := next + [node(l, r)];
      i := i + 2;
    }
  }

  method SortValidators(vals: seq<Validator>) returns (cp: seq<Validator>)
    ensures SortedBy(LessByPubKey, cp) && multiset(cp) == multiset(vals)
  {
    LessByPubKeyIsStrictWeak();
    cp := Sort(LessByPubKey, vals);
  }

  /**
   * The root is over some sorted rearrangement of the validators; only validators with one key can stand in more than
   * one order. For distinct keys it is that of the map they form: no order and no tie shows in it.
   */
  method ComputeValidatorsRoot(H: Hasher, enc: Encoder, vals: seq<Validator>)
      returns (root: Digest, ghost sorted: seq<Validator>)
    ensures SortedBy(LessByPubKey, sorted) && multiset(sorted) == multiset(vals)
    ensures root == RootOfLeaves(PairHash(H, enc), LeavesFor(H, enc, sorted))
    ensures DistinctKeys(vals) ==> root == RootOfMap(H, enc, MapOf(vals))
  {
    var cp := SortValidators(vals);
    sorted := cp;
    var leaves: seq<Digest> := [];
    for i := 0 to |cp|
      invariant leaves == LeavesFor(H, enc, cp)[..i]
    {
      leaves := leaves + [LeafFor(H, enc, cp[i])];
    }
    assert leaves == LeavesFor(H, enc, cp);
    root := MerkleRoot(PairHash(H, enc), leaves);
    if DistinctKeys(vals) {
      SortedIsListing(vals, cp, MapOf(vals));
    }
  }

  method NextValidatorsRoot(H: Hasher, enc: Encoder, vs: ValSet, ops: seq<Op>)
      returns (root: Digest, ghost sorted: seq<Validator>)
    ensures SortedBy(LessByPubKey, sorted) && multiset(sorted) == multiset(ApplyAll(vs.validators, ops))
    ensures root == RootOfLeaves(PairHash(H, enc), LeavesFor(H, enc, sorted))
    ensures Represents(ApplyAll(vs.validators, ops), Next(vs.validators, ops))
            || ActsAsMap(vs.validators, ops)
            || (AscendingKeys(vs.validators) && FreshAddsLast(MapOf(vs.validators), ops))
            ==> root == RootOfMap(H, enc, Next(vs.validators, ops))
  {
    hide Represents, ActsAsMap, FreshAddsLast, AscendingKeys;
    var next := ApplyOps(vs, ops);
    root, sorted := ComputeValidatorsRoot(H, enc, next.validators);
    if next.validators == ListingOf(Next(vs.validators, ops)) {
      RootOfListing(H, enc, Next(vs.validators, ops), sorted);
    }
  }

  lemma RootOfListing(H: Hasher, enc: Encoder, m: ValidatorMap, sorted: seq<Validator>)
    requires WellKeyed(m) && SortedBy(LessByPubKey, sorted) && multiset(sorted) == multiset(ListingOf(m))
    ensures RootOfLeaves(PairHash(H, enc), LeavesFor(H, enc, sorted)) == RootOfMap(H, enc, m)
  {
    SortedIsListing(ListingOf(m), sorted, m);
  }

  /** The roots of no, one and two validators, field by field: the smaller key stands left. */
  lemma RootsOfFew(H: Hasher, enc: Encoder, v: Validator, w: Validator)
    requires Less(v.pubKey, w.pubKey)
    ensures RootOfMap(H, enc, map[]) == seq(32, _ => 0)
    ensures RootOfMap(H, enc, map[v.pubKey := v]) == LeafFor(H, enc, v)
    ensures RootOfMap(H, enc, map[v.pubKey := v, w.pubKey := w])
            == H(enc(Array([Bin(LeafFor(H, enc, v)), Bin(LeafFor(H, enc, w))])))
    ensures LeafFor(H, enc, v) == H(enc(Array([
              Bin(v.pubKey), Int(v.stakeMas), Int(NormalizeNodeType(v.nodeType)), Int(v.scoreQ), Item.Bool(v.jailed)])))
  {
    ListingsOfFew(v, w);
    var x, y := LeafFor(H, enc, v), LeafFor(H, enc, w);
    assert LeavesFor(H, enc, [v]) == [x] && LeavesFor(H, enc, [v, w]) == [x, y];
    hide LeafFor, LeavesFor, ListingOf;
    RootOfTwoLeaves(PairHash(H, enc), x, y);
  }

  lemma RootOfTwoLeaves(node: (Digest, Digest) -> Digest, x: Digest, y: Digest)
    ensures RootOfLeaves(node, [x]) == x && RootOfLeaves(node, [x, y]) == node(x, y)
  {
    var up := [node(x, y)];
    assert [x, y][2..] == [] && NextLevel(node, [x, y]) == up;
    assert LevelRoot(node, [x, y]) == LevelRoot(node, up);
  }

  lemma ListingsOfFew(v: Validator, w: Validator)
    requires Less(v.pubKey, w.pubKey)
    ensures ListingOf(map[]) == [] && ListingOf(map[v.pubKey := v]) == [v]
    ensures v.pubKey != w.pubKey && ListingOf(map[v.pubKey := v, w.pubKey := w]) == [v, w]
  {
    LessIrreflexive(v.pubKey);
    assert [v][0] == v && [v, w][0] == v && [v, w][1] == w;
    assert Has([v], v.pubKey) && Has([v, w], v.pubKey) && Has([v, w], w.pubKey);
    ListingIs([], map[]);
    ListingIs([v], map[v.pubKey := v]);
    ListingIs([v, w], map[v.pubKey := v, w.pubKey := w]);
  }

  lemma ListingIs(list: seq<Validator>, m: ValidatorMap)
    requires WellKeyed(m) && AscendingKeys(list) && |list| <= 2
    requires forall k :: k in m <==> Has(list, k)
    requires forall i :: 0 <= i < |list| ==> list[i].pubKey in m && m[list[i].pubKey] == list[i]
    ensures ListingOf(m) == list
  {
    AscendingKeysDistinct(list);
    AscendingListUnique(list, ListingOf(m), m);
  }

  lemma RepresentedMapUnique(list: seq<Validator>, m: ValidatorMap, n: ValidatorMap)
    requires Represents(list, m) && Represents(list, n)
    ensures m == n
  {
    forall k | k in m ensures k in n && m[k] == n[k] {
      var i :| 0 <= i < |list| && list[i].pubKey == k;
    }
    forall k | k in n ensures k in m {
      var i :| 0 <= i < |list| && list[i].pubKey == k;
    }
    assert m.Keys == n.Keys;
  }

  /** All permutations of validators with distinct keys form one map, so have one root. */
  lemma OrderOfValidatorsIrrelevant(H: Hasher, enc: Encoder, a: seq<Validator>, b: seq<Validator>)
    requires DistinctKeys(a) && multiset(a) == multiset(b)
    ensures DistinctKeys(b) && MapOf(a) == MapOf(b)
    ensures RootOfMap(H, enc, MapOf(a)) == RootOfMap(H, enc, MapOf(b))
  {
    PermutationRepresents(a, b, MapOf(a));
    RepresentedMapUnique(b, MapOf(a), MapOf(b));
  }

  // ---------- Reordering a batch ----------

  ghost predicate DistinctOps(ops: seq<Op>) {
    forall i, j :: 0 <= i < j < |ops| ==> ops[i].pubKey != ops[j].pubKey
  }

  lemma EntriesDecide(m: ValidatorMap, n: ValidatorMap)
    requires forall pk :: Entry(m, pk) == Entry(n, pk)
    ensures m == n
  {
    forall pk | pk in m ensures pk in n && m[pk] == n[pk] {
      assert Entry(m, pk) == Entry(n, pk);
    }
    forall pk | pk in n ensures pk in m {
      assert Entry(m, pk) == Entry(n, pk);
    }
    assert m.Keys == n.Keys;
  }

  lemma PermutedOpsDistinct(a: seq<Op>, b: seq<Op>)
    requires DistinctOps(a) && multiset(a) == multiset(b)
    ensures DistinctOps(b)
  {
    forall i, j | 0 <= i < j < |b| ensures b[i].pubKey != b[j].pubKey {
      assert b[i] in multiset(b) && b[j] in multiset(b);
      assert b[i] in a && b[j] in a;
      if b[i] == b[j] {
        RepeatCountsTwo(b, i, j);
        DistinctCountsOne(a, b[i]);
      }
    }
  }

  /** Batches with distinct keys that are permutations of each other lead to one map. */
  lemma BatchOrderIrrelevant(m: ValidatorMap, a: seq<Op>, b: seq<Op>)
    requires DistinctOps(a) && multiset(a) == multiset(b)
    ensures MapAll(m, a) == MapAll(m, b)
  {
    PermutedOpsDistinct(a, b);
    forall pk ensures Entry(MapAll(m, a), pk) == Entry(MapAll(m, b), pk) {
      SameEntry(m, a, b, pk);
    }
    EntriesDecide(MapAll(m, a), MapAll(m, b));
  }

  lemma SameEntry(m: ValidatorMap, a: seq<Op>, b: seq<Op>, pk: Digest)
    requires DistinctOps(a) && DistinctOps(b) && multiset(a) == multiset(b)
    ensures Entry(MapAll(m, a), pk) == Entry(MapAll(m, b), pk)
  {
    hide Entry, MapAll, MapStep;
    if i :| 0 <= i < |a| && a[i].pubKey == pk {
      assert a[i] in multiset(a);
      assert a[i] in b;
      var j :| 0 <= j < |b| && b[j] == a[i];
      EntryNamedOnce(m, a, i);
      EntryNamedOnce(m, b, j);
    } else {
      forall j | 0 <= j < |b| ensures b[j].pubKey != pk {
        assert b[j] in multiset(b);
        assert b[j] in a;
      }
      EntryUnnamed(m, a, pk);
      EntryUnnamed(m, b, pk);
    }
  }

  /** Reordering such a batch leaves the next root unchanged, while fresh Adds stay last in both orders. */
  lemma NextRootOrderIrrelevant(H: Hasher, enc: Encoder, list: seq<Validator>, a: seq<Op>, b: seq<Op>)
    requires DistinctOps(a) && multiset(a) == multiset(b)
    ensures RootOfMap(H, enc, Next(list, a)) == RootOfMap(H, enc, Next(list, b))
  {
    BatchOrderIrrelevant(MapOf(list), a, b);
  }

  /** Normalization is not idempotent, so the root cannot tell a stored light node from a full one. */
  lemma NodeTypesOneAndThreeShareLeaf(H: Hasher, enc: Encoder, v: Validator)
    ensures LeafFor(H, enc, v.(nodeType := NODE_LIGHT)) == LeafFor(H, enc, v.(nodeType := NODE_FULL))
    ensures NormalizeNodeType(NormalizeNodeType(0)) != NormalizeNodeType(0)
  {
  }
}
