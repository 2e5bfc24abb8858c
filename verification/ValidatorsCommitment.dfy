/** internal/stake/root.go as a commitment: the validators root binds the whole set, up to node-type normalisation. */
module ValidatorsCommitment {
  import opened Common
  import opened MerkleSpec
  import opened Merkle
  import opened Cbor
  import opened Stake
  import StakeRoot

  // ---------- The validators tree is the tagged tree at a hash that drops the tags ----------

  function PairItem(l: Digest, r: Digest): Item {
    Array([Bin(l), Bin(r)])
  }

  /** The bytes the validators tree hashes where the tagged tree hashes x. */
  function Untagged(enc: Encoder, x: Bytes): Bytes {
    if |x| == 65 && x[0] == INNER_TAG then enc(PairItem(x[1..33], x[33..]))
    else if x == [] then []
    else x[1..]
  }

  function UntaggedHash(H: Hasher, enc: Encoder): Hasher {
    x => H(Untagged(enc, x))
  }

  lemma UntaggedLeaf(enc: Encoder, data: Bytes)
    ensures Untagged(enc, LeafInput(data)) == data
  {
    assert LeafInput(data)[1..] == data;
  }

  lemma UntaggedNode(enc: Encoder, l: Digest, r: Digest)
    ensures Untagged(enc, NodeInput(l, r)) == enc(PairItem(l, r))
  {
    var x := NodeInput(l, r);
    assert x[1..33] == l && x[33..] == r;
  }

  function Encoded(enc: Encoder, vs: seq<Validator>): (r: seq<Bytes>)
    ensures |r| == |vs| && forall i :: 0 <= i < |vs| ==> r[i] == enc(StakeRoot.LeafItem(vs[i]))
  {
    seq(|vs|, i requires 0 <= i < |vs| => enc(StakeRoot.LeafItem(vs[i])))
  }

  lemma SameLeaves(H: Hasher, enc: Encoder, vs: seq<Validator>)
    ensures Leaves(UntaggedHash(H, enc), Encoded(enc, vs)) == StakeRoot.LeavesFor(H, enc, vs)
  {
    forall i | 0 <= i < |vs|
        ensures Leaf(UntaggedHash(H, enc), Encoded(enc, vs)[i]) == StakeRoot.LeafFor(H, enc, vs[i]) {
      UntaggedLeaf(enc, Encoded(enc, vs)[i]);
    }
  }

  lemma SameNode(H: Hasher, enc: Encoder, l: Digest, r: Digest)
    ensures Node(UntaggedHash(H, enc))(l, r) == StakeRoot.PairHash(H, enc)(l, r)
  {
    UntaggedNode(enc, l, r);
  }

  lemma {:induction false} SameNextLevel(f: (Digest, Digest) -> Digest, g: (Digest, Digest) -> Digest,
                                         level: seq<Digest>)
    requires forall l, r :: f(l, r) == g(l, r)
    ensures NextLevel(f, level) == NextLevel(g, level)
  {
    if |level| > 1 {
      SameNextLevel(f, g, level[2..]);
    }
  }

  lemma {:induction false} SameLevelRoot(f: (Digest, Digest) -> Digest, g: (Digest, Digest) -> Digest,
                                         level: seq<Digest>)
    requires |level| > 0 && forall l, r :: f(l, r) == g(l, r)
    ensures LevelRoot(f, level) == LevelRoot(g, level)
    decreases |level|
  {
    SameNextLevel(f, g, level);
    if |level| > 1 {
      SameLevelRoot(f, g, NextLevel(g, level));
    }
  }

  /** The validators root of a non-empty list is the tagged root of its encoded leaves at the tag-dropping hash. */
  lemma ValidatorsRootIsTaggedRoot(H: Hasher, enc: Encoder, vs: seq<Validator>)
    requires vs != []
    ensures StakeRoot.RootOfLeaves(StakeRoot.PairHash(H, enc), StakeRoot.LeavesFor(H, enc, vs))
            == Root(UntaggedHash(H, enc), Encoded(enc, vs))
  {
    var f, g := Node(UntaggedHash(H, enc)), StakeRoot.PairHash(H, enc);
    forall l, r ensures f(l, r) == g(l, r) {
      SameNode(H, enc, l, r);
    }
    SameLeaves(H, enc, vs);
    SameLevelRoot(f, g, StakeRoot.LeavesFor(H, enc, vs));
  }

  // ---------- Collisions carry over ----------

  /** Every byte string hashed for the validators root of a list. */
  ghost function HashedFor(H: Hasher, enc: Encoder, vs: seq<Validator>): set<Bytes> {
    set x | x in RootInputs(UntaggedHash(H, enc), Encoded(enc, vs)) :: Untagged(enc, x)
  }

  ghost predicate IsLeafData(enc: Encoder, p: Bytes) {
    exists v :: p == enc(StakeRoot.LeafItem(v))
  }

  ghost predicate LeafOrNode(enc: Encoder, x: Bytes) {
    || (exists v :: x == LeafInput(enc(StakeRoot.LeafItem(v))))
    || (exists l, r :: x == NodeInput(l, r))
  }

  lemma {:induction false} InputsAreLeavesOrNodes(H: Hasher, enc: Encoder, d: nat, t: seq<Bytes>, x: Bytes)
    requires |t| == Pow2(d) && x in Inputs(H, d, t)
    requires forall p :: p in t ==> IsLeafData(enc, p)
    ensures LeafOrNode(enc, x)
  {
    if d == 0 {
      assert t[0] in t;
    } else {
      var l, r := t[..Pow2(d - 1)], t[Pow2(d - 1)..];
      assert forall p :: p in l || p in r ==> p in t;
      if x in Inputs(H, d - 1, l) {
        InputsAreLeavesOrNodes(H, enc, d - 1, l, x);
      } else if x in Inputs(H, d - 1, r) {
        InputsAreLeavesOrNodes(H, enc, d - 1, r, x);
      } else {
        assert x == NodeInput(TreeHash(H, d - 1, l), TreeHash(H, d - 1, r));
      }
    }
  }

  lemma RootInputsAreLeavesOrNodes(H: Hasher, enc: Encoder, vs: seq<Validator>, x: Bytes)
    requires vs != [] && x in RootInputs(H, Encoded(enc, vs))
    ensures LeafOrNode(enc, x)
  {
    var raw := Encoded(enc, vs);
    CompletionExtends(raw);
    forall p | p in Completion(raw) ensures IsLeafData(enc, p) {
      assert p in raw;
      var i :| 0 <= i < |raw| && raw[i] == p;
      assert p == enc(StakeRoot.LeafItem(vs[i]));
    }
    InputsAreLeavesOrNodes(H, enc, Depth(|raw|), Completed(raw), x);
  }

  lemma LeafItemIsNoPair(v: Validator, l: Digest, r: Digest)
    ensures StakeRoot.LeafItem(v) != PairItem(l, r)
  {
    assert |StakeRoot.LeafItem(v).items| != |PairItem(l, r).items|;
  }

  lemma PairItemInjective(l: Digest, r: Digest, l': Digest, r': Digest)
    requires PairItem(l, r) == PairItem(l', r')
    ensures l == l' && r == r'
  {
    var x, y := PairItem(l, r).items, PairItem(l', r').items;
    assert x[0] == y[0] && x[1] == y[1];
  }

  /** Dropping the tags keeps different inputs different: a leaf has five items, a node two. */
  lemma UntaggedInjective(enc: Encoder, x: Bytes, y: Bytes)
    requires Injective(enc) && LeafOrNode(enc, x) && LeafOrNode(enc, y)
    requires Untagged(enc, x) == Untagged(enc, y)
    ensures x == y
  {
    hide Untagged;
    if v :| x == LeafInput(enc(StakeRoot.LeafItem(v))) {
      UntaggedLeaf(enc, enc(StakeRoot.LeafItem(v)));
      if w :| y == LeafInput(enc(StakeRoot.LeafItem(w))) {
        UntaggedLeaf(enc, enc(StakeRoot.LeafItem(w)));
      } else {
        var l, r :| y == NodeInput(l, r);
        UntaggedNode(enc, l, r);
        LeafItemIsNoPair(v, l, r);
      }
    } else {
      var l, r :| x == NodeInput(l, r);
      UntaggedNode(enc, l, r);
      if w :| y == LeafInput(enc(StakeRoot.LeafItem(w))) {
        UntaggedLeaf(enc, enc(StakeRoot.LeafItem(w)));
        LeafItemIsNoPair(w, l, r);
      } else {
        var l', r' :| y == NodeInput(l', r');
        UntaggedNode(enc, l', r');
        PairItemInjective(l, r, l', r');
      }
    }
  }

  lemma CollisionUntagged(H: Hasher, enc: Encoder, a: seq<Validator>, b: seq<Validator>)
    requires Injective(enc) && a != [] && b != []
    requires var K := UntaggedHash(H, enc); Collision(K, RootInputs(K, Encoded(enc, a)), RootInputs(K, Encoded(enc, b)))
    ensures Collision(H, HashedFor(H, enc, a), HashedFor(H, enc, b))
  {
    hide RootInputs, Untagged, LeafOrNode;
    var K := UntaggedHash(H, enc);
    var x, y :| x in RootInputs(K, Encoded(enc, a)) && y in RootInputs(K, Encoded(enc, b)) && Collide(K, x, y);
    RootInputsAreLeavesOrNodes(K, enc, a, x);
    RootInputsAreLeavesOrNodes(K, enc, b, y);
    if Untagged(enc, x) == Untagged(enc, y) {
      UntaggedInjective(enc, x, y);
    }
    CollisionIn(H, Untagged(enc, x), Untagged(enc, y), HashedFor(H, enc, a), HashedFor(H, enc, b));
  }

  // ---------- Binding ----------

  function NormalizedValidator(v: Validator): Validator {
    v.(nodeType := NormalizeNodeType(v.nodeType))
  }

  /** What of a set its root can see. */
  function Normalized(m: ValidatorMap): ValidatorMap {
    map k | k in m :: NormalizedValidator(m[k])
  }

  lemma LeafItemInjective(v: Validator, w: Validator)
    ensures StakeRoot.LeafItem(v) == StakeRoot.LeafItem(w) <==> NormalizedValidator(v) == NormalizedValidator(w)
  {
    var x, y := StakeRoot.LeafItem(v).items, StakeRoot.LeafItem(w).items;
    if x == y {
      assert x[0] == y[0] && x[1] == y[1] && x[2] == y[2] && x[3] == y[3] && x[4] == y[4];
    }
  }

  lemma EncodedDistinct(enc: Encoder, vs: seq<Validator>)
    requires Injective(enc) && AscendingKeys(vs)
    ensures forall i, j :: 0 <= i < j < |vs| ==> Encoded(enc, vs)[i] != Encoded(enc, vs)[j]
  {
    AscendingKeysDistinct(vs);
    forall i, j | 0 <= i < j < |vs| ensures Encoded(enc, vs)[i] != Encoded(enc, vs)[j] {
      LeafItemInjective(vs[i], vs[j]);
    }
  }

  /** The listings of two maps encode alike exactly when the maps agree after normalisation. */
  lemma EncodedListings(enc: Encoder, m: ValidatorMap, n: ValidatorMap)
    requires Injective(enc) && WellKeyed(m) && WellKeyed(n)
    ensures Encoded(enc, ListingOf(m)) == Encoded(enc, ListingOf(n)) <==> Normalized(m) == Normalized(n)
  {
    hide *;
    if Encoded(enc, ListingOf(m)) == Encoded(enc, ListingOf(n)) {
      EncodedEntries(enc, m, n);
      EncodedEntries(enc, n, m);
      NormalizedAlike(m, n);
    } else if Normalized(m) == Normalized(n) {
      NormalizedListings(m, n);
      EncodedAlike(enc, ListingOf(m), ListingOf(n));
    }
  }

  /** Every entry of one map is, after normalisation, one of the other. */
  ghost predicate Within(m: ValidatorMap, n: ValidatorMap) {
    forall k :: k in m ==> k in n && NormalizedValidator(m[k]) == NormalizedValidator(n[k])
  }

  lemma NormalizedAlike(m: ValidatorMap, n: ValidatorMap)
    requires Within(m, n) && Within(n, m)
    ensures Normalized(m) == Normalized(n)
  {
    assert m.Keys == n.Keys;
  }

  lemma EncodedAlike(enc: Encoder, s: seq<Validator>, t: seq<Validator>)
    requires NormalizedList(s) == NormalizedList(t)
    ensures Encoded(enc, s) == Encoded(enc, t)
  {
    assert |s| == |NormalizedList(s)| == |t|;
    forall i | 0 <= i < |s| ensures Encoded(enc, s)[i] == Encoded(enc, t)[i] {
      assert NormalizedList(s)[i] == NormalizedList(t)[i];
      LeafItemInjective(s[i], t[i]);
    }
  }

  lemma EncodedEntries(enc: Encoder, m: ValidatorMap, n: ValidatorMap)
    requires Injective(enc) && WellKeyed(m) && WellKeyed(n)
    requires Encoded(enc, ListingOf(m)) == Encoded(enc, ListingOf(n))
    ensures Within(m, n)
  {
    var s, t := ListingOf(m), ListingOf(n);
    assert |s| == |Encoded(enc, s)| == |t|;
    forall k | k in m ensures k in n && NormalizedValidator(m[k]) == NormalizedValidator(n[k]) {
      var i :| 0 <= i < |s| && s[i].pubKey == k;
      assert Encoded(enc, s)[i] == Encoded(enc, t)[i];
      LeafItemInjective(s[i], t[i]);
      assert NormalizedValidator(s[i]).pubKey == NormalizedValidator(t[i]).pubKey;
    }
  }

  function NormalizedList(vs: seq<Validator>): (r: seq<Validator>)
    ensures |r| == |vs| && forall i :: 0 <= i < |vs| ==> r[i] == NormalizedValidator(vs[i])
  {
    seq(|vs|, i requires 0 <= i < |vs| => NormalizedValidator(vs[i]))
  }

  lemma NormalizedListings(m: ValidatorMap, n: ValidatorMap)
    requires WellKeyed(m) && WellKeyed(n) && Normalized(m) == Normalized(n)
    ensures NormalizedList(ListingOf(m)) == NormalizedList(ListingOf(n))
  {
    NormalizedListRepresents(ListingOf(m), m);
    NormalizedListRepresents(ListingOf(n), n);
    hide Normalized, NormalizedList, Represents, AscendingKeys;
    AscendingListUnique(NormalizedList(ListingOf(m)), NormalizedList(ListingOf(n)), Normalized(m));
  }

  lemma NormalizedListRepresents(s: seq<Validator>, m: ValidatorMap)
    requires AscendingKeys(s) && Represents(s, m)
    ensures AscendingKeys(NormalizedList(s)) && Represents(NormalizedList(s), Normalized(m))
  {
    hide NormalizeNodeType;
    var r := NormalizedList(s);
    AscendingKeysDistinct(s);
    forall i | 0 <= i < |s| ensures r[i].pubKey == s[i].pubKey && s[i].pubKey in m && m[s[i].pubKey] == s[i] {
    }
    forall k | k in Normalized(m) ensures Has(r, k) {
      assert Has(s, k);
      var i :| 0 <= i < |s| && s[i].pubKey == k;
      assert r[i].pubKey == k;
    }
  }

  /** Some byte string hashed for the set hashes to all zeroes, the root of the empty set. */
  ghost predicate HashesToZero(H: Hasher, inputs: set<Bytes>) {
    exists x :: x in inputs && H(x) == ZERO_DIGEST
  }

  ghost function InputsOfMap(H: Hasher, enc: Encoder, m: ValidatorMap): set<Bytes>
    requires WellKeyed(m)
  {
    if m == map[] then {} else HashedFor(H, enc, ListingOf(m))
  }

  lemma ListingEmptyIff(m: ValidatorMap)
    requires WellKeyed(m)
    ensures ListingOf(m) == [] <==> m == map[]
  {
    if ListingOf(m) != [] {
      assert ListingOf(m)[0].pubKey in m;
    }
    if k :| k in m {
      assert Has(ListingOf(m), k);
    }
  }

  lemma RootOfMapIsHash(H: Hasher, enc: Encoder, m: ValidatorMap) returns (x: Bytes)
    requires WellKeyed(m) && m != map[]
    ensures x in InputsOfMap(H, enc, m) && H(x) == StakeRoot.RootOfMap(H, enc, m)
  {
    ListingEmptyIff(m);
    var vs, K := ListingOf(m), UntaggedHash(H, enc);
    var raw := Encoded(enc, vs);
    ValidatorsRootIsTaggedRoot(H, enc, vs);
    RootIsTreeHash(K, raw);
    var tagged := RootInput(K, Depth(|raw|), Completed(raw));
    assert tagged in RootInputs(K, raw);
    x := Untagged(enc, tagged);
  }

  lemma NonEmptyRootsBind(H: Hasher, enc: Encoder, a: seq<Validator>, b: seq<Validator>)
    requires Injective(enc) && a != [] && b != [] && AscendingKeys(a) && AscendingKeys(b)
    requires Root(UntaggedHash(H, enc), Encoded(enc, a)) == Root(UntaggedHash(H, enc), Encoded(enc, b))
    ensures Encoded(enc, a) == Encoded(enc, b) || Collision(H, HashedFor(H, enc, a), HashedFor(H, enc, b))
  {
    var K := UntaggedHash(H, enc);
    RootBinds(K, Encoded(enc, a), Encoded(enc, b));
    EncodedDistinct(enc, a);
    EncodedDistinct(enc, b);
    hide *;
    if Collision(K, RootInputs(K, Encoded(enc, a)), RootInputs(K, Encoded(enc, b))) {
      CollisionUntagged(H, enc, a, b);
    } else {
      SameCompletion(Encoded(enc, a), Encoded(enc, b));
    }
  }

  lemma SameCompletion(a: seq<Bytes>, b: seq<Bytes>)
    requires a != [] && b != [] && Completed(a) == Completed(b)
    requires forall i, j :: 0 <= i < j < |a| ==> a[i] != a[j]
    requires forall i, j :: 0 <= i < j < |b| ==> b[i] != b[j]
    ensures a == b
  {
    CompletionInjectiveOnDistinct(a, b);
  }

  /**
   * The validators root commits to the set: two sets of any sizes have one root exactly when they agree after node-type
   * normalisation, unless a collision shows among the bytes hashed for the two roots, or just one set is empty and some
   * hash of the other is all zeroes.
   */
  lemma ValidatorsRootBinds(H: Hasher, enc: Encoder, m: ValidatorMap, n: ValidatorMap)
    requires Injective(enc) && WellKeyed(m) && WellKeyed(n)
    ensures || (StakeRoot.RootOfMap(H, enc, m) == StakeRoot.RootOfMap(H, enc, n) <==> Normalized(m) == Normalized(n))
            || Collision(H, InputsOfMap(H, enc, m), InputsOfMap(H, enc, n))
            || ((m == map[]) != (n == map[]) && HashesToZero(H, InputsOfMap(H, enc, m) + InputsOfMap(H, enc, n)))
  {
    ListingEmptyIff(m);
    ListingEmptyIff(n);
    EncodedListings(enc, m, n);
    if m != map[] && n != map[] {
      ValidatorsRootIsTaggedRoot(H, enc, ListingOf(m));
      ValidatorsRootIsTaggedRoot(H, enc, ListingOf(n));
      hide HashedFor, Encoded, Root, Normalized, Collision, StakeRoot.RootOfLeaves, StakeRoot.LeavesFor;
      if StakeRoot.RootOfMap(H, enc, m) == StakeRoot.RootOfMap(H, enc, n) {
        NonEmptyRootsBind(H, enc, ListingOf(m), ListingOf(n));
      }
    } else if m != map[] {
      var x := RootOfMapIsHash(H, enc, m);
    } else if n != map[] {
      var x := RootOfMapIsHash(H, enc, n);
    }
  }
}
