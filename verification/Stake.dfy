/** internal/stake: the validator list, its binary search, batch updates and root. */
module Stake {
  import opened Common
  import opened Text
  import opened Sorting

  datatype Validator = Validator(pubKey: Digest, stakeMas: uint64, nodeType: byte, scoreQ: uint32, jailed: bool)

  const SCORE_MAX := 65536
  const NODE_LIGHT: byte := 1
  const NODE_FULL: byte := 3

  function NormalizeNodeType(nt: byte): byte {
    if nt == 1 then NODE_FULL else if nt == 2 || nt == 3 then nt else NODE_LIGHT
  }

  function ClampScoreQ(q: uint32): uint32 {
    if q > SCORE_MAX then SCORE_MAX else q
  }

  const OP_ADD: byte := 0
  const OP_UPDATE: byte := 1
  const OP_REMOVE: byte := 2

  datatype Op = Op(kind: byte, pubKey: Digest, stakeMas: Option<uint64>, nodeType: Option<byte>,
                   scoreQ: Option<uint32>, jailed: Option<bool>)

  /** The fields an op sets; absent ones are kept. */
  function Patch(v: Validator, op: Op): (r: Validator)
    ensures r.pubKey == v.pubKey
  {
    Validator(v.pubKey,
              if op.stakeMas.Some? then op.stakeMas.value else v.stakeMas,
              if op.nodeType.Some? then NormalizeNodeType(op.nodeType.value) else v.nodeType,
              if op.scoreQ.Some? then ClampScoreQ(op.scoreQ.value) else v.scoreQ,
              if op.jailed.Some? then op.jailed.value else v.jailed)
  }

  function Fresh(pk: Digest): Validator {
    Validator(pk, 0, NODE_LIGHT, SCORE_MAX, false)
  }

  // ---------- Binary search ----------

  function Search(list: seq<Validator>, pk: Digest, lo: nat, hi: nat): (r: (nat, bool))
    requires lo <= hi <= |list|
    ensures lo <= r.0 <= hi
    ensures r.1 ==> r.0 < hi && list[r.0].pubKey == pk
    decreases hi - lo
  {
    if lo == hi then (lo, false) else
    var m := (lo + hi) / 2;
    if list[m].pubKey == pk then (m, true)
    else if Less(list[m].pubKey, pk) then Search(list, pk, m + 1, hi)
    else Search(list, pk, lo, m)
  }

  predicate AscendingKeys(list: seq<Validator>) {
    forall i, j :: 0 <= i < j < |list| ==> Less(list[i].pubKey, list[j].pubKey)
  }

  predicate Has(list: seq<Validator>, pk: Digest) {
    exists i :: 0 <= i < |list| && list[i].pubKey == pk
  }

  /** On an ascending list the search finds every key that is there. */
  lemma {:induction false} SearchComplete(list: seq<Validator>, pk: Digest, lo: nat, hi: nat, i: nat)
    requires AscendingKeys(list) && lo <= i < hi <= |list| && list[i].pubKey == pk
    ensures Search(list, pk, lo, hi) == (i, true)
    decreases hi - lo
  {
    var m := (lo + hi) / 2;
    LessIrreflexive(pk);
    if m < i {
      SearchComplete(list, pk, m + 1, hi, i);
    } else if i < m {
      if Less(list[m].pubKey, pk) {
        LessTransitive(pk, list[m].pubKey, pk);
      }
      SearchComplete(list, pk, lo, m, i);
    }
  }

  // ---------- One op, on the list and on the map it stands for ----------

  function Find(list: seq<Validator>, pk: Digest): (r: (nat, bool))
    ensures r.0 <= |list| && (r.1 ==> r.0 < |list| && list[r.0].pubKey == pk)
  {
    Search(list, pk, 0, |list|)
  }

  function Step(list: seq<Validator>, op: Op): seq<Validator> {
    var (pos, ok) := Find(list, op.pubKey);
    if op.kind == OP_ADD then
      if ok then list[pos := Patch(list[pos], op)] else list + [Patch(Fresh(op.pubKey), op)]
    else if op.kind == OP_UPDATE then
      if ok then list[pos := Patch(list[pos], op)] else list
    else if op.kind == OP_REMOVE then
      if ok then list[..pos] + list[pos + 1..] else list
    else list
  }

  function ApplyAll(list: seq<Validator>, ops: seq<Op>): seq<Validator> {
    if ops == [] then list else Step(ApplyAll(list, ops[..|ops| - 1]), ops[|ops| - 1])
  }

  type ValidatorMap = map<Digest, Validator>

  ghost predicate WellKeyed(m: ValidatorMap) {
    forall k :: k in m ==> m[k].pubKey == k
  }

  function MapStep(m: ValidatorMap, op: Op): ValidatorMap {
    var pk := op.pubKey;
    if op.kind == OP_ADD then m[pk := Patch(if pk in m then m[pk] else Fresh(pk), op)]
    else if op.kind == OP_UPDATE then if pk in m then m[pk := Patch(m[pk], op)] else m
    else if op.kind == OP_REMOVE then m - {pk}
    else m
  }

  function MapAll(m: ValidatorMap, ops: seq<Op>): ValidatorMap {
    if ops == [] then m else MapStep(MapAll(m, ops[..|ops| - 1]), ops[|ops| - 1])
  }

  ghost predicate DistinctKeys(list: seq<Validator>) {
    forall i, j :: 0 <= i < j < |list| ==> list[i].pubKey != list[j].pubKey
  }

  /** The list holds exactly the map's entries, each once, in any order. */
  ghost predicate Represents(list: seq<Validator>, m: ValidatorMap) {
    && DistinctKeys(list)
    && (forall i :: 0 <= i < |list| ==> list[i].pubKey in m && m[list[i].pubKey] == list[i])
    && (forall k :: k in m ==> Has(list, k))
  }

  /** The search answers right: it finds the op's key if the list has it. */
  predicate FindsKey(list: seq<Validator>, op: Op) {
    Find(list, op.pubKey).1 || !Has(list, op.pubKey)
  }

  /** Ops that a missed key does not hurt: unknown kinds, and updates that change nothing. */
  predicate Harmless(m: ValidatorMap, op: Op) {
    if op.kind == OP_UPDATE then op.pubKey in m ==> Patch(m[op.pubKey], op) == m[op.pubKey]
    else op.kind != OP_ADD && op.kind != OP_REMOVE
  }

  lemma ReplaceRefines(list: seq<Validator>, m: ValidatorMap, pos: nat, v: Validator)
    requires Represents(list, m) && pos < |list| && list[pos].pubKey == v.pubKey
    ensures Represents(list[pos := v], m[v.pubKey := v])
  {
    var out := list[pos := v];
    forall k | k in m[v.pubKey := v] ensures Has(out, k) {
      var i :| 0 <= i < |list| && list[i].pubKey == k;
      assert out[i].pubKey == k;
    }
  }

  lemma AppendRefines(list: seq<Validator>, m: ValidatorMap, v: Validator)
    requires Represents(list, m) && !Has(list, v.pubKey)
    ensures Represents(list + [v], m[v.pubKey := v])
  {
    var out := list + [v];
    assert out[|list|] == v;
    forall k | k in m ensures Has(out, k) {
      var i :| 0 <= i < |list| && list[i].pubKey == k;
      assert out[i].pubKey == k;
    }
  }

  lemma RemoveRefines(list: seq<Validator>, m: ValidatorMap, pos: nat)
    requires Represents(list, m) && pos < |list|
    ensures Represents(list[..pos] + list[pos + 1..], m - {list[pos].pubKey})
  {
    var out := Removed(list, pos);
    var rest := m - {list[pos].pubKey};
    RemovedEntries(list, m, pos);
    forall k | k in rest ensures Has(out, k) {
      assert Has(list, k);
      var i :| 0 <= i < |list| && list[i].pubKey == k;
      assert out[if i < pos then i else i - 1] == list[i];
    }
  }

  function Removed(list: seq<Validator>, pos: nat): (r: seq<Validator>)
    requires pos < |list|
    ensures |r| == |list| - 1
    ensures forall i :: 0 <= i < |r| ==> r[i] == list[if i < pos then i else i + 1]
  {
    list[..pos] + list[pos + 1..]
  }

  lemma RemovedEntries(list: seq<Validator>, m: ValidatorMap, pos: nat)
    requires Represents(list, m) && pos < |list|
    ensures DistinctKeys(Removed(list, pos))
    ensures forall i :: 0 <= i < |list| - 1 ==>
              var v := Removed(list, pos)[i];
              v.pubKey != list[pos].pubKey && v.pubKey in m && m[v.pubKey] == v
  {
  }

  lemma MissingKey(list: seq<Validator>, m: ValidatorMap, pk: Digest)
    requires Represents(list, m)
    ensures Has(list, pk) <==> pk in m
  {
  }

  /** A step whose search answers right does to the list what it does to the map. */
  lemma StepRefines(list: seq<Validator>, m: ValidatorMap, op: Op)
    requires Represents(list, m) && FindsKey(list, op)
    ensures Represents(Step(list, op), MapStep(m, op))
  {
    hide Search, Find;
    var (pos, ok) := Find(list, op.pubKey);
    MissingKey(list, m, op.pubKey);
    if ok {
      assert m[op.pubKey] == list[pos];
      ReplaceRefines(list, m, pos, Patch(list[pos], op));
      RemoveRefines(list, m, pos);
    } else {
      AppendRefines(list, m, Patch(Fresh(op.pubKey), op));
      assert op.pubKey !in m;
      assert m - {op.pubKey} == m;
    }
  }

  /** A step that misses its key goes wrong unless the op is harmless. */
  lemma MissDiverges(list: seq<Validator>, m: ValidatorMap, op: Op)
    requires Represents(list, m) && !FindsKey(list, op)
    ensures Represents(Step(list, op), MapStep(m, op)) <==> Harmless(m, op)
  {
    hide Search, Find;
    var pk := op.pubKey;
    var i :| 0 <= i < |list| && list[i].pubKey == pk;
    MissingKey(list, m, pk);
    var out := Step(list, op);
    if op.kind == OP_ADD {
      assert out[i].pubKey == out[|list|].pubKey;
    } else if op.kind == OP_REMOVE {
      assert out[i].pubKey !in MapStep(m, op);
    } else if op.kind == OP_UPDATE {
      assert out[i] == m[pk];
      if Patch(m[pk], op) == m[pk] {
        assert m[pk := m[pk]] == m;
      }
    }
  }

  lemma PrefixStep(list: seq<Validator>, m: ValidatorMap, ops: seq<Op>, n: nat)
    requires n < |ops|
    ensures ApplyAll(list, ops[..n + 1]) == Step(ApplyAll(list, ops[..n]), ops[n])
    ensures MapAll(m, ops[..n + 1]) == MapStep(MapAll(m, ops[..n]), ops[n])
  {
    assert ops[..n + 1][..n] == ops[..n];
  }

  ghost predicate RefinesThroughout(list: seq<Validator>, m: ValidatorMap, ops: seq<Op>) {
    forall n :: 0 <= n <= |ops| ==> Represents(ApplyAll(list, ops[..n]), MapAll(m, ops[..n]))
  }

  /** At every op the search finds the key if it is there, or the op would change nothing. */
  ghost predicate NoHarmfulMiss(list: seq<Validator>, m: ValidatorMap, ops: seq<Op>) {
    forall n :: 0 <= n < |ops| ==> FindsKey(ApplyAll(list, ops[..n]), ops[n]) || Harmless(MapAll(m, ops[..n]), ops[n])
  }

  lemma {:induction false} RefinesUpTo(list: seq<Validator>, m: ValidatorMap, ops: seq<Op>, n: nat)
    requires Represents(list, m) && NoHarmfulMiss(list, m, ops) && n <= |ops|
    ensures Represents(ApplyAll(list, ops[..n]), MapAll(m, ops[..n]))
  {
    hide Represents, Step, MapStep, FindsKey, Harmless;
    if n == 0 {
      assert ops[..0] == [];
    } else {
      RefinesUpTo(list, m, ops, n - 1);
      PrefixStep(list, m, ops, n - 1);
      var l, mm := ApplyAll(list, ops[..n - 1]), MapAll(m, ops[..n - 1]);
      if FindsKey(l, ops[n - 1]) {
        StepRefines(l, mm, ops[n - 1]);
      } else {
        MissDiverges(l, mm, ops[n - 1]);
      }
    }
  }

  /** A batch behaves as the map after each of its ops exactly when none of its searches misses harmfully. */
  lemma BatchRefinesIff(list: seq<Validator>, m: ValidatorMap, ops: seq<Op>)
    requires Represents(list, m)
    ensures RefinesThroughout(list, m, ops) <==> NoHarmfulMiss(list, m, ops)
  {
    if NoHarmfulMiss(list, m, ops) {
      forall n | 0 <= n <= |ops| ensures Represents(ApplyAll(list, ops[..n]), MapAll(m, ops[..n])) {
        RefinesUpTo(list, m, ops, n);
      }
    }
    if RefinesThroughout(list, m, ops) {
      forall n | 0 <= n < |ops|
        ensures FindsKey(ApplyAll(list, ops[..n]), ops[n]) || Harmless(MapAll(m, ops[..n]), ops[n])
      {
        PrefixStep(list, m, ops, n);
        if !FindsKey(ApplyAll(list, ops[..n]), ops[n]) {
          MissDiverges(ApplyAll(list, ops[..n]), MapAll(m, ops[..n]), ops[n]);
          assert Represents(ApplyAll(list, ops[..n + 1]), MapAll(m, ops[..n + 1]));
        }
      }
    }
  }

  /** The map a list stands for. */
  function MapOf(list: seq<Validator>): (m: ValidatorMap)
    ensures WellKeyed(m)
    ensures forall k :: k in m <==> Has(list, k)
    ensures DistinctKeys(list) ==> Represents(list, m)
  {
    if list == [] then map[] else
    var k := |list| - 1;
    KeysOfLast(list);
    MapOf(list[..k])[list[k].pubKey := list[k]]
  }

  lemma KeysOfLast(list: seq<Validator>)
    requires list != []
    ensures list == list[..|list| - 1] + [list[|list| - 1]]
    ensures DistinctKeys(list) ==> !Has(list[..|list| - 1], list[|list| - 1].pubKey)
    ensures forall pk :: Has(list, pk) <==> Has(list[..|list| - 1], pk) || pk == list[|list| - 1].pubKey
  {
    var k := |list| - 1;
    forall pk ensures Has(list, pk) <==> Has(list[..k], pk) || pk == list[k].pubKey {
      if Has(list, pk) {
        var i :| 0 <= i < |list| && list[i].pubKey == pk;
        if i < k {
          assert list[..k][i].pubKey == pk;
        }
      }
      if Has(list[..k], pk) {
        var i :| 0 <= i < k && list[..k][i].pubKey == pk;
        assert list[i].pubKey == pk;
      }
    }
  }

  // ---------- What every op keeps ----------

  predicate InRange(v: Validator) {
    v.scoreQ <= SCORE_MAX && 1 <= v.nodeType <= 3
  }

  /** Whatever the ops carry, scores stay clamped and node types stay known. */
  lemma {:induction false} BatchKeepsRanges(list: seq<Validator>, ops: seq<Op>)
    requires forall v :: v in list ==> InRange(v)
    ensures forall v :: v in ApplyAll(list, ops) ==> InRange(v)
  {
    if ops != [] {
      hide Find, Patch, InRange;
      var before, op := ApplyAll(list, ops[..|ops| - 1]), ops[|ops| - 1];
      BatchKeepsRanges(list, ops[..|ops| - 1]);
      var (pos, ok) := Find(before, op.pubKey);
      PatchKeepsRange(if ok then before[pos] else Fresh(op.pubKey), op);
    }
  }

  /** A patch keeps the ranges and the key, sets what the op sets, and applied again changes nothing. */
  lemma PatchKeepsRange(v: Validator, op: Op)
    ensures InRange(v) ==> InRange(Patch(v, op))
    ensures InRange(Fresh(v.pubKey))
    ensures Patch(Patch(v, op), op) == Patch(v, op)
    ensures op.stakeMas.None? && op.nodeType.None? && op.scoreQ.None? && op.jailed.None? ==> Patch(v, op) == v
  {
  }

  // ---------- A condition to check before the call ----------

  predicate FreshAdd(m: ValidatorMap, op: Op) {
    op.kind == OP_ADD && op.pubKey !in m
  }

  /** No op after the batch's first fresh Add names a key then present. */
  ghost predicate FreshAddsLast(m: ValidatorMap, ops: seq<Op>) {
    forall i, n :: 0 <= i < n < |ops| && FreshAdd(MapAll(m, ops[..i]), ops[i]) ==> ops[n].pubKey !in MapAll(m, ops[..n])
  }

  lemma StepKeepsAscending(list: seq<Validator>, op: Op)
    requires AscendingKeys(list) && (op.kind == OP_ADD ==> Find(list, op.pubKey).1)
    ensures AscendingKeys(Step(list, op))
  {
    hide Search, Find;
    var (pos, ok) := Find(list, op.pubKey);
    if ok {
      var out := list[..pos] + list[pos + 1..];
      forall i | 0 <= i < |out| ensures out[i] == list[if i < pos then i else i + 1] {
      }
    }
  }

  lemma FindsOnAscending(list: seq<Validator>, op: Op)
    requires AscendingKeys(list)
    ensures FindsKey(list, op)
  {
    if Has(list, op.pubKey) {
      var i :| 0 <= i < |list| && list[i].pubKey == op.pubKey;
      SearchComplete(list, op.pubKey, 0, |list|, i);
    }
  }

  /** The last step of a batch: still a refinement, and still in order while no key has been added. */
  lemma NextOpRefines(list: seq<Validator>, m: ValidatorMap, op: Op, ordered: bool)
    requires Represents(list, m) && (if ordered then AscendingKeys(list) else op.pubKey !in m)
    ensures Represents(Step(list, op), MapStep(m, op))
    ensures ordered && !FreshAdd(m, op) ==> AscendingKeys(Step(list, op))
  {
    hide Represents, Step, MapStep, Find;
    MissingKey(list, m, op.pubKey);
    if ordered {
      FindsOnAscending(list, op);
      if !FreshAdd(m, op) {
        StepKeepsAscending(list, op);
      }
    }
    StepRefines(list, m, op);
  }

  ghost predicate NoFreshAdd(m: ValidatorMap, ops: seq<Op>, n: nat)
    requires n <= |ops|
  {
    forall i :: 0 <= i < n ==> !FreshAdd(MapAll(m, ops[..i]), ops[i])
  }

  lemma {:induction false} FreshAddsLastUpTo(list: seq<Validator>, m: ValidatorMap, ops: seq<Op>, n: nat)
    requires AscendingKeys(list) && Represents(list, m) && FreshAddsLast(m, ops) && n <= |ops|
    ensures Represents(ApplyAll(list, ops[..n]), MapAll(m, ops[..n]))
    ensures NoFreshAdd(m, ops, n) ==> AscendingKeys(ApplyAll(list, ops[..n]))
  {
    hide Represents, Step, MapStep, Find, FreshAdd, AscendingKeys;
    if n == 0 {
      assert ops[..0] == [];
    } else {
      FreshAddsLastUpTo(list, m, ops, n - 1);
      PrefixStep(list, m, ops, n - 1);
      NextOpRefines(ApplyAll(list, ops[..n - 1]), MapAll(m, ops[..n - 1]), ops[n - 1], NoFreshAdd(m, ops, n - 1));
    }
  }

  /** Fresh Adds kept last are enough: the whole batch then acts on the list as on the map. */
  lemma FreshAddsLastRefines(list: seq<Validator>, m: ValidatorMap, ops: seq<Op>)
    requires AscendingKeys(list) && Represents(list, m) && FreshAddsLast(m, ops)
    ensures Represents(ApplyAll(list, ops), MapAll(m, ops))
  {
    FreshAddsLastUpTo(list, m, ops, |ops|);
    assert ops[..|ops|] == ops;
  }

  /** A miss that harms: after a fresh Add below it, an existing key is not found and survives its removal. */
  lemma AddThenRemoveMisses(low: Digest, high: Digest, jailed: bool)
    requires Less(low, high)
    ensures var list := [Fresh(high)];
            var ops := [Op(OP_ADD, low, None, None, None, Some(jailed)), Op(OP_REMOVE, high, None, None, None, None)];
            AscendingKeys(list) && Has(ApplyAll(list, ops), high) && high !in MapAll(MapOf(list), ops)
  {
    var list := [Fresh(high)];
    var add, remove := Op(OP_ADD, low, None, None, None, Some(jailed)), Op(OP_REMOVE, high, None, None, None, None);
    LessIrreflexive(low);
    if Less(high, low) {
      LessTransitive(low, high, low);
    }
    assert Search(list, low, 0, 1) == (0, false);
    var l1 := Step(list, add);
    assert l1 == [Fresh(high), Patch(Fresh(low), add)];
    assert Search(l1, high, 0, 2) == (2, false);
    assert Step(l1, remove) == l1 && l1[0].pubKey == high;
    assert ApplyAll(list, []) == list;
    assert [add][..0] == [] && [add, remove][..1] == [add];
    assert ApplyAll(list, [add]) == l1;
    assert ApplyAll(list, [add, remove]) == l1;
  }

  /**
   * For the result of a batch alone, rather than after each of its ops, the search condition is sufficient and not
   * necessary: here a Remove misses its key, later ops undo the difference, and list and map agree again.
   */
  lemma MissesCanCancel(low: Digest, high: Digest)
    requires Less(low, high)
    ensures var list := [Fresh(high)];
            var ops := [PlainOp(OP_ADD, low), PlainOp(OP_REMOVE, high), PlainOp(OP_REMOVE, low), PlainOp(OP_ADD, high)];
            && AscendingKeys(list) && !NoHarmfulMiss(list, MapOf(list), ops)
            && Represents(ApplyAll(list, ops), MapAll(MapOf(list), ops))
  {
    var h, l := Fresh(high), Fresh(low);
    var list, m := [h], MapOf([h]);
    var a, b, c, d := PlainOp(OP_ADD, low), PlainOp(OP_REMOVE, high), PlainOp(OP_REMOVE, low), PlainOp(OP_ADD, high);
    var ops := [a, b, c, d];
    LessIrreflexive(low);
    if Less(high, low) {
      LessTransitive(low, high, low);
    }
    assert [h][..0] == [] && m == map[high := h];
    assert Search([h], low, 0, 1) == (0, false);
    assert Search([h, l], high, 0, 2) == (2, false) && Search([h, l], low, 0, 2) == (1, true);
    assert Search([h], high, 0, 1) == (0, true);
    assert Step([h], a) == [h, l] && Step([h, l], b) == [h, l] && Step([h, l], c) == [h] && Step([h], d) == [h];
    assert MapStep(m, a) == map[high := h, low := l] && MapStep(map[high := h, low := l], b) == map[low := l];
    assert MapStep(map[low := l], c) == map[] && MapStep(map[], d) == m;
    hide Step, MapStep, Search;
    FourOps([h], m, a, b, c, d);
    assert [h, l][0].pubKey == high;
    assert ops[..1] == [a] && !FindsKey(ApplyAll(list, ops[..1]), ops[1]);
  }

  function PlainOp(kind: byte, pk: Digest): Op {
    Op(kind, pk, None, None, None, None)
  }

  lemma FourOps(list: seq<Validator>, m: ValidatorMap, a: Op, b: Op, c: Op, d: Op)
    ensures ApplyAll(list, [a]) == Step(list, a) && MapAll(m, [a]) == MapStep(m, a)
    ensures ApplyAll(list, [a, b, c, d]) == Step(Step(Step(Step(list, a), b), c), d)
    ensures MapAll(m, [a, b, c, d]) == MapStep(MapStep(MapStep(MapStep(m, a), b), c), d)
  {
    hide Step, MapStep;
    var ops := [a, b, c, d];
    assert [a][..0] == [] && [a, b][..1] == [a] && [a, b, c][..2] == [a, b] && ops[..3] == [a, b, c];
    assert ApplyAll(list, [a]) == Step(ApplyAll(list, []), a) && MapAll(m, [a]) == MapStep(MapAll(m, []), a);
    assert ApplyAll(list, [a, b]) == Step(ApplyAll(list, [a]), b) && MapAll(m, [a, b]) == MapStep(MapAll(m, [a]), b);
  }

  // ---------- The sorted listing ----------

  ghost function ListingOf(m: ValidatorMap): (r: seq<Validator>)
    requires WellKeyed(m)
    ensures AscendingKeys(r) && Represents(r, m)
  {
    var keys := KeyListing(m);
    ListingRepresents(keys, m, ValuesAt(m, keys));
    ValuesAt(m, keys)
  }

  function ValuesAt(m: ValidatorMap, keys: seq<Digest>): (r: seq<Validator>)
    requires forall k :: k in keys ==> k in m
    ensures |r| == |keys|
    ensures forall i :: 0 <= i < |keys| ==> keys[i] in keys && r[i] == m[keys[i]]
  {
    if keys == [] then [] else [m[keys[0]]] + ValuesAt(m, keys[1..])
  }

  ghost function KeyListing(m: ValidatorMap): (r: seq<Digest>)
    ensures Ascending(r) && forall k :: k in r <==> k in m
  {
    ListingIsDigests(m.Keys);
    Listing(m.Keys)
  }

  lemma ListingIsDigests(keys: set<Digest>)
    ensures forall i :: 0 <= i < |Listing(keys)| ==> |Listing(keys)[i]| == 32
  {
    var s := Listing(keys);
    assert forall i :: 0 <= i < |s| ==> s[i] in s;
  }

  lemma ListingRepresents(keys: seq<Digest>, m: ValidatorMap, r: seq<Validator>)
    requires Ascending(keys) && (forall k :: k in keys <==> k in m)
    requires WellKeyed(m) && |r| == |keys| && forall i :: 0 <= i < |keys| ==> keys[i] in m && r[i] == m[keys[i]]
    ensures AscendingKeys(r) && Represents(r, m)
  {
    AscendingDistinct(keys);
    assert forall i :: 0 <= i < |keys| ==> r[i].pubKey == keys[i];
    forall k | k in m ensures Has(r, k) {
      assert k in keys;
      var i :| 0 <= i < |keys| && keys[i] == k;
      assert r[i].pubKey == k;
    }
  }

  /** An ascending list is determined by the map it represents. */
  lemma AscendingListUnique(a: seq<Validator>, b: seq<Validator>, m: ValidatorMap)
    requires AscendingKeys(a) && AscendingKeys(b) && Represents(a, m) && Represents(b, m)
    ensures a == b
  {
    var ka, kb := Keys(a), Keys(b);
    forall k | k in ka ensures k in kb {
      SameKeys(a, b, m, k);
    }
    forall k | k in kb ensures k in ka {
      SameKeys(b, a, m, k);
    }
    ListingUnique(ka, kb);
    forall i | 0 <= i < |a| ensures a[i] == b[i] {
      assert ka[i] == kb[i];
    }
  }

  function Keys(list: seq<Validator>): (r: seq<Bytes>)
    ensures |r| == |list| && forall i :: 0 <= i < |list| ==> r[i] == list[i].pubKey
  {
    seq(|list|, i requires 0 <= i < |list| => list[i].pubKey)
  }

  lemma SameKeys(a: seq<Validator>, b: seq<Validator>, m: ValidatorMap, k: Bytes)
    requires Represents(a, m) && Represents(b, m) && k in Keys(a)
    ensures k in Keys(b)
  {
    var i :| 0 <= i < |a| && Keys(a)[i] == k;
    assert Has(b, a[i].pubKey);
    var j :| 0 <= j < |b| && b[j].pubKey == a[i].pubKey;
    assert Keys(b)[j] == k;
  }

  lemma PermutationRepresents(a: seq<Validator>, b: seq<Validator>, m: ValidatorMap)
    requires Represents(a, m) && multiset(a) == multiset(b)
    ensures Represents(b, m)
  {
    forall i | 0 <= i < |b| ensures b[i].pubKey in m && m[b[i].pubKey] == b[i] {
      assert b[i] in multiset(b);
      assert b[i] in a;
    }
    forall k | k in m ensures Has(b, k) {
      var i :| 0 <= i < |a| && a[i].pubKey == k;
      assert a[i] in multiset(a);
      assert a[i] in b;
    }
    forall i, j | 0 <= i < j < |b| ensures b[i].pubKey != b[j].pubKey {
      if b[i].pubKey == b[j].pubKey {
        assert b[i] == b[j];
        RepeatCountsTwo(b, i, j);
        DistinctCountsOne(a, b[i]);
      }
    }
  }

  predicate LessByPubKey(a: Validator, b: Validator) {
    Less(a.pubKey, b.pubKey)
  }

  /** Sorting a list of distinct keys by key gives the listing of its map, however ties would fall. */
  lemma SortedIsListing(list: seq<Validator>, sorted: seq<Validator>, m: ValidatorMap)
    requires Represents(list, m) && WellKeyed(m)
    requires multiset(sorted) == multiset(list) && SortedBy(LessByPubKey, sorted)
    ensures sorted == ListingOf(m)
  {
    PermutationRepresents(list, sorted, m);
    forall i, j | 0 <= i < j < |sorted| ensures Less(sorted[i].pubKey, sorted[j].pubKey) {
      assert !LessByPubKey(sorted[j], sorted[i]);
      LessTotal(sorted[i].pubKey, sorted[j].pubKey);
    }
    AscendingListUnique(sorted, ListingOf(m), m);
  }

  lemma {:induction false} WellKeyedAfter(m: ValidatorMap, ops: seq<Op>)
    requires WellKeyed(m)
    ensures WellKeyed(MapAll(m, ops))
  {
    if ops != [] {
      WellKeyedAfter(m, ops[..|ops| - 1]);
    }
  }

  lemma LessByPubKeyIsStrictWeak()
    ensures StrictWeak(LessByPubKey)
  {
    forall x, y {:trigger LessByPubKey(x, y)} | LessByPubKey(x, y) ensures !LessByPubKey(y, x) {
      LessIrreflexive(x.pubKey);
      if LessByPubKey(y, x) {
        LessTransitive(x.pubKey, y.pubKey, x.pubKey);
      }
    }
    forall x, y, z {:trigger LessByPubKey(y, x), LessByPubKey(z, y)} | !LessByPubKey(y, x) && !LessByPubKey(z, y)
      ensures !LessByPubKey(z, x)
    {
      LessTotal(x.pubKey, y.pubKey);
      LessTotal(y.pubKey, z.pubKey);
      if LessByPubKey(z, x) && x.pubKey != y.pubKey && y.pubKey != z.pubKey {
        LessTransitive(z.pubKey, x.pubKey, y.pubKey);
      }
    }
  }

  // ---------- The class ----------

  class ValSet {
    var validators: seq<Validator>

    constructor (vs: seq<Validator>)
      ensures validators == vs
    {
      validators := vs;
    }

    method Clone() returns (out: ValSet)
      ensures fresh(out) && out.validators == validators
    {
      out := new ValSet(validators);
    }

    method SortPubKeyAsc()
      modifies this
      ensures SortedBy(LessByPubKey, validators) && multiset(validators) == multiset(old(validators))
    {
      LessByPubKeyIsStrictWeak();
      validators := Sort(LessByPubKey, validators);
    }

    /** The lo/hi loop: found is found on any list; on an ascending list, not found is not there. */
    method FindIndex(pk: Digest) returns (idx: nat, ok: bool)
      ensures (idx, ok) == Find(validators, pk)
      ensures ok ==> idx < |validators| && validators[idx].pubKey == pk
      ensures AscendingKeys(validators) ==> (ok <==> Has(validators, pk))
    {
      var lo, hi := 0, |validators|;
      while lo < hi
        invariant 0 <= lo <= hi <= |validators|
        invariant Search(validators, pk, lo, hi) == Find(validators, pk)
      {
        var m := (lo + hi) / 2;
        if validators[m].pubKey == pk {
          return m, true;
        }
        if Less(validators[m].pubKey, pk) {
          lo := m + 1;
        } else {
          hi := m;
        }
      }
      idx, ok := lo, false;
      if AscendingKeys(validators) && Has(validators, pk) {
        ghost var i :| 0 <= i < |validators| && validators[i].pubKey == pk;
        SearchComplete(validators, pk, 0, |validators|, i);
      }
    }

    /** Add, Update and Remove in place; a fresh Add is appended, so the list may be out of order until the end. */
    method ApplyOne(op: Op)
      modifies this
      ensures validators == Step(old(validators), op)
    {
      if op.kind == OP_ADD {
        var pos, ok := FindIndex(op.pubKey);
        if ok {
          validators := validators[pos := Patch(validators[pos], op)];
        } else {
          validators := validators + [Patch(Fresh(op.pubKey), op)];
        }
      } else if op.kind == OP_UPDATE {
        var pos, ok := FindIndex(op.pubKey);
        if ok {
          validators := validators[pos := Patch(validators[pos], op)];
        }
      } else if op.kind == OP_REMOVE {
        var pos, ok := FindIndex(op.pubKey);
        if ok {
          validators := validators[..pos] + validators[pos + 1..];
        }
      }
    }
  }

  lemma AscendingKeysDistinct(list: seq<Validator>)
    requires AscendingKeys(list)
    ensures DistinctKeys(list)
  {
    forall i, j | 0 <= i < j < |list| ensures list[i].pubKey != list[j].pubKey {
      LessIrreflexive(list[i].pubKey);
    }
  }

  /** The map after a batch. */
  function Next(list: seq<Validator>, ops: seq<Op>): (m: ValidatorMap)
    ensures WellKeyed(m)
  {
    WellKeyedAfter(MapOf(list), ops);
    MapAll(MapOf(list), ops)
  }

  // ---------- What a batch leaves behind, field by field ----------

  function Entry(m: ValidatorMap, pk: Digest): Option<Validator> {
    if pk in m then Some(m[pk]) else None
  }

  ghost predicate Unnamed(ops: seq<Op>, pk: Digest) {
    forall j :: 0 <= j < |ops| ==> ops[j].pubKey != pk
  }

  ghost predicate NamedOnce(ops: seq<Op>, i: nat)
    requires i < |ops|
  {
    forall j :: 0 <= j < |ops| && j != i ==> ops[j].pubKey != ops[i].pubKey
  }

  /** Present fields are the op's, absent ones those given: stakes as they are, node types named, scores capped. */
  predicate Shows(v: Validator, op: Op, stake: uint64, nodeType: byte, scoreQ: uint32, jailed: bool) {
    && v.pubKey == op.pubKey
    && v.stakeMas == (if op.stakeMas.Some? then op.stakeMas.value else stake)
    && (match op.nodeType
        case None => v.nodeType == nodeType
        case Some(nt) => v.nodeType == if nt == 1 || nt == 3 then 3 else if nt == 2 then 2 else 1)
    && v.scoreQ == (if op.scoreQ.Some? then Min(op.scoreQ.value, 65536) else scoreQ)
    && v.jailed == (if op.jailed.Some? then op.jailed.value else jailed)
  }

  /** An Add (0) or Update (1) of a validator that was there, and a fresh Add. */
  lemma PatchShows(v: Validator, op: Op)
    requires v.pubKey == op.pubKey
    ensures Shows(Patch(v, op), op, v.stakeMas, v.nodeType, v.scoreQ, v.jailed)
    ensures Shows(Patch(Fresh(op.pubKey), op), op, 0, 1, 65536, false)
  {
  }

  /** What one op makes of the validator under its key: b before, a after. */
  ghost predicate OpLaw(op: Op, b: Option<Validator>, a: Option<Validator>) {
    if op.kind == 0 || (op.kind == 1 && b.Some?) then
      && a.Some?
      && (b.Some? ==> Shows(a.value, op, b.value.stakeMas, b.value.nodeType, b.value.scoreQ, b.value.jailed))
      && (b.None? ==> Shows(a.value, op, 0, 1, 65536, false))
    else if op.kind == 2 then a.None?
    else a == b
  }

  lemma MapStepLaw(m: ValidatorMap, op: Op)
    requires WellKeyed(m)
    ensures OpLaw(op, Entry(m, op.pubKey), Entry(MapStep(m, op), op.pubKey))
  {
    PatchShows(Fresh(op.pubKey), op);
    if op.pubKey in m {
      PatchShows(m[op.pubKey], op);
    }
    hide Patch, Fresh, Shows;
  }

  lemma StepElsewhere(m: ValidatorMap, op: Op, pk: Digest)
    ensures op.pubKey != pk ==> Entry(MapStep(m, op), pk) == Entry(m, pk)
  {
  }

  lemma StepSees(m: ValidatorMap, n: ValidatorMap, op: Op)
    requires Entry(m, op.pubKey) == Entry(n, op.pubKey)
    ensures Entry(MapStep(m, op), op.pubKey) == Entry(MapStep(n, op), op.pubKey)
  {
  }

  lemma {:induction false} EntryUnnamed(m: ValidatorMap, ops: seq<Op>, pk: Digest)
    requires Unnamed(ops, pk)
    ensures Entry(MapAll(m, ops), pk) == Entry(m, pk)
  {
    hide MapStep, Entry;
    if ops != [] {
      var k := |ops| - 1;
      EntryUnnamed(m, ops[..k], pk);
      StepElsewhere(MapAll(m, ops[..k]), ops[k], pk);
    }
  }

  /** A key named once sees its own op alone. */
  lemma {:induction false} EntryNamedOnce(m: ValidatorMap, ops: seq<Op>, i: nat)
    requires i < |ops| && NamedOnce(ops, i)
    ensures Entry(MapAll(m, ops), ops[i].pubKey) == Entry(MapStep(m, ops[i]), ops[i].pubKey)
  {
    hide MapStep, Entry;
    var k := |ops| - 1;
    if i == k {
      EntryUnnamed(m, ops[..k], ops[i].pubKey);
      StepSees(MapAll(m, ops[..k]), m, ops[k]);
    } else {
      EntryNamedOnce(m, ops[..k], i);
      StepElsewhere(MapAll(m, ops[..k]), ops[k], ops[i].pubKey);
    }
  }

  /** The validator a list holds under a key. */
  function Held(list: seq<Validator>, pk: Digest): (r: Option<Validator>)
    ensures r.Some? ==> r.value in list && r.value.pubKey == pk
    ensures r.None? ==> forall v :: v in list ==> v.pubKey != pk
  {
    if list == [] then None
    else if list[0].pubKey == pk then Some(list[0])
    else
      assert list == [list[0]] + list[1..];
      Held(list[1..], pk)
  }

  lemma HeldIsEntry(list: seq<Validator>, m: ValidatorMap, pk: Digest)
    requires Represents(list, m)
    ensures Held(list, pk) == Entry(m, pk)
  {
    hide Held;
    if pk in m {
      var i :| 0 <= i < |list| && list[i].pubKey == pk;
      assert list[i] in list;
    }
  }

  /** Every key named once has what its op makes of the input's validator; unnamed keys have the input's. */
  ghost predicate BatchLaw(list: seq<Validator>, ops: seq<Op>, out: seq<Validator>) {
    && AscendingKeys(out)
    && (forall pk {:trigger Held(out, pk)} :: Unnamed(ops, pk) ==> Held(out, pk) == Held(list, pk))
    && (forall i :: 0 <= i < |ops| && NamedOnce(ops, i) ==>
          OpLaw(ops[i], Held(list, ops[i].pubKey), Held(out, ops[i].pubKey)))
  }

  lemma BatchSetsFields(list: seq<Validator>, ops: seq<Op>)
    requires DistinctKeys(list)
    ensures BatchLaw(list, ops, ListingOf(Next(list, ops)))
  {
    hide Represents, MapStep, MapAll, OpLaw, NamedOnce, Unnamed, Held, Entry, AscendingKeys, DistinctKeys;
    var m, out := MapOf(list), ListingOf(Next(list, ops));
    forall pk {:trigger Held(out, pk)} | Unnamed(ops, pk) ensures Held(out, pk) == Held(list, pk) {
      EntryUnnamed(m, ops, pk);
      HeldIsEntry(list, m, pk);
      HeldIsEntry(out, Next(list, ops), pk);
    }
    forall i | 0 <= i < |ops| && NamedOnce(ops, i)
      ensures OpLaw(ops[i], Held(list, ops[i].pubKey), Held(out, ops[i].pubKey))
    {
      EntryNamedOnce(m, ops, i);
      MapStepLaw(m, ops[i]);
      HeldIsEntry(list, m, ops[i].pubKey);
      HeldIsEntry(out, Next(list, ops), ops[i].pubKey);
    }
  }

  /**
   * The whole batch, on a copy; the input set is not modified. The result is the ascending listing of the map after the
   * batch exactly when the unsorted list stands for that map at the end: whenever no search misses harmfully, in
   * particular on a set in order with fresh Adds last. Field by field it is then what BatchLaw says.
   */
  method ApplyOps(vs: ValSet, ops: seq<Op>) returns (out: ValSet)
    ensures fresh(out)
    ensures SortedBy(LessByPubKey, out.validators) && multiset(out.validators) == multiset(ApplyAll(vs.validators, ops))
    ensures out.validators == ListingOf(Next(vs.validators, ops))
            <==> Represents(ApplyAll(vs.validators, ops), Next(vs.validators, ops))
    ensures ActsAsMap(vs.validators, ops) ==> out.validators == ListingOf(Next(vs.validators, ops))
    ensures AscendingKeys(vs.validators) && FreshAddsLast(MapOf(vs.validators), ops)
            ==> out.validators == ListingOf(Next(vs.validators, ops))
    ensures ActsAsMap(vs.validators, ops) || (AscendingKeys(vs.validators) && FreshAddsLast(MapOf(vs.validators), ops))
            ==> BatchLaw(vs.validators, ops, out.validators)
  {
    out := vs.Clone();
    for i := 0 to |ops|
      invariant out.validators == ApplyAll(vs.validators, ops[..i])
    {
      PrefixStep(vs.validators, map[], ops, i);
      out.ApplyOne(ops[i]);
    }
    assert ops[..|ops|] == ops;
    out.SortPubKeyAsc();
    BatchListing(vs.validators, ops, out.validators);
    hide Represents, FreshAddsLast, AscendingKeys, BatchLaw, NoHarmfulMiss;
    if AscendingKeys(vs.validators) {
      AscendingKeysDistinct(vs.validators);
    }
    if DistinctKeys(vs.validators) {
      BatchSetsFields(vs.validators, ops);
    }
  }

  /** A list of distinct keys, in any order, and a batch whose searches never miss harmfully on it. */
  ghost predicate ActsAsMap(list: seq<Validator>, ops: seq<Op>) {
    DistinctKeys(list) && NoHarmfulMiss(list, MapOf(list), ops)
  }

  lemma BatchListing(list: seq<Validator>, ops: seq<Op>, sorted: seq<Validator>)
    requires SortedBy(LessByPubKey, sorted) && multiset(sorted) == multiset(ApplyAll(list, ops))
    ensures sorted == ListingOf(Next(list, ops)) <==> Represents(ApplyAll(list, ops), Next(list, ops))
    ensures ActsAsMap(list, ops) ==> sorted == ListingOf(Next(list, ops))
    ensures AscendingKeys(list) && FreshAddsLast(MapOf(list), ops) ==> sorted == ListingOf(Next(list, ops))
  {
    hide Represents, NoHarmfulMiss, FreshAddsLast, AscendingKeys;
    var last := ApplyAll(list, ops);
    if Represents(last, Next(list, ops)) {
      SortedIsListing(last, sorted, Next(list, ops));
    } else if sorted == ListingOf(Next(list, ops)) {
      PermutationRepresents(sorted, last, Next(list, ops));
    }
    if ActsAsMap(list, ops) {
      RefinesUpTo(list, MapOf(list), ops, |ops|);
      assert ops[..|ops|] == ops;
    }
    if AscendingKeys(list) && FreshAddsLast(MapOf(list), ops) {
      AscendingKeysDistinct(list);
      FreshAddsLastRefines(list, MapOf(list), ops);
    }
  }
}
