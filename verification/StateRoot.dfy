/** internal/state/merkle.go: the root over all accounts, as a commitment to the whole account map. */
module StateRoot {
  import opened Common
  import opened MerkleSpec
  import opened Text
  import opened Ledger
  import opened Merkle
  import opened Proofs

  const COMMA: byte := 44

  /** {"balance":B,"nonce":N} */
  function AccountJson(a: Account): Bytes {
    Ascii("{\"balance\":") + (Decimal(a.balance) + [COMMA] + (Ascii("\"nonce\":") + (Decimal(a.nonce) + [125] + [])))
  }

  function AccountKey(addr: Bytes): Bytes {
    Ascii("account/") + addr
  }

  function AccountLeaf(addr: Bytes, a: Account): Bytes {
    StateLeaf(AccountKey(addr), AccountJson(a))
  }

  function LeavesFor(m: Accounts, keys: seq<Bytes>): (r: seq<Bytes>)
    requires forall k :: k in keys ==> k in m
    ensures |r| == |keys|
    ensures forall i :: 0 <= i < |keys| ==> r[i] == AccountLeaf(keys[i], m[keys[i]])
  {
    if keys == [] then [] else [AccountLeaf(keys[0], m[keys[0]])] + LeavesFor(m, keys[1..])
  }

  ghost function StateLeaves(m: Accounts): seq<Bytes> {
    LeavesFor(m, Listing(m.Keys))
  }

  ghost function StateRootOf(H: Hasher, m: Accounts): Digest {
    Root(H, StateLeaves(m))
  }

  // ---------- Leaves identify accounts ----------

  lemma AccountJsonInjective(a: Account, b: Account)
    requires AccountJson(a) == AccountJson(b)
    ensures a == b
  {
    var head, mid := Ascii("{\"balance\":"), Ascii("\"nonce\":");
    var x, y := Decimal(a.nonce) + [125] + [], Decimal(b.nonce) + [125] + [];
    var p, q := Decimal(a.balance) + [COMMA] + (mid + x), Decimal(b.balance) + [COMMA] + (mid + y);
    assert p == AccountJson(a)[|head|..] && q == AccountJson(b)[|head|..];
    DigitsThenMark(Decimal(a.balance), mid + x, Decimal(b.balance), mid + y, COMMA);
    assert x == (mid + x)[|mid|..] && y == (mid + y)[|mid|..];
    DigitsThenMark(Decimal(a.nonce), [], Decimal(b.nonce), [], 125);
    ValueOfDecimal(a.balance);
    ValueOfDecimal(b.balance);
    ValueOfDecimal(a.nonce);
    ValueOfDecimal(b.nonce);
  }

  lemma AccountJsonZeroFree(a: Account)
    ensures 0 !in AccountJson(a)
  {
    AsciiZeroFree("{\"balance\":");
    AsciiZeroFree("\"nonce\":");
    JoinZeroFree(Ascii("{\"balance\":"), Decimal(a.balance), Ascii("\"nonce\":"), Decimal(a.nonce));
  }

  lemma JoinZeroFree(head: Bytes, b: Bytes, mid: Bytes, n: Bytes)
    requires 0 !in head && 0 !in mid && AllDigits(b) && AllDigits(n)
    ensures 0 !in head + (b + [COMMA] + (mid + (n + [125] + [])))
  {
    assert 0 !in mid + (n + [125] + []);
    assert 0 !in b + [COMMA] + (mid + (n + [125] + []));
  }

  /** The last zero byte of a leaf parts key and value when the value has none. */
  lemma StateLeafSplits(k: Bytes, v: Bytes, k': Bytes, v': Bytes)
    requires StateLeaf(k, v) == StateLeaf(k', v') && 0 !in v && 0 !in v'
    ensures k == k' && v == v'
  {
    var s, t := StateLeaf(k, v), StateLeaf(k', v');
    assert s[|k|] == 0 && t[|k'|] == 0;
    NoZeroAfter(k, v);
    NoZeroAfter(k', v');
    assert |k| == |k'|;
    assert k == s[..|k|] && k' == t[..|k'|];
    assert v == s[|k| + 1..] && v' == t[|k'| + 1..];
  }

  lemma NoZeroAfter(k: Bytes, v: Bytes)
    requires 0 !in v
    ensures forall i :: |k| < i < |StateLeaf(k, v)| ==> StateLeaf(k, v)[i] != 0
  {
    forall i | |k| < i < |StateLeaf(k, v)| ensures StateLeaf(k, v)[i] != 0 {
      assert StateLeaf(k, v)[i] == v[i - |k| - 1];
    }
  }

  lemma AccountLeafInjective(a: Bytes, x: Account, b: Bytes, y: Account)
    requires AccountLeaf(a, x) == AccountLeaf(b, y)
    ensures a == b && x == y
  {
    AccountJsonZeroFree(x);
    AccountJsonZeroFree(y);
    StateLeafSplits(AccountKey(a), AccountJson(x), AccountKey(b), AccountJson(y));
    AccountJsonInjective(x, y);
    assert a == AccountKey(a)[8..] && b == AccountKey(b)[8..];
  }

  /** The leaf list identifies the account map. */
  lemma StateLeavesInjective(m: Accounts, n: Accounts)
    requires StateLeaves(m) == StateLeaves(n)
    ensures m == n
  {
    hide AccountLeaf, LeavesFor, Listing;
    var s, t := Listing(m.Keys), Listing(n.Keys);
    forall i | 0 <= i < |s| ensures s[i] == t[i] {
      SameLeafSameEntry(m, s, n, t, i);
    }
    assert s == t;
    forall k | k in m ensures k in n && m[k] == n[k] {
      assert k in s;
      var i :| 0 <= i < |s| && s[i] == k;
      SameLeafSameEntry(m, s, n, t, i);
    }
    assert m.Keys == n.Keys;
  }

  lemma SameLeafSameEntry(m: Accounts, s: seq<Bytes>, n: Accounts, t: seq<Bytes>, i: nat)
    requires (forall k :: k in s ==> k in m) && (forall k :: k in t ==> k in n)
    requires LeavesFor(m, s) == LeavesFor(n, t) && i < |s|
    ensures |s| == |t| && s[i] == t[i] && s[i] in n && m[s[i]] == n[s[i]]
  {
    hide AccountLeaf;
    assert |LeavesFor(m, s)| == |LeavesFor(n, t)|;
    assert s[i] in s && t[i] in t;
    assert LeavesFor(m, s)[i] == LeavesFor(n, t)[i];
    AccountLeafInjective(s[i], m[s[i]], t[i], n[t[i]]);
  }

  lemma StateLeavesDistinct(m: Accounts)
    ensures forall i, j :: 0 <= i < j < |StateLeaves(m)| ==> StateLeaves(m)[i] != StateLeaves(m)[j]
    ensures StateLeaves(m) != [[]]
  {
    var s, leaves := Listing(m.Keys), StateLeaves(m);
    AscendingDistinct(s);
    forall i, j | 0 <= i < j < |leaves| ensures leaves[i] != leaves[j] {
      assert s[i] in s && s[j] in s;
      if leaves[i] == leaves[j] {
        AccountLeafInjective(s[i], m[s[i]], s[j], m[s[j]]);
      }
    }
    if |leaves| == 1 {
      assert s[0] in s;
      assert |AccountLeaf(s[0], m[s[0]])| > 0;
    }
  }

  /**
   * The state root commits to the whole account map, whatever its size: two maps with one root are
   * the same map, or a collision shows among the bytes hashed for the two roots.
   */
  lemma StateRootBinds(H: Hasher, m: Accounts, n: Accounts)
    requires StateRootOf(H, m) == StateRootOf(H, n)
    ensures m == n || Collision(H, RootInputs(H, StateLeaves(m)), RootInputs(H, StateLeaves(n)))
  {
    StateLeavesDistinct(m);
    StateLeavesDistinct(n);
    RootBindsDistinct(H, StateLeaves(m), StateLeaves(n));
    if StateLeaves(m) == StateLeaves(n) {
      StateLeavesInjective(m, n);
    }
  }

  // ---------- Reading a record back ----------

  /** What follows the first place where the name stands. */
  function After(name: Bytes, s: Bytes): Option<Bytes> {
    if name <= s then Some(s[|name|..])
    else if s == [] then None
    else After(name, s[1..])
  }

  function LeadingDigits(s: Bytes): Bytes {
    if s == [] || !IsDigit(s[0]) then [] else [s[0]] + LeadingDigits(s[1..])
  }

  /** The number that stands after a name and a colon, however the rest of the text looks. */
  function ReadNumber(name: Bytes, s: Bytes): Option<int> {
    match After(name, s)
    case None => None
    case Some(rest) => if LeadingDigits(rest) == [] then None else Some(DecimalValue(LeadingDigits(rest)))
  }

  /** The text gives this balance and this nonce under those names. */
  ghost predicate ReadsAs(value: Bytes, a: Account) {
    && ReadNumber(Ascii("\"balance\":"), value) == Some(a.balance)
    && ReadNumber(Ascii("\"nonce\":"), value) == Some(a.nonce)
  }

  lemma {:induction false} LeadingDigitsThenMark(d: Bytes, mark: byte, rest: Bytes)
    requires AllDigits(d) && !IsDigit(mark)
    ensures LeadingDigits(d + [mark] + rest) == d
  {
    var s := d + [mark] + rest;
    if d != [] {
      assert d[0] in d;
      assert s[1..] == d[1..] + [mark] + rest;
      LeadingDigitsThenMark(d[1..], mark, rest);
    }
  }

  /** A stretch where the name's first two bytes never stand together is skipped. */
  lemma {:induction false} SkipTo(name: Bytes, p: Bytes, rest: Bytes)
    requires |name| >= 2 && rest != []
    requires forall i :: 0 <= i < |p| && p[i] == name[0] ==> (p + rest)[i + 1] != name[1]
    ensures After(name, p + rest) == After(name, rest)
  {
    if p == [] {
      assert p + rest == rest;
    } else {
      var s := p + rest;
      assert s[0] == p[0] && s[1..] == p[1..] + rest;
      assert s[0] == name[0] ==> s[1] != name[1];
      forall i | 0 <= i < |p[1..]| && p[1..][i] == name[0] ensures (p[1..] + rest)[i + 1] != name[1] {
        assert p[i + 1] == name[0] && s[i + 2] == (p[1..] + rest)[i + 1];
      }
      SkipTo(name, p[1..], rest);
    }
  }

  lemma ReadAfter(name: Bytes, p: Bytes, n: nat, mark: byte, rest: Bytes)
    requires |name| >= 2 && !IsDigit(mark)
    requires var tail := name + (Decimal(n) + [mark] + rest);
             forall i :: 0 <= i < |p| && p[i] == name[0] ==> (p + tail)[i + 1] != name[1]
    ensures ReadNumber(name, p + (name + (Decimal(n) + [mark] + rest))) == Some(n)
  {
    var number := Decimal(n) + [mark] + rest;
    SkipTo(name, p, name + number);
    assert name <= name + number && (name + number)[|name|..] == number;
    LeadingDigitsThenMark(Decimal(n), mark, rest);
    ValueOfDecimal(n);
  }

  /** The record gives its own balance and nonce. */
  lemma RecordReadsBack(a: Account)
    ensures ReadsAs(AccountJson(a), a)
  {
    hide ReadNumber, Decimal;
    BalanceReadsBack(a);
    NonceReadsBack(a);
  }

  lemma BalanceReadsBack(a: Account)
    ensures ReadNumber(Ascii("\"balance\":"), AccountJson(a)) == Some(a.balance)
  {
    hide ReadNumber, Decimal;
    var p, name := Ascii("{"), Ascii("\"balance\":");
    var rest := Ascii("\"nonce\":") + (Decimal(a.nonce) + [125] + []);
    assert Ascii("{\"balance\":") == p + name;
    assert AccountJson(a) == p + (name + (Decimal(a.balance) + [COMMA] + rest));
    ReadAfter(name, p, a.balance, COMMA, rest);
  }

  lemma NonceReadsBack(a: Account)
    ensures ReadNumber(Ascii("\"nonce\":"), AccountJson(a)) == Some(a.nonce)
  {
    hide ReadNumber, Decimal;
    var head, d, name := Ascii("{\"balance\":"), Decimal(a.balance), Ascii("\"nonce\":");
    var p, tail := head + d + [COMMA], name + (Decimal(a.nonce) + [125] + []);
    assert AccountJson(a) == p + tail;
    forall i | |head| <= i < |p| ensures p[i] != 34 {
      assert i < |head| + |d| ==> p[i] == d[i - |head|] && d[i - |head|] in d;
    }
    forall i | 0 <= i < |p| && p[i] == name[0] ensures (p + tail)[i + 1] != name[1] {
      assert p[i] == head[i] && (i == 1 || i == 9);
    }
    ReadAfter(name, p, a.nonce, 125, []);
  }

  /** The i-th leaf: prefix and i-th address in byte order, a zero byte, and a text that reads as its account. */
  lemma StateLeafReads(m: Accounts, i: nat)
    requires i < |StateLeaves(m)|
    ensures var addr := Listing(m.Keys)[i];
            && addr in m && ReadsAs(AccountJson(m[addr]), m[addr])
            && StateLeaves(m)[i] == (Ascii("account/") + addr) + [0] + AccountJson(m[addr])
  {
    var addr := Listing(m.Keys)[i];
    assert addr in Listing(m.Keys);
    RecordReadsBack(m[addr]);
    hide ReadsAs, AccountJson;
  }

  // ---------- Account proofs ----------

  /** The key names an account of the map, and the value is its record and reads as its balance and nonce. */
  ghost predicate IsEntry(m: Accounts, key: Bytes, value: Bytes) {
    exists addr {:trigger AccountKey(addr)} ::
      && addr in m && key == AccountKey(addr) == Ascii("account/") + addr
      && value == AccountJson(m[addr]) && ReadsAs(value, m[addr])
  }

  function AccountProof(H: Hasher, m: Accounts, keys: seq<Bytes>, i: nat, version: Bytes): StateProof
    requires i < |keys| && forall k :: k in keys ==> k in m
  {
    StateProof(AccountKey(keys[i]), AccountJson(m[keys[i]]),
               ProofSiblings(H, LeavesFor(m, keys), i), Directions(|keys|, i), version)
  }

  /** Every account has an accepted proof against the state root, of ceil(log2 n) steps. */
  lemma AccountProofComplete(H: Hasher, m: Accounts, addr: Bytes, version: Bytes) returns (p: StateProof)
    requires addr in m
    ensures p.Accepted(H, StateRootOf(H, m)) && p.key == AccountKey(addr) && p.value == AccountJson(m[addr])
    ensures |p.siblings| == Depth(|m|) && IsEntry(m, p.key, p.value) && ReadsAs(p.value, m[addr])
  {
    RecordReadsBack(m[addr]);
    var keys := Listing(m.Keys);
    assert addr in keys;
    var i :| 0 <= i < |keys| && keys[i] == addr;
    p := AccountProof(H, m, keys, i, version);
    StateProofComplete(H, LeavesFor(m, keys), i, p.key, p.value, version);
    ListingLength(m.Keys);
  }

  lemma ListingLength(keys: set<Bytes>)
    ensures |Listing(keys)| == |keys|
  {
    var s := Listing(keys);
    AscendingDistinct(s);
    DistinctLength(s, keys);
  }

  lemma {:induction false} DistinctLength(s: seq<Bytes>, keys: set<Bytes>)
    requires Lists(s, keys)
    requires forall i, j :: 0 <= i < j < |s| ==> s[i] != s[j]
    ensures |s| == |keys|
  {
    if s == [] {
      assert forall k :: k !in keys;
    } else {
      var rest := keys - {s[0]};
      assert forall k :: k in s <==> k == s[0] || k in s[1..];
      assert s[0] !in s[1..];
      assert s[0] in keys;
      DistinctLength(s[1..], rest);
    }
  }

  /**
   * An accepted state proof names an account of the map and its record exactly when the claimed value
   * has no zero byte; a zero byte in the value lets a key be cut short. Otherwise a collision shows.
   */
  lemma AccountProofSound(H: Hasher, m: Accounts, p: StateProof)
    requires p.Accepted(H, StateRootOf(H, m))
    ensures Collision(H, RootInputs(H, StateLeaves(m)), p.CheckedInputs(H))
            || (IsEntry(m, p.key, p.value) <==> 0 !in p.value)
  {
    var raw, keys := StateLeaves(m), Listing(m.Keys);
    StateProofSound(H, raw, p);
    if !Collision(H, RootInputs(H, raw), p.CheckedInputs(H)) {
      var i := Source(|raw|, PathIndex(p.directions));
      assert keys[i] in keys;
      var addr := keys[i];
      AccountJsonZeroFree(m[addr]);
      RecordReadsBack(m[addr]);
      if 0 !in p.value {
        StateLeafSplits(p.key, p.value, AccountKey(addr), AccountJson(m[addr]));
      } else if IsEntry(m, p.key, p.value) {
        var other :| other in m && p.key == AccountKey(other) && p.value == AccountJson(m[other]);
        AccountJsonZeroFree(m[other]);
      }
    }
  }

  /** An address holding a zero byte makes such a proof: the key is cut at that byte. */
  lemma CutKeyAccepted(H: Hasher, addr: Bytes, rest: Bytes, a: Account)
    ensures var m: Accounts := map[addr + [0] + rest := a];
            var p := StateProof(AccountKey(addr), rest + [0] + AccountJson(a), [], [], []);
            p.Accepted(H, StateRootOf(H, m)) && !IsEntry(m, p.key, p.value)
  {
    var full := addr + [0] + rest;
    var m: Accounts := map[full := a];
    var p := StateProof(AccountKey(addr), rest + [0] + AccountJson(a), [], [], []);
    OneAccountRoot(H, full, a);
    assert AccountLeaf(full, a) == StateLeaf(p.key, p.value);
    assert p.value[|rest|] == 0;
    AccountJsonZeroFree(a);
  }

  lemma OneAccountRoot(H: Hasher, addr: Bytes, a: Account)
    ensures StateRootOf(H, map[addr := a]) == Leaf(H, AccountLeaf(addr, a))
  {
    var m: Accounts := map[addr := a];
    ListingUnique(Listing(m.Keys), [addr]);
    assert StateLeaves(m) == [AccountLeaf(addr, a)];
    assert Leaves(H, [AccountLeaf(addr, a)]) == [Leaf(H, AccountLeaf(addr, a))];
  }
}
