/**
 * internal/state: the account store. Accounts are held by reference, so one call may reach one account by several
 * names.
 */
module StateDB {
  import opened Common
  import opened Text
  import opened Sorting
  import opened Ledger
  import opened Merkle
  import opened StateRoot

  /** Every balance raised by its allocation, whatever order the allocations come in. */
  function Endowed(m: Accounts, balances: map<Bytes, uint64>): Accounts {
    map a | a in m.Keys + balances.Keys ::
      var acc := Lookup(m, a);
      Account(Wrap64(acc.balance + if a in balances then balances[a] else 0), acc.nonce)
  }

  lemma EndowedNothing(m: Accounts, balances: map<Bytes, uint64>)
    ensures Endowed(m, balances - balances.Keys) == m
  {
    forall a | a in m ensures Endowed(m, balances - balances.Keys)[a] == m[a] {
      WrapOfUint64(m[a].balance);
    }
  }

  /** Each balance moves by its own allocation, nothing else, and exactly the allocated addresses come to exist. */
  lemma EndowedEffect(m: Accounts, balances: map<Bytes, uint64>, addr: Bytes)
    ensures var after := Endowed(m, balances);
            && Lookup(after, addr).balance
               == Wrap64(Lookup(m, addr).balance + if addr in balances then balances[addr] else 0)
            && Lookup(after, addr).nonce == Lookup(m, addr).nonce
            && (addr in after <==> addr in m || addr in balances)
  {
    WrapOfUint64(Lookup(m, addr).balance);
  }

  lemma EndowedOneMore(m: Accounts, balances: map<Bytes, uint64>, rest: set<Bytes>, addr: Bytes)
    requires rest <= balances.Keys && addr in rest
    ensures Endowed(m, balances - (rest - {addr})) == Credit(Endowed(m, balances - rest), addr, balances[addr])
  {
    var before := Endowed(m, balances - rest);
    WrapOfUint64(Lookup(m, addr).balance);
    assert Lookup(before, addr) == Lookup(m, addr);
    hide Wrap64;
  }

  lemma OneFewer(m: Accounts, rest: set<Bytes>, k: Bytes)
    requires rest <= m.Keys && k in rest
    ensures (m - rest)[k := m[k]] == m - (rest - {k})
  {
  }

  class Cell {
    var balance: uint64
    var nonce: uint64

    constructor (a: Account)
      ensures balance == a.balance && nonce == a.nonce
    {
      balance, nonce := a.balance, a.nonce;
    }
  }

  class DB {
    var accts: map<Bytes, Cell>
    var feeReceiver: Bytes
    var kv: map<Bytes, Bytes>

    /** Distinct addresses have distinct cells. */
    ghost predicate Valid()
      reads this
    {
      forall a, b :: a in accts && b in accts && a != b ==> accts[a] != accts[b]
    }

    ghost function View(): Accounts
      reads this, accts.Values
    {
      map a | a in accts :: Account(accts[a].balance, accts[a].nonce)
    }

    constructor ()
      ensures Valid() && View() == map[] && feeReceiver == [] && kv == map[]
      ensures accts == map[]
    {
      accts := map[];
      feeReceiver := [];
      kv := map[];
    }

    method SetFeeReceiver(addr: Bytes)
      modifies this`feeReceiver
      ensures feeReceiver == addr
    {
      feeReceiver := addr;
    }

    method Get(addr: Bytes) returns (acc: Cell)
      requires Valid()
      modifies this`accts
      ensures Valid() && addr in accts && acc == accts[addr]
      ensures fresh(accts.Values - old(accts.Values)) && old(accts.Values) <= accts.Values
      ensures View() == Touch(old(View()), addr)
      ensures Account(acc.balance, acc.nonce) == Lookup(old(View()), addr)
    {
      if addr in accts {
        acc := accts[addr];
      } else {
        ghost var before := accts;
        AddCell(addr, NEW_ACCOUNT);
        acc := accts[addr];
        assert forall a :: a in before ==> accts[a] == before[a] && accts[a] in accts.Values;
        assert View()[addr] == NEW_ACCOUNT;
      }
    }

    /** Raises a balance, creating the account if there is none. */
    method AddTo(addr: Bytes, amount: uint64)
      requires Valid()
      modifies this`accts, accts.Values
      ensures Valid() && fresh(accts.Values - old(accts.Values))
      ensures View() == Credit(old(View()), addr, amount)
    {
      hide Wrap64;
      var acc := Get(addr);
      Raise(addr, acc, amount);
    }

    method Raise(ghost addr: Bytes, acc: Cell, amount: uint64)
      requires Valid() && addr in accts && accts[addr] == acc
      modifies acc
      ensures View() == old(View())[addr := Account(Wrap64(old(acc.balance) + amount), old(acc.nonce))]
    {
      hide Wrap64;
      acc.balance := Wrap64(acc.balance + amount);
    }

    /** Takes an amount from the sender's cell and advances its nonce. */
    method Charge(ghost addr: Bytes, fa: Cell, need: uint64)
      requires Valid() && addr in accts && accts[addr] == fa && need <= fa.balance
      modifies fa
      ensures View() == old(View())[addr := Account(old(fa.balance) - need, Wrap64(old(fa.nonce) + 1))]
    {
      hide Wrap64;
      fa.balance := fa.balance - need;
      fa.nonce := Wrap64(fa.nonce + 1);
    }

    /** The allocation map is read in any order; each address is credited once. */
    method InitGenesis(balances: map<Bytes, uint64>)
      requires Valid()
      modifies this`accts, accts.Values
      ensures Valid() && fresh(accts.Values - old(accts.Values))
      ensures View() == Endowed(old(View()), balances)
    {
      hide Credit, Endowed;
      EndowedNothing(View(), balances);
      var rest := balances.Keys;
      while rest != {}
        invariant Valid() && rest <= balances.Keys && fresh(accts.Values - old(accts.Values))
        invariant View() == Endowed(old(View()), balances - rest)
        decreases |rest|
      {
        var addr :| addr in rest;
        EndowedOneMore(old(View()), balances, rest, addr);
        AddTo(addr, balances[addr]);
        rest := rest - {addr};
      }
      assert balances - {} == balances;
    }

    method AddBalance(addr: Bytes, amount: uint64)
      requires Valid()
      modifies this`accts, accts.Values
      ensures Valid() && fresh(accts.Values - old(accts.Values))
      ensures View() == if amount == 0 then old(View()) else Credit(old(View()), addr, amount)
    {
      if amount == 0 {
        return;
      }
      AddTo(addr, amount);
    }

    method ApplyTransfer(t: Transfer) returns (err: Option<TransferError>)
      requires Valid()
      modifies this`accts, accts.Values
      ensures Valid() && fresh(accts.Values - old(accts.Values))
      ensures err == Rejection(old(View()), t)
      ensures View() == AfterTransfer(old(View()), feeReceiver, t)
    {
      hide Wrap64, PayOut;
      var fa := Get(t.from);
      if Wrap64(fa.nonce + 1) != t.nonce {
        return Some(BadNonce);
      }
      var need := Wrap64(t.amount + t.fee);
      if fa.balance < need {
        return Some(InsufficientFunds);
      }
      Charge(t.from, fa, need);
      assert View() == Debit(old(View()), t);
      PayReceivers(t);
      return None;
    }

    method PayReceivers(t: Transfer)
      requires Valid()
      modifies this`accts, accts.Values
      ensures Valid() && fresh(accts.Values - old(accts.Values))
      ensures View() == PayOut(old(View()), feeReceiver, t)
    {
      hide Credit;
      AddTo(t.to, t.amount);
      if feeReceiver != [] {
        AddTo(feeReceiver, t.fee);
      }
    }

    method GetAccount(addr: Bytes) returns (a: Account)
      requires Valid()
      modifies this`accts
      ensures Valid() && fresh(accts.Values - old(accts.Values))
      ensures a == Lookup(old(View()), addr) && View() == Touch(old(View()), addr)
    {
      var acc := Get(addr);
      a := Account(acc.balance, acc.nonce);
    }

    method Snapshot() returns (m: Accounts)
      requires Valid()
      ensures m == View()
    {
      m := map a | a in accts :: Account(accts[a].balance, accts[a].nonce);
    }

    method Restore(m: Accounts)
      modifies this`accts
      ensures Valid() && View() == m && fresh(accts.Values)
    {
      accts := map[];
      var rest := m.Keys;
      assert Valid() && View() == m - rest;
      hide View, Valid;
      while rest != {}
        invariant Valid() && rest <= m.Keys && fresh(accts.Values)
        invariant View() == m - rest
        decreases |rest|
      {
        var k :| k in rest;
        AddCell(k, m[k]);
        OneFewer(m, rest, k);
        rest := rest - {k};
      }
    }

    /** Puts a value in a new cell of its own, replacing the address's old cell if it had one. */
    method AddCell(k: Bytes, val: Account)
      requires Valid()
      modifies this`accts
      ensures Valid() && fresh(accts.Values - old(accts.Values))
      ensures k in accts && forall a :: a in old(accts) && a != k ==> a in accts && accts[a] == old(accts[a])
      ensures View() == old(View())[k := val]
    {
      var cell := new Cell(val);
      assert cell !in accts.Values;
      ghost var before := accts;
      accts := accts[k := cell];
      assert forall c :: c in accts.Values ==> c == cell || c in before.Values;
    }

    method SetKey(key: Bytes, value: Bytes)
      modifies this`kv
      ensures kv == old(kv)[key := value] && View() == old(View())
    {
      kv := kv[key := value];
    }

    method DeleteKey(key: Bytes)
      modifies this`kv
      ensures kv == old(kv) - {key} && View() == old(View())
    {
      kv := kv - {key};
    }

    method GetKey(key: Bytes) returns (value: Option<Bytes>)
      ensures value.Some? <==> key in kv
      ensures value.Some? ==> value.value == kv[key]
    {
      value := if key in kv then Some(kv[key]) else None;
    }

    /** The keys of the snapshot arrive in any order; sorting makes the root a function of the map. */
    method ComputeStateRoot(H: Hasher) returns (root: Digest)
      requires Valid()
      ensures root == StateRootOf(H, View())
    {
      var snapshot := Snapshot();
      root := RootOfSnapshot(H, snapshot);
    }
  }

  method RootOfSnapshot(H: Hasher, snapshot: Accounts) returns (root: Digest)
    ensures root == StateRootOf(H, snapshot)
  {
    if |snapshot| == 0 {
      assert snapshot.Keys == {};
      root := Blake3RootFromRaw(H, []);
      return;
    }
    var keys := SortedKeys(snapshot.Keys);
    var raw := RawLeaves(snapshot, keys);
    root := Blake3RootFromRaw(H, raw);
  }

  method RawLeaves(snapshot: Accounts, keys: seq<Bytes>) returns (raw: seq<Bytes>)
    requires forall k :: k in keys ==> k in snapshot
    ensures raw == LeavesFor(snapshot, keys)
  {
    hide *;
    raw := [];
    for i := 0 to |keys|
      invariant |raw| == i
      invariant forall j :: 0 <= j < i ==> raw[j] == LeavesFor(snapshot, keys)[j]
    {
      assert keys[i] in keys;
      var buf := LeafBuffer(keys[i], snapshot[keys[i]]);
      raw := raw + [buf];
    }
  }

  method LeafBuffer(addr: Bytes, a: Account) returns (buf: Bytes)
    ensures buf == AccountLeaf(addr, a)
  {
    var value := AccountJson(a);
    buf := Ascii("account/");
    buf := buf + addr;
    buf := buf + [0];
    buf := buf + value;
  }

  lemma LessIsStrictWeak()
    ensures StrictWeak(Less)
  {
    forall x, y {:trigger Less(x, y)} | Less(x, y) ensures !Less(y, x) {
      LessIrreflexive(x);
      if Less(y, x) {
        LessTransitive(x, y, x);
      }
    }
    forall x, y, z {:trigger Less(y, x), Less(z, y)} | !Less(y, x) && !Less(z, y) ensures !Less(z, x) {
      LessTotal(x, y);
      LessTotal(y, z);
      if Less(z, x) {
        if x != y && y != z {
          LessTransitive(z, x, y);
        }
      }
    }
  }

  /** The keys of a map in whatever order iteration yields them, then sort.Strings. */
  method SortedKeys(s: set<Bytes>) returns (keys: seq<Bytes>)
    ensures keys == Listing(s)
  {
    var list: seq<Bytes> := [];
    var rest := s;
    while rest != {}
      invariant rest <= s
      invariant forall k :: k in list <==> k in s - rest
      invariant forall i, j :: 0 <= i < j < |list| ==> list[i] != list[j]
      decreases |rest|
    {
      var k :| k in rest;
      assert k !in list;
      assert forall i :: 0 <= i < |list| ==> list[i] in list;
      list := list + [k];
      rest := rest - {k};
    }
    LessIsStrictWeak();
    keys := Sort(Less, list);
    SortedDistinctAscending(list, keys);
    ListingUnique(keys, Listing(s));
  }

  lemma SortedDistinctAscending(list: seq<Bytes>, keys: seq<Bytes>)
    requires multiset(keys) == multiset(list) && SortedBy(Less, keys)
    requires forall i, j :: 0 <= i < j < |list| ==> list[i] != list[j]
    ensures Ascending(keys)
    ensures forall k :: k in keys <==> k in list
  {
    forall k ensures k in keys <==> k in list {
      assert k in keys <==> k in multiset(keys);
      assert k in list <==> k in multiset(list);
    }
    forall i, j | 0 <= i < j < |keys| ensures Less(keys[i], keys[j]) {
      LessTotal(keys[i], keys[j]);
      if keys[i] == keys[j] {
        DistinctCountsOne(list, keys[i]);
        RepeatCountsTwo(keys, i, j);
      }
    }
  }
}
