/** saveLedger and loadLedger of internal/app/engine.go: what of the receipt log survives. */
module SaveLoad {
  import opened Common
  import opened Sorting
  import opened Ledger
  import opened Chain
  import opened Rounds

  datatype SavedLedger = SavedLedger(
    version: nat, height: nat, lastCommittedHeight: nat, receipts: seq<Receipt>, rounds: seq<RoundHeader>)

  predicate LessHeight(a: Receipt, b: Receipt) {
    a.height < b.height
  }

  lemma LessHeightIsStrictWeak()
    ensures StrictWeak(LessHeight)
  {
  }

  /** The map's receipts, each once, in some order: what iterating over it can yield. */
  ghost predicate Enumerates(list: seq<Receipt>, m: map<Bytes, Receipt>) {
    && (forall i :: 0 <= i < |list| ==> list[i].txHash in m && m[list[i].txHash] == list[i])
    && (forall i, j :: 0 <= i < j < |list| ==> list[i].txHash != list[j].txHash)
    && (forall k :: k in m ==> m[k] in list)
  }

  // ---------- The last receipt of each hash, in log order ----------

  function Without(log: seq<Receipt>, hash: Bytes): (r: seq<Receipt>)
    ensures |r| <= |log|
  {
    if log == [] then [] else
    var k := |log| - 1;
    if log[k].txHash == hash then Without(log[..k], hash) else Without(log[..k], hash) + [log[k]]
  }

  function KeepLast(log: seq<Receipt>): (r: seq<Receipt>)
    ensures |r| <= |log|
  {
    if log == [] then [] else
    var k := |log| - 1;
    Without(KeepLast(log[..k]), log[k].txHash) + [log[k]]
  }

  lemma {:induction false} WithoutElements(log: seq<Receipt>, hash: Bytes, r: Receipt)
    ensures r in Without(log, hash) <==> r in log && r.txHash != hash
  {
    if log != [] {
      var k := |log| - 1;
      WithoutElements(log[..k], hash, r);
      assert log == log[..k] + [log[k]];
    }
  }

  ghost predicate IsLast(log: seq<Receipt>, i: nat)
    requires i < |log|
  {
    forall j :: i < j < |log| ==> log[j].txHash != log[i].txHash
  }

  /** KeepLast holds exactly the receipts that no later one of the same hash replaced. */
  lemma {:induction false} KeepLastElements(log: seq<Receipt>, r: Receipt)
    ensures r in KeepLast(log) <==> exists i :: 0 <= i < |log| && log[i] == r && IsLast(log, i)
  {
    if log != [] {
      var k := |log| - 1;
      KeepLastElements(log[..k], r);
      WithoutElements(KeepLast(log[..k]), log[k].txHash, r);
      hide KeepLast, Without, IsLast;
      KeepLastUnfolds(log);
      forall i | 0 <= i < k
        ensures log[..k][i] == log[i]
        ensures IsLast(log, i) <==> IsLast(log[..k], i) && log[k].txHash != log[i].txHash
      {
        LastInPrefix(log, i);
      }
      LastIsLast(log);
    }
  }

  lemma KeepLastUnfolds(log: seq<Receipt>)
    requires log != []
    ensures KeepLast(log) == Without(KeepLast(log[..|log| - 1]), log[|log| - 1].txHash) + [log[|log| - 1]]
  {
  }

  lemma LastIsLast(log: seq<Receipt>)
    requires log != []
    ensures IsLast(log, |log| - 1)
  {
  }

  lemma LastInPrefix(log: seq<Receipt>, i: nat)
    requires i < |log| - 1
    ensures IsLast(log, i) <==> IsLast(log[..|log| - 1], i) && log[|log| - 1].txHash != log[i].txHash
  {
    var init := log[..|log| - 1];
    assert forall j :: 0 <= j < |init| ==> init[j] == log[j];
  }

  ghost predicate AscendingHeights(s: seq<Receipt>) {
    forall i, j :: 0 <= i < j < |s| ==> s[i].height < s[j].height
  }

  lemma {:induction false} WithoutAscends(s: seq<Receipt>, hash: Bytes, below: nat)
    requires AscendingHeights(s) && forall r :: r in s ==> r.height < below
    ensures AscendingHeights(Without(s, hash))
    ensures forall r :: r in Without(s, hash) ==> r.height < below
  {
    if s != [] {
      var k := |s| - 1;
      assert s[k] in s;
      forall r | r in s[..k] ensures r in s && r.height < s[k].height {
      }
      WithoutAscends(s[..k], hash, s[k].height);
      var init := Without(s[..k], hash);
      forall r | r in Without(s, hash) ensures r.height < below {
      }
      assert forall i :: 0 <= i < |init| ==> init[i] in init;
    }
  }

  ghost predicate Numbered(log: seq<Receipt>) {
    forall i :: 0 <= i < |log| ==> log[i].height == i
  }

  lemma {:induction false} KeepLastAscends(log: seq<Receipt>)
    requires Numbered(log)
    ensures AscendingHeights(KeepLast(log)) && forall r :: r in KeepLast(log) ==> r.height < |log|
  {
    if log != [] {
      var k := |log| - 1;
      KeepLastAscends(log[..k]);
      WithoutAscends(KeepLast(log[..k]), log[k].txHash, k);
      var init := Without(KeepLast(log[..k]), log[k].txHash);
      assert forall i :: 0 <= i < |init| ==> init[i] in init;
    }
  }

  lemma {:induction false} ByHashEntries(log: seq<Receipt>, r: Receipt)
    ensures r.txHash in ByHash(log) && ByHash(log)[r.txHash] == r <==> r in KeepLast(log)
  {
    if log != [] {
      var k := |log| - 1;
      ByHashEntries(log[..k], r);
      WithoutElements(KeepLast(log[..k]), log[k].txHash, r);
    }
  }

  // ---------- Saving ----------

  lemma {:induction false} AscendingUnique(a: seq<Receipt>, b: seq<Receipt>)
    requires AscendingHeights(a) && AscendingHeights(b) && forall r :: r in a <==> r in b
    ensures a == b
  {
    assert b != [] ==> b[0] in b;
    if a != [] {
      assert a[0] in a;
      var j :| 0 <= j < |b| && b[j] == a[0];
      var i :| 0 <= i < |a| && a[i] == b[0];
      assert i == 0 && j == 0;
      Tail(a);
      Tail(b);
      AscendingUnique(a[1..], b[1..]);
      assert a == [a[0]] + a[1..] && b == [b[0]] + b[1..];
    }
  }

  lemma Tail(a: seq<Receipt>)
    requires AscendingHeights(a) && a != []
    ensures AscendingHeights(a[1..]) && forall r :: r in a[1..] <==> r in a && r != a[0]
  {
    forall r | r in a && r != a[0] ensures r in a[1..] {
      var i :| 0 <= i < |a| && a[i] == r;
      assert a[1..][i - 1] == r;
    }
    forall r | r in a[1..] ensures r in a && r != a[0] {
      var i :| 0 <= i < |a[1..]| && a[1..][i] == r;
      assert a[i + 1] == r && a[0].height < a[i + 1].height;
    }
  }

  /** Whatever order the map is iterated in, the saved list is the last receipt of each hash in log order. */
  lemma SavedListIsKeepLast(log: seq<Receipt>, list: seq<Receipt>)
    requires Numbered(log) && Enumerates(list, ByHash(log)) && SortedBy(LessHeight, list)
    ensures list == KeepLast(log)
  {
    KeepLastAscends(log);
    forall r ensures r in list <==> r in KeepLast(log) {
      ByHashEntries(log, r);
      if r in KeepLast(log) {
        assert r.txHash in ByHash(log);
      }
    }
    forall i, j | 0 <= i < j < |list| ensures list[i].height < list[j].height {
      assert !LessHeight(list[j], list[i]);
      assert list[i] in list && list[j] in list;
      if list[i].height == list[j].height {
        SameHeightSameReceipt(KeepLast(log), list[i], list[j]);
      }
    }
    AscendingUnique(list, KeepLast(log));
  }

  lemma SameHeightSameReceipt(s: seq<Receipt>, a: Receipt, b: Receipt)
    requires AscendingHeights(s) && a in s && b in s && a.height == b.height
    ensures a == b
  {
    var i :| 0 <= i < |s| && s[i] == a;
    var j :| 0 <= j < |s| && s[j] == b;
  }

  // ---------- Loading ----------

  /** The ledger fields after loading into an engine; everything else is as that engine had it. */
  function Loaded(env: Env, s: State, led: SavedLedger, sorted: seq<Receipt>): State {
    s.(height := |sorted|, lastCommittedHeight := led.lastCommittedHeight, rounds := led.rounds,
       receipts := ByHash(sorted), leaves := Jsons(env, sorted), log := sorted)
  }

  ghost predicate DistinctHashes(log: seq<Receipt>) {
    forall i, j :: 0 <= i < j < |log| ==> log[i].txHash != log[j].txHash
  }

  lemma {:induction false} WithoutAbsent(log: seq<Receipt>, hash: Bytes)
    ensures |Without(log, hash)| == |log| <==> (forall r :: r in log ==> r.txHash != hash)
    ensures |Without(log, hash)| == |log| ==> Without(log, hash) == log
  {
    if log != [] {
      var k := |log| - 1;
      WithoutAbsent(log[..k], hash);
      assert log == log[..k] + [log[k]];
    }
  }

  lemma DistinctByLast(log: seq<Receipt>)
    requires log != []
    ensures var init, last := log[..|log| - 1], log[|log| - 1];
            DistinctHashes(log) <==> DistinctHashes(init) && forall r :: r in init ==> r.txHash != last.txHash
  {
    var k := |log| - 1;
    var init := log[..k];
    assert forall i :: 0 <= i < k ==> init[i] == log[i] && log[i] in init;
  }

  /** Nothing is dropped exactly when all hashes differ; otherwise the kept list is shorter. */
  lemma {:induction false} KeepLastIsAllIff(log: seq<Receipt>)
    ensures DistinctHashes(log) <==> |KeepLast(log)| == |log|
    ensures |KeepLast(log)| == |log| ==> KeepLast(log) == log
  {
    if log != [] {
      KeepLastIsAllIff(log[..|log| - 1]);
      OneMoreKept(log);
    }
  }

  lemma OneMoreKept(log: seq<Receipt>)
    requires log != []
    requires var init := log[..|log| - 1];
             && (DistinctHashes(init) <==> |KeepLast(init)| == |init|)
             && (|KeepLast(init)| == |init| ==> KeepLast(init) == init)
    ensures DistinctHashes(log) <==> |KeepLast(log)| == |log|
    ensures |KeepLast(log)| == |log| ==> KeepLast(log) == log
  {
    hide *;
    var init, last := log[..|log| - 1], log[|log| - 1];
    WithoutAbsent(KeepLast(init), last.txHash);
    DistinctByLast(log);
    KeepLastUnfolds(log);
    assert log == init + [last];
    var kept := Without(KeepLast(init), last.txHash);
    assert |kept| <= |KeepLast(init)| <= |init|;
    if |kept| == |init| {
      assert kept == init;
    }
  }

  lemma ByHashOfKeepLast(log: seq<Receipt>)
    ensures ByHash(KeepLast(log)) == ByHash(log)
  {
    hide KeepLast, ByHash;
    var a, b := ByHash(KeepLast(log)), ByHash(log);
    KeepLastDistinct(log);
    KeepLastIsAllIff(KeepLast(log));
    forall k | k in a ensures k in b && a[k] == b[k] {
      ByHashEntries(KeepLast(log), a[k]);
      ByHashEntries(log, a[k]);
    }
    forall k | k in b ensures k in a {
      ByHashEntries(log, b[k]);
      ByHashEntries(KeepLast(log), b[k]);
    }
    assert a.Keys == b.Keys;
  }

  lemma {:induction false} KeepLastDistinct(log: seq<Receipt>)
    ensures DistinctHashes(KeepLast(log))
  {
    if log != [] {
      var k := |log| - 1;
      KeepLastDistinct(log[..k]);
      WithoutDistinct(KeepLast(log[..k]), log[k].txHash);
      var init := Without(KeepLast(log[..k]), log[k].txHash);
      forall i | 0 <= i < |init| ensures init[i].txHash != log[k].txHash {
        assert init[i] in init;
        WithoutElements(KeepLast(log[..k]), log[k].txHash, init[i]);
      }
    }
  }

  lemma {:induction false} WithoutDistinct(s: seq<Receipt>, hash: Bytes)
    requires DistinctHashes(s)
    ensures DistinctHashes(Without(s, hash))
  {
    if s != [] {
      var k := |s| - 1;
      WithoutDistinct(s[..k], hash);
      var init := Without(s[..k], hash);
      forall i | 0 <= i < |init| ensures init[i].txHash != s[k].txHash {
        assert init[i] in init;
        WithoutElements(s[..k], hash, init[i]);
        var j :| 0 <= j < k && s[..k][j] == init[i];
        assert s[j] == init[i];
      }
    }
  }

  /**
   * Save, then load into any engine: for every run, whatever the map's iteration order, the loaded log is the last
   * receipt of each hash in log order, and rounds and the map by hash return unchanged. The leaves and the height
   * return unchanged exactly when all hashes in the log differ.
   */
  lemma SaveLoadRoundTrip(env: Env, feeReceiver: Bytes, accounts: Accounts, events: seq<Event>,
                          led: SavedLedger, target: State, sorted: seq<Receipt>)
    requires var s := Run(env, feeReceiver, Genesis(accounts), events);
             && Enumerates(led.receipts, s.receipts) && SortedBy(LessHeight, led.receipts)
             && led.rounds == s.rounds && led.lastCommittedHeight == s.lastCommittedHeight
    requires SortedBy(LessHeight, sorted) && multiset(sorted) == multiset(led.receipts)
    ensures var s, l := Run(env, feeReceiver, Genesis(accounts), events), Loaded(env, target, led, sorted);
            && l.leaves == Jsons(env, KeepLast(s.log)) && l.log == KeepLast(s.log)
            && l.receipts == s.receipts && l.rounds == s.rounds && l.lastCommittedHeight == s.lastCommittedHeight
            && (l.leaves == s.leaves && l.height == s.height <==> DistinctHashes(s.log))
  {
    hide Run, HeadersInv, RoundsInv, Jsons, KeepLast, ByHash, Enumerates, SortedBy, DistinctHashes;
    var s := Run(env, feeReceiver, Genesis(accounts), events);
    RunKeepsInv(env, feeReceiver, accounts, events);
    SavedListIsKeepLast(s.log, led.receipts);
    PermutationEnumerates(led.receipts, sorted, s.receipts);
    SavedListIsKeepLast(s.log, sorted);
    ByHashOfKeepLast(s.log);
    KeepLastIsAllIff(s.log);
  }

  lemma PermutationEnumerates(a: seq<Receipt>, b: seq<Receipt>, m: map<Bytes, Receipt>)
    requires Enumerates(a, m) && multiset(a) == multiset(b)
    ensures Enumerates(b, m)
  {
    forall i | 0 <= i < |b| ensures b[i].txHash in m && m[b[i].txHash] == b[i] {
      assert b[i] in multiset(b);
      assert b[i] in a;
    }
    forall k | k in m ensures m[k] in b {
      assert m[k] in multiset(a);
    }
    forall i, j | 0 <= i < j < |b| ensures b[i].txHash != b[j].txHash {
      if b[i].txHash == b[j].txHash {
        assert b[i] == b[j];
        RepeatCountsTwo(b, i, j);
        DistinctCountsOne(a, b[i]);
      }
    }
  }
}
