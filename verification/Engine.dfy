/** internal/app/engine.go: the engine object, each method proved against the step function of Chain. */
module Engine {
  import opened Common
  import opened Text
  import opened Sorting
  import opened Ledger
  import opened Merkle
  import opened StateRoot
  import opened StateDB
  import opened Chain
  import opened Rounds
  import opened SaveLoad
  import Rewards

  class Node {
    const env: Env
    const db: DB

    var receipts: map<Bytes, Receipt>
    var leaves: seq<Bytes>
    var height: nat
    var rounds: seq<RoundHeader>
    var lastCommittedHeight: nat
    var eternityHeaders: seq<EternityHeader>
    var lastBlockId: Digest
    var lastCommitRoot: Digest
    var lastCommitHeight: nat
    var commitRootReady: bool
    var supply: SupplyState
    var lastMinted: uint64
    var lastEmissionEpoch: nat
    var commitFeed: seq<CommitRecord>

    /** The receipts behind the leaves, in order. */
    ghost var log: seq<Receipt>

    ghost predicate Valid()
      reads this, db
    {
      db.Valid() && forall k :: k in receipts ==> receipts[k].txHash == k
    }

    ghost function View(): State
      reads this, db, db.accts.Values
    {
      State(db.View(), db.kv, log, leaves, receipts, height, rounds, lastCommittedHeight, eternityHeaders, lastBlockId,
            lastCommitRoot, lastCommitHeight, commitRootReady, supply, lastMinted, lastEmissionEpoch, commitFeed)
    }

    constructor (env: Env, db: DB)
      requires db.Valid() && db.accts == map[] && db.kv == map[]
      ensures Valid() && this.env == env && this.db == db && View() == Genesis(map[])
    {
      this.env, this.db := env, db;
      receipts, leaves, height, log := map[], [], 0, [];
      rounds, lastCommittedHeight := [], 0;
      eternityHeaders, lastBlockId := [], ZERO_DIGEST;
      lastCommitRoot, lastCommitHeight, commitRootReady := ZERO_DIGEST, 0, false;
      supply, lastMinted, lastEmissionEpoch, commitFeed := NO_SUPPLY, 0, 0, [];
    }

    method ApplyTransfer(t: Transfer) returns (err: Option<TransferError>)
      requires Valid()
      modifies db`accts, db.accts.Values
      ensures Valid() && fresh(db.accts.Values - old(db.accts.Values))
      ensures err == Rejection(old(db.View()), t)
      ensures View() == old(View()).(accounts := AfterTransfer(old(db.View()), db.feeReceiver, t))
    {
      err := db.ApplyTransfer(t);
    }

    method GetAccount(addr: Bytes) returns (a: Account)
      requires Valid()
      modifies db`accts
      ensures Valid() && fresh(db.accts.Values - old(db.accts.Values))
      ensures a == Lookup(old(db.View()), addr)
      ensures View() == old(View()).(accounts := Touch(old(db.View()), addr))
    {
      a := db.GetAccount(addr);
    }

    method StoreReceipt(t: TxTransfer, applied: bool, reason: string, now: int) returns (r: Receipt)
      requires Valid()
      modifies this
      ensures Valid()
      ensures r == ReceiptFor(env, old(View()), t, applied, reason, now)
      ensures View() == Chain.StoreReceipt(env, old(View()), t, applied, reason, now)
    {
      hide DB.View, TxHash;
      height := height + 1;
      var status := "applied";
      if !applied {
        status := "rejected:" + reason;
      }
      r := Receipt(TxHash(env, t), t.from, t.to, t.amount, t.fee, t.nonce, status, |leaves|, now);
      receipts := receipts[r.txHash := r];
      leaves := leaves + [env.receiptJson(r)];
      log := log + [r];
    }

    method CommitRound(now: int) returns (committed: Option<RoundHeader>)
      requires Valid()
      modifies this, db`kv
      ensures Valid()
      ensures View() == Chain.CommitRound(env, old(View()), now)
      ensures committed == if CanCommit(old(View())) then Some(NextRound(env, old(View()), now)) else None
    {
      hide View, AddHeader, MintRound, NextRound, Chain.CommitRound;
      CommitUnfolds(env, View(), now);
      SyncHeight();
      ghost var s0 := View();
      var from, to := PendingRange();
      if from > to {
        return None;
      }
      ApplyBlockMint(to);
      RoundAfterMint(env, s0, now);
      var sub, hdr := ComposeRound(now);
      RecordRound(hdr);
      AppendHeader(sub, hdr);
      SameRound(env, old(View()), now);
      return Some(hdr);
    }

    method SyncHeight()
      requires Valid()
      modifies this`height
      ensures Valid() && View() == old(View()).(height := |old(View()).leaves|)
    {
      hide DB.View;
      if height != |leaves| {
        height := |leaves|;
      }
    }

    method PendingRange() returns (from: nat, to: nat)
      requires Valid()
      ensures from == View().lastCommittedHeight + 1 && to == View().height
    {
      from, to := lastCommittedHeight + 1, height;
    }

    method RecordRound(hdr: RoundHeader)
      requires Valid()
      modifies this`rounds, this`lastCommittedHeight
      ensures Valid()
      ensures View() == old(View()).(rounds := old(View()).rounds + [hdr], lastCommittedHeight := hdr.toHeight)
    {
      hide DB.View;
      rounds := rounds + [hdr];
      lastCommittedHeight := hdr.toHeight;
    }

    /** The round header over the leaves not yet committed. */
    method ComposeRound(now: int) returns (sub: seq<Bytes>, hdr: RoundHeader)
      requires Valid() && CanCommit(View()) && View().height == |View().leaves|
      ensures sub == Slice(View()) && hdr == NextRound(env, View(), now)
      ensures hdr.toHeight == View().height
    {
      hide Root, Hex;
      var from, to := lastCommittedHeight + 1, height;
      sub := leaves[from - 1..to];
      var root := Blake3RootFromRaw(env.sha256, sub);
      hdr := RoundHeader(|rounds| + 1, from, to, |sub|, Hex(root), now, []);
      if |env.priv| != 0 {
        hdr := hdr.(signatureHex := Hex(env.sign(hdr)));
      }
    }

    method ApplyBlockMint(h: nat)
      requires Valid()
      modifies this`supply, this`lastMinted, this`lastEmissionEpoch, db`kv
      ensures Valid() && View() == MintRound(env, old(View()), h)
    {
      hide DB.View, Mint, SupplyCurrentKey, SupplyHistoryKey;
      supply := Mint(env, supply, h);
      db.SetKey(SupplyCurrentKey(), env.supplyJson(supply));
      db.SetKey(SupplyHistoryKey(h), env.supplyJson(supply));
      lastMinted := env.blockMintAt(h);
      lastEmissionEpoch := Rewards.EpochOf(h);
    }

    /** The bundle and the header of a round over the state as it now is. */
    method ComposeHeader(raw: seq<Bytes>, hdr: RoundHeader) returns (header: EternityHeader, bundle: CommitBundle)
      requires Valid() && env.HasKeys()
      ensures bundle == NextBundle(env, hdr, View().kv) && header == NextHeader(env, View(), hdr, raw, bundle)
    {
      hide Root, StateRootOf, ScoresRoot, BundleHash;
      var txRoot := Blake3RootFromRaw(env.blake3, raw);
      var stateRoot := db.ComputeStateRoot(env.blake3);
      bundle := NextBundle(env, hdr, db.kv);
      var h := if hdr.toHeight == 0 then height else hdr.toHeight;
      header := EternityHeader(
        HEADER_VERSION, Ascii(CHAIN_ID), h, hdr.round % TWO_32, hdr.timeUtc, lastBlockId, stateRoot, txRoot,
            ZERO_DIGEST,
        BundleHash(env, bundle), env.pub, Rewards.EpochOf(h), ZERO_DIGEST, ZERO_DIGEST, []);
    }

    /** buildEternityHeader, then the header list and the bounded cache. */
    method AppendHeader(raw: seq<Bytes>, hdr: RoundHeader)
      requires Valid()
      modifies this`lastBlockId, this`lastCommitRoot, this`lastCommitHeight, this`commitRootReady,
          this`eternityHeaders, this`commitFeed
      ensures Valid() && View() == AddHeader(env, old(View()), hdr, raw)
    {
      hide View, NextBundle, NextHeader, HeaderHash;
      if |env.pub| != 32 || |env.priv| != 64 {
        return;
      }
      var header, bundle := ComposeHeader(raw, hdr);
      SetLastCommit(header);
      PushRecord(header, CommitRecord(header.height, header.commitRoot, bundle));
    }

    method SetLastCommit(header: EternityHeader)
      requires Valid()
      modifies this`lastBlockId, this`lastCommitRoot, this`lastCommitHeight, this`commitRootReady
      ensures Valid()
      ensures View() == old(View()).(lastBlockId := HeaderHash(env, header), lastCommitRoot := header.commitRoot,
                                     lastCommitHeight := header.height, commitRootReady := true)
    {
      hide DB.View;
      lastBlockId := HeaderHash(env, header);
      lastCommitRoot, lastCommitHeight, commitRootReady := header.commitRoot, header.height, true;
    }

    method PushRecord(header: EternityHeader, rec: CommitRecord)
      requires Valid()
      modifies this`eternityHeaders, this`commitFeed
      ensures Valid()
      ensures View() == old(View()).(headers := old(View()).headers + [header], feed := PushFeed(old(View()).feed, rec))
    {
      hide DB.View;
      eternityHeaders := eternityHeaders + [header];
      if |commitFeed| >= FEED_LIMIT {
        commitFeed := commitFeed[1..];
      }
      commitFeed := commitFeed + [rec];
    }

    method EternityHeaderAt(h: nat) returns (r: Option<EternityHeader>)
      ensures r == HeaderAt(eternityHeaders, h)
    {
      assert eternityHeaders[..|eternityHeaders|] == eternityHeaders;
      var i := |eternityHeaders| - 1;
      while i >= 0
        invariant -1 <= i < |eternityHeaders|
        invariant HeaderAt(eternityHeaders[..i + 1], h) == HeaderAt(eternityHeaders, h)
      {
        assert eternityHeaders[..i + 1][..i] == eternityHeaders[..i];
        if eternityHeaders[i].height == h {
          return Some(eternityHeaders[i]);
        }
        i := i - 1;
      }
      return None;
    }

    method CommitBundleAt(h: nat) returns (r: Option<CommitBundle>)
      ensures r == BundleAt(commitFeed, h)
    {
      assert commitFeed[..|commitFeed|] == commitFeed;
      var i := |commitFeed| - 1;
      while i >= 0
        invariant -1 <= i < |commitFeed|
        invariant BundleAt(commitFeed[..i + 1], h) == BundleAt(commitFeed, h)
      {
        assert commitFeed[..i + 1][..i] == commitFeed[..i];
        if commitFeed[i].height == h {
          return Some(commitFeed[i].bundle);
        }
        i := i - 1;
      }
      return None;
    }

    method SupplyAtHeight(h: nat) returns (r: Option<SupplyState>)
      requires Valid()
      ensures r == SupplyAt(env, db.kv, supply, h)
    {
      if h == supply.lastHeight {
        return Some(supply);
      }
      var blob := db.GetKey(SupplyHistoryKey(h));
      if blob.None? {
        return None;
      }
      return env.parseSupply(blob.value);
    }

    /** The map is read in any order; the heights put the list back in order. */
    method SaveLedger() returns (led: SavedLedger)
      requires Valid()
      ensures Enumerates(led.receipts, receipts) && SortedBy(LessHeight, led.receipts)
      ensures led.version == 1 && led.height == |leaves| && led.rounds == rounds
      ensures led.lastCommittedHeight == lastCommittedHeight
    {
      var list: seq<Receipt> := [];
      var rest := receipts.Keys;
      while rest != {}
        invariant rest <= receipts.Keys
        invariant forall i :: 0 <= i < |list| ==>
                    list[i].txHash in receipts && list[i].txHash !in rest && receipts[list[i].txHash] == list[i]
        invariant forall i, j :: 0 <= i < j < |list| ==> list[i].txHash != list[j].txHash
        invariant forall k :: k in receipts && k !in rest ==> receipts[k] in list
        decreases |rest|
      {
        var k :| k in rest;
        list := list + [receipts[k]];
        rest := rest - {k};
      }
      LessHeightIsStrictWeak();
      var sorted := Sort(LessHeight, list);
      PermutationEnumerates(list, sorted, receipts);
      led := SavedLedger(1, |leaves|, lastCommittedHeight, sorted, rounds);
    }

    method LoadLedger(led: SavedLedger) returns (ghost sorted: seq<Receipt>)
      requires Valid()
      modifies this
      ensures Valid()
      ensures SortedBy(LessHeight, sorted) && multiset(sorted) == multiset(led.receipts)
      ensures View() == Loaded(env, old(View()), led, sorted)
    {
      hide View, ByHash, Jsons;
      LessHeightIsStrictWeak();
      var list := Sort(LessHeight, led.receipts);
      var byHash, encoded := IndexReceipts(env, list);
      InstallRounds(led);
      InstallReceipts(list, byHash, encoded);
      sorted := list;
    }

    method InstallRounds(led: SavedLedger)
      requires Valid()
      modifies this`lastCommittedHeight, this`rounds
      ensures Valid()
      ensures View() == old(View()).(lastCommittedHeight := led.lastCommittedHeight, rounds := led.rounds)
    {
      hide DB.View;
      lastCommittedHeight, rounds := led.lastCommittedHeight, led.rounds;
    }

    method InstallReceipts(list: seq<Receipt>, byHash: map<Bytes, Receipt>, encoded: seq<Bytes>)
      requires Valid() && forall k :: k in byHash ==> byHash[k].txHash == k
      modifies this`height, this`receipts, this`leaves, this`log
      ensures Valid()
      ensures View() == old(View()).(height := |list|, receipts := byHash, leaves := encoded, log := list)
    {
      hide DB.View;
      height, log := |list|, list;
      receipts, leaves := byHash, encoded;
    }
  }

  /** The loop of loadLedger: the map by hash and the re-encoded leaves. */
  method IndexReceipts(env: Env, list: seq<Receipt>) returns (receipts: map<Bytes, Receipt>, leaves: seq<Bytes>)
    ensures receipts == ByHash(list) && leaves == Jsons(env, list)
  {
    receipts, leaves := map[], [];
    for i := 0 to |list|
      invariant receipts == ByHash(list[..i])
      invariant |leaves| == i && forall j :: 0 <= j < i ==> leaves[j] == env.receiptJson(list[j])
    {
      assert list[..i + 1][..i] == list[..i];
      receipts := receipts[list[i].txHash := list[i]];
      leaves := leaves + [env.receiptJson(list[i])];
    }
    assert list[..|list|] == list;
  }

  lemma RoundAfterMint(env: Env, s: State, now: int)
    requires CanCommit(s)
    ensures var s1 := MintRound(env, s, |s.leaves|);
            && CanCommit(s1) && Slice(s1) == Slice(s) && NextRound(env, s1, now) == NextRound(env, s, now)
            && s1.leaves == s.leaves && s1.height == s.height
  {
    hide Root, Hex, Mint, PersistSupply;
  }

  lemma CommitUnfolds(env: Env, s: State, now: int)
    ensures var s0 := s.(height := |s.leaves|);
            Chain.CommitRound(env, s, now) ==
            if !CanCommit(s0) then s0 else
            var s1 := MintRound(env, s0, |s.leaves|);
            AddHeader(env, s1.(rounds := s1.rounds + [NextRound(env, s0, now)], lastCommittedHeight := |s.leaves|),
                      NextRound(env, s0, now), Slice(s0))
  {
    hide AddHeader, MintRound, Root, Hex;
  }

  lemma SameRound(env: Env, s: State, now: int)
    requires CanCommit(s)
    ensures var s0 := s.(height := |s.leaves|); CanCommit(s0) && NextRound(env, s0, now) == NextRound(env, s, now)
  {
    hide Root, Hex;
  }
}
