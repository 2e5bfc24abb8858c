/** Every run of the engine: rounds partition the receipt log, headers chain, and the log only grows. */
module Rounds {
  import opened Common
  import opened Text
  import opened Ledger
  import opened Merkle
  import opened StateRoot
  import opened Cbor
  import opened Chain

  // ---------- The log ----------

  function Jsons(env: Env, log: seq<Receipt>): (r: seq<Bytes>)
    ensures |r| == |log| && forall i :: 0 <= i < |log| ==> r[i] == env.receiptJson(log[i])
  {
    seq(|log|, i requires 0 <= i < |log| => env.receiptJson(log[i]))
  }

  /** The last receipt of each hash. */
  function ByHash(log: seq<Receipt>): (m: map<Bytes, Receipt>)
    ensures forall k :: k in m ==> m[k].txHash == k
  {
    if log == [] then map[] else ByHash(log[..|log| - 1])[log[|log| - 1].txHash := log[|log| - 1]]
  }

  ghost predicate LogInv(env: Env, s: State) {
    && s.height == |s.leaves|
    && s.leaves == Jsons(env, s.log)
    && s.receipts == ByHash(s.log)
    && forall i :: 0 <= i < |s.log| ==> s.log[i].height == i
  }

  // ---------- Rounds ----------

  function StartOf(rounds: seq<RoundHeader>, i: nat): nat
    requires i <= |rounds|
  {
    if i == 0 then 1 else rounds[i - 1].toHeight + 1
  }

  /**
   * Round i + 1 starts where the one before ended; its root is that of its own slice of the leaves, and it is signed as
   * it stands, the signature still empty, whenever there is a private key.
   */
  ghost predicate RoundFits(env: Env, s: State, i: nat)
    requires i < |s.rounds|
  {
    var r := s.rounds[i];
    && r.round == i + 1
    && r.fromHeight == StartOf(s.rounds, i) <= r.toHeight <= |s.leaves|
    && r.txCount == r.toHeight - r.fromHeight + 1
    && r.root == Hex(Root(env.sha256, s.leaves[r.fromHeight - 1..r.toHeight]))
    && r.signatureHex == if |env.priv| == 0 then [] else Hex(env.sign(r.(signatureHex := [])))
  }

  ghost predicate RoundsInv(env: Env, s: State) {
    && s.lastCommittedHeight == StartOf(s.rounds, |s.rounds|) - 1 <= |s.leaves|
    && forall i :: 0 <= i < |s.rounds| ==> RoundFits(env, s, i)
  }

  // ---------- Headers ----------

  function LinkBefore(env: Env, headers: seq<EternityHeader>, i: nat): Digest
    requires i <= |headers|
  {
    if i == 0 then ZERO_DIGEST else HeaderHash(env, headers[i - 1])
  }

  /** Header i belongs to round i, commits to the same slice, and carries the hash of the header before it. */
  ghost predicate HeaderFits(env: Env, s: State, i: nat)
    requires i < |s.headers| && i < |s.rounds| && s.rounds[i].toHeight <= |s.leaves|
    requires 1 <= s.rounds[i].fromHeight <= s.rounds[i].toHeight
  {
    var h, r := s.headers[i], s.rounds[i];
    && h.height == r.toHeight && h.round == r.round % TWO_32 && h.timeUtc == r.timeUtc
    && h.prevHash == LinkBefore(env, s.headers, i) && NodeFields(env, h)
    && h.txRoot == Root(env.blake3, s.leaves[r.fromHeight - 1..r.toHeight])
  }

  /** What every header of this node has in common. */
  ghost predicate NodeFields(env: Env, h: EternityHeader) {
    && h.version == 1 && h.chainId == Ascii("thomas-dev-1") && h.proposerPubKey == env.pub
    && h.emissionEpoch == h.height / 100 && h.extraData == []
    && h.receiptsRoot == h.feeRoot == h.consensusParamsHash == ZERO_DIGEST
  }

  /** The commit root the engine answers with is that of its last header; it has none before the first. */
  ghost predicate LatestFits(s: State) {
    && (s.commitRootReady <==> s.headers != [])
    && (s.headers != [] ==>
          var h := s.headers[|s.headers| - 1]; s.lastCommitRoot == h.commitRoot && s.lastCommitHeight == h.height)
  }

  ghost predicate HeadersInv(env: Env, s: State)
    requires RoundsInv(env, s)
  {
    && LatestFits(s)
    && |s.headers| == |s.rounds|
    && s.lastBlockId == LinkBefore(env, s.headers, |s.headers|)
    && forall i :: 0 <= i < |s.headers| ==> RoundFits(env, s, i) && HeaderFits(env, s, i)
  }

  ghost predicate Inv(env: Env, s: State) {
    LogInv(env, s) && RoundsInv(env, s) && (env.HasKeys() ==> HeadersInv(env, s))
  }

  // ---------- Storing a receipt ----------

  lemma RoundsFitLongerLog(env: Env, s: State, s': State)
    requires RoundsInv(env, s) && s'.rounds == s.rounds && s.leaves <= s'.leaves
    requires s'.lastCommittedHeight == s.lastCommittedHeight
    ensures RoundsInv(env, s')
  {
    hide Root, Hex;
    forall i | 0 <= i < |s.rounds| ensures RoundFits(env, s', i) {
      assert RoundFits(env, s, i);
      var r := s.rounds[i];
      assert s'.leaves[r.fromHeight - 1..r.toHeight] == s.leaves[r.fromHeight - 1..r.toHeight];
    }
  }

  lemma HeadersFitLongerLog(env: Env, s: State, s': State)
    requires RoundsInv(env, s) && HeadersInv(env, s) && RoundsInv(env, s')
    requires s'.rounds == s.rounds && s'.headers == s.headers && s'.lastBlockId == s.lastBlockId
            && s.leaves <= s'.leaves
    requires LatestFits(s')
    ensures HeadersInv(env, s')
  {
    hide Root, Hex, HeaderHash;
    forall i | 0 <= i < |s.headers| ensures RoundFits(env, s', i) && HeaderFits(env, s', i) {
      assert RoundFits(env, s, i) && HeaderFits(env, s, i);
      assert RoundFits(env, s', i);
      var r := s.rounds[i];
      assert s'.leaves[r.fromHeight - 1..r.toHeight] == s.leaves[r.fromHeight - 1..r.toHeight];
    }
  }

  lemma StoreKeepsLog(env: Env, s: State, t: TxTransfer, applied: bool, reason: string, now: int)
    requires LogInv(env, s)
    ensures var s' := StoreReceipt(env, s, t, applied, reason, now);
            LogInv(env, s') && s.leaves <= s'.leaves && s'.rounds == s.rounds && s'.headers == s.headers
            && s'.lastCommittedHeight == s.lastCommittedHeight && s'.lastBlockId == s.lastBlockId
            && (LatestFits(s) ==> LatestFits(s'))
  {
    hide Jsons, ByHash, TxHash, Status, LatestFits;
    var s' := StoreReceipt(env, s, t, applied, reason, now);
    OneMore(env, s.log, s'.log[|s.log|]);
    if LatestFits(s) {
      SameLatestFits(s, s');
    }
  }

  lemma OneMore(env: Env, log: seq<Receipt>, r: Receipt)
    ensures Jsons(env, log + [r]) == Jsons(env, log) + [env.receiptJson(r)]
    ensures ByHash(log + [r]) == ByHash(log)[r.txHash := r]
  {
    assert (log + [r])[..|log|] == log;
  }

  lemma SameLatestFits(s: State, s': State)
    requires LatestFits(s) && s'.headers == s.headers
    requires s'.commitRootReady == s.commitRootReady && s'.lastCommitRoot == s.lastCommitRoot
    requires s'.lastCommitHeight == s.lastCommitHeight
    ensures LatestFits(s')
  {
  }

  lemma StoreKeepsInv(env: Env, s: State, t: TxTransfer, applied: bool, reason: string, now: int)
    requires Inv(env, s)
    ensures Inv(env, StoreReceipt(env, s, t, applied, reason, now))
  {
    var s' := StoreReceipt(env, s, t, applied, reason, now);
    StoreKeepsLog(env, s, t, applied, reason, now);
    hide StoreReceipt, LogInv, RoundFits, HeaderFits;
    RoundsFitLongerLog(env, s, s');
    if env.HasKeys() {
      HeadersFitLongerLog(env, s, s');
    }
  }

  // ---------- Committing ----------

  /** A commit on a consistent log either does nothing or appends one round and, with keys, one header. */
  lemma CommitShape(env: Env, s: State, now: int)
    requires LogInv(env, s)
    ensures var s' := CommitRound(env, s, now);
            && s'.log == s.log && s'.leaves == s.leaves && s'.receipts == s.receipts && s'.height == s.height
            && s'.accounts == s.accounts
            && (!CanCommit(s) ==> s' == s)
            && (CanCommit(s) ==>
                  && s'.rounds == s.rounds + [NextRound(env, s, now)]
                  && s'.lastCommittedHeight == |s.leaves|
                  && s'.supply == Mint(env, s.supply, |s.leaves|)
                  && s'.kv == PersistSupply(env, s.kv, |s.leaves|, s'.supply)
                  && s'.lastMinted == env.blockMintAt(|s.leaves|) && s'.lastEmissionEpoch == |s.leaves| / 100
                  && (!env.HasKeys() ==> s'.headers == s.headers && s'.feed == s.feed))
  {
    hide Root, Hex, Mint, PersistSupply, NextHeader, NextBundle, PushFeed, HeaderHash, StateRootOf;
    assert s.(height := |s.leaves|) == s;
  }

  lemma CommitAddsHeader(env: Env, s: State, now: int)
    requires LogInv(env, s) && CanCommit(s) && env.HasKeys()
    ensures var s' := CommitRound(env, s, now);
            var bundle := NextBundle(env, NextRound(env, s, now), s'.kv);
            var header := NextHeader(env, s, NextRound(env, s, now), Slice(s), bundle);
            && s'.headers == s.headers + [header] && s'.lastBlockId == HeaderHash(env, header)
            && LatestFits(s') && NodeFields(env, header)
            && s'.feed == PushFeed(s.feed, CommitRecord(header.height, header.commitRoot, bundle))
  {
    hide Root, Hex, Mint, PersistSupply, PushFeed, HeaderHash, StateRootOf, ScoresRoot, BundleHash;
    assert s.(height := |s.leaves|) == s;
  }

  lemma AppendRound(env: Env, s: State, s': State, r: RoundHeader)
    requires RoundsInv(env, s) && CanCommit(s)
    requires s'.leaves == s.leaves && s'.rounds == s.rounds + [r] && s'.lastCommittedHeight == |s.leaves|
    requires r.round == |s.rounds| + 1 && r.fromHeight == s.lastCommittedHeight + 1 && r.toHeight == |s.leaves|
    requires r.txCount == |Slice(s)| && r.root == Hex(Root(env.sha256, Slice(s)))
    requires r.signatureHex == if |env.priv| == 0 then [] else Hex(env.sign(r.(signatureHex := [])))
    ensures RoundsInv(env, s')
  {
    hide Root, Hex;
    assert Slice(s) == s.leaves[r.fromHeight - 1..r.toHeight];
    forall i | 0 <= i < |s'.rounds| ensures RoundFits(env, s', i) {
      if i < |s.rounds| {
        assert RoundFits(env, s, i);
        assert s'.rounds[i] == s.rounds[i];
        assert StartOf(s'.rounds, i) == StartOf(s.rounds, i);
      } else {
        assert s'.rounds[i] == r && StartOf(s'.rounds, i) == StartOf(s.rounds, i);
      }
    }
  }

  lemma CommitKeepsRounds(env: Env, s: State, now: int)
    requires LogInv(env, s) && RoundsInv(env, s)
    ensures RoundsInv(env, CommitRound(env, s, now))
  {
    CommitShape(env, s, now);
    hide CommitRound, Root, Hex, Mint, PersistSupply;
    if CanCommit(s) {
      hide RoundsInv;
      AppendRound(env, s, CommitRound(env, s, now), NextRound(env, s, now));
    }
  }

  lemma AppendHeader(env: Env, s: State, s': State, r: RoundHeader, h: EternityHeader)
    requires RoundsInv(env, s) && CanCommit(s) && HeadersInv(env, s) && RoundsInv(env, s')
    requires s'.leaves == s.leaves && s'.rounds == s.rounds + [r] && s'.headers == s.headers + [h]
    requires r.fromHeight == s.lastCommittedHeight + 1 && r.toHeight == |s.leaves|
    requires s'.lastBlockId == HeaderHash(env, h) && h.prevHash == s.lastBlockId
    requires h.height == r.toHeight && h.round == r.round % TWO_32 && h.timeUtc == r.timeUtc
    requires h.txRoot == Root(env.blake3, Slice(s)) && NodeFields(env, h) && LatestFits(s')
    ensures HeadersInv(env, s')
  {
    hide Root, Hex, HeaderHash;
    assert Slice(s) == s.leaves[r.fromHeight - 1..r.toHeight];
    forall i | 0 <= i < |s'.headers| ensures RoundFits(env, s', i) && HeaderFits(env, s', i) {
      assert RoundFits(env, s', i);
      if i < |s.headers| {
        assert HeaderFits(env, s, i);
        assert s'.headers[i] == s.headers[i] && s'.rounds[i] == s.rounds[i];
        assert LinkBefore(env, s'.headers, i) == LinkBefore(env, s.headers, i);
      } else {
        assert s'.headers[i] == h && s'.rounds[i] == r;
      }
    }
  }

  lemma CommitKeepsHeaders(env: Env, s: State, now: int)
    requires LogInv(env, s) && RoundsInv(env, s) && env.HasKeys() && HeadersInv(env, s)
    requires RoundsInv(env, CommitRound(env, s, now))
    ensures HeadersInv(env, CommitRound(env, s, now))
  {
    CommitShape(env, s, now);
    if CanCommit(s) {
      CommitAddsHeader(env, s, now);
      hide CommitRound, Root, Hex, Mint, PersistSupply, HeaderHash, StateRootOf, NextBundle, BundleHash, RoundsInv,
          HeadersInv;
      var s' := CommitRound(env, s, now);
      var hdr := NextRound(env, s, now);
      AppendHeader(env, s, s', hdr, NextHeader(env, s, hdr, Slice(s), NextBundle(env, hdr, s'.kv)));
    }
  }

  lemma StepKeepsInv(env: Env, feeReceiver: Bytes, s: State, e: Event)
    requires Inv(env, s)
    ensures Inv(env, Step(env, feeReceiver, s, e))
  {
    hide NodeFields, HeaderHash, Root, Hex;
    var s' := Step(env, feeReceiver, s, e);
    match e
    case Store(t, applied, reason, now) => StoreKeepsInv(env, s, t, applied, reason, now);
    case Commit(now) =>
      CommitKeepsRounds(env, s, now);
      CommitShape(env, s, now);
      if env.HasKeys() {
        CommitKeepsHeaders(env, s, now);
      }
    case _ =>
      RoundsFitLongerLog(env, s, s');
      if env.HasKeys() {
        HeadersFitLongerLog(env, s, s');
      }
  }

  /** The invariant holds after every run from an empty ledger. */
  lemma {:induction false} RunKeepsInv(env: Env, feeReceiver: Bytes, accounts: Accounts, events: seq<Event>)
    ensures Inv(env, Run(env, feeReceiver, Genesis(accounts), events))
  {
    if events != [] {
      var n := |events| - 1;
      RunKeepsInv(env, feeReceiver, accounts, events[..n]);
      StepKeepsInv(env, feeReceiver, Run(env, feeReceiver, Genesis(accounts), events[..n]), events[n]);
    }
  }

  // ---------- What the invariant says ----------

  predicate InRound(r: RoundHeader, leaf: nat) {
    r.fromHeight - 1 <= leaf < r.toHeight
  }

  lemma {:induction false} RoundsAscend(env: Env, s: State, i: nat, j: nat)
    requires RoundsInv(env, s) && i < j < |s.rounds|
    ensures s.rounds[i].toHeight < s.rounds[j].fromHeight
    decreases j
  {
    hide Root, Hex;
    assert RoundFits(env, s, j);
    if i < j - 1 {
      RoundsAscend(env, s, i, j - 1);
      assert RoundFits(env, s, j - 1);
    }
  }

  lemma {:induction false} SomeRoundHolds(env: Env, s: State, n: nat, leaf: nat) returns (i: nat)
    requires RoundsInv(env, s) && n <= |s.rounds| && leaf < StartOf(s.rounds, n) - 1
    ensures i < n && InRound(s.rounds[i], leaf)
  {
    hide Root, Hex;
    assert RoundFits(env, s, n - 1);
    if s.rounds[n - 1].fromHeight - 1 <= leaf {
      i := n - 1;
    } else {
      i := SomeRoundHolds(env, s, n - 1, leaf);
    }
  }

  /** Every committed leaf lies in exactly one round, and no other leaf in any. */
  lemma RoundsPartitionLog(env: Env, feeReceiver: Bytes, accounts: Accounts, events: seq<Event>, leaf: nat)
    ensures var s := Run(env, feeReceiver, Genesis(accounts), events);
            && s.height == |s.leaves| == |s.log|
            && (leaf < s.lastCommittedHeight <==> exists i :: 0 <= i < |s.rounds| && InRound(s.rounds[i], leaf))
            && (forall i, j :: 0 <= i < j < |s.rounds| && InRound(s.rounds[i], leaf) ==> !InRound(s.rounds[j], leaf))
  {
    hide Root, Hex, Run, HeadersInv;
    RunKeepsInv(env, feeReceiver, accounts, events);
    var s := Run(env, feeReceiver, Genesis(accounts), events);
    if leaf < s.lastCommittedHeight {
      var i := SomeRoundHolds(env, s, |s.rounds|, leaf);
    }
    forall i, j | 0 <= i < j < |s.rounds| && InRound(s.rounds[i], leaf) ensures !InRound(s.rounds[j], leaf) {
      RoundsAscend(env, s, i, j);
    }
    forall i | 0 <= i < |s.rounds| && InRound(s.rounds[i], leaf) ensures leaf < s.lastCommittedHeight {
      if i < |s.rounds| - 1 {
        RoundsAscend(env, s, i, |s.rounds| - 1);
      }
      assert RoundFits(env, s, |s.rounds| - 1);
    }
  }

  // ---------- What each event leaves in the log and the rounds ----------

  /** The receipts asked for, applied and rejected ones alike, in order. */
  function Stores(events: seq<Event>): (r: seq<Event>)
    ensures forall e :: e in r ==> e.Store?
  {
    if events == [] then [] else
    var k := |events| - 1;
    if events[k].Store? then Stores(events[..k]) + [events[k]] else Stores(events[..k])
  }

  /** The receipt carries the terms of its transfer, the hash of its JSON, the outcome and the time. */
  ghost predicate Records(env: Env, r: Receipt, e: Event)
    requires e.Store?
  {
    && r.txHash == Hex(env.sha256(env.transferJson(e.t)))
    && r.from == e.t.from && r.to == e.t.to && r.amount == e.t.amount && r.fee == e.t.fee && r.nonce == e.t.nonce
    && r.status == (if e.applied then "applied" else "rejected:" + e.reason) && r.timeUtc == e.storedAt
  }

  lemma StoreRecords(env: Env, s: State, t: TxTransfer, applied: bool, reason: string, now: int)
    ensures var s' := StoreReceipt(env, s, t, applied, reason, now);
            |s'.log| == |s.log| + 1 && s.log <= s'.log && Records(env, s'.log[|s.log|], Store(t, applied, reason, now))
  {
  }

  ghost predicate LogRecords(env: Env, log: seq<Receipt>, stores: seq<Event>)
    requires forall e :: e in stores ==> e.Store?
  {
    |log| == |stores| && forall k :: 0 <= k < |log| ==> stores[k] in stores && Records(env, log[k], stores[k])
  }

  lemma LogRecordsOneMore(env: Env, log: seq<Receipt>, log': seq<Receipt>, stores: seq<Event>, e: Event)
    requires (forall x :: x in stores ==> x.Store?) && e.Store? && LogRecords(env, log, stores)
    requires |log'| == |log| + 1 && log <= log' && Records(env, log'[|log|], e)
    ensures LogRecords(env, log', stores + [e])
  {
    hide Records;
    var all := stores + [e];
    forall k | 0 <= k < |log'| ensures all[k] in all && Records(env, log'[k], all[k]) {
      if k < |log| {
        assert all[k] == stores[k] && log'[k] == log[k];
      }
    }
  }

  lemma StepRecords(env: Env, feeReceiver: Bytes, s: State, e: Event, stores: seq<Event>)
    requires Inv(env, s) && (forall x :: x in stores ==> x.Store?) && LogRecords(env, s.log, stores)
    ensures LogRecords(env, Step(env, feeReceiver, s, e).log, if e.Store? then stores + [e] else stores)
  {
    hide Records, LogRecords, CommitRound, StoreReceipt, HeadersInv, RoundsInv, LogInv;
    if e.Store? {
      StoreRecords(env, s, e.t, e.applied, e.reason, e.storedAt);
      LogRecordsOneMore(env, s.log, Step(env, feeReceiver, s, e).log, stores, e);
    } else if e.Commit? {
      CommitShape(env, s, e.committedAt);
    }
  }

  /** The k-th receipt of the log records the k-th receipt asked for, and the k-th leaf is its JSON. */
  lemma {:induction false} LogFollowsStores(env: Env, feeReceiver: Bytes, accounts: Accounts, events: seq<Event>)
    ensures var s := Run(env, feeReceiver, Genesis(accounts), events);
            LogRecords(env, s.log, Stores(events)) && s.leaves == Jsons(env, s.log)
  {
    RunKeepsInv(env, feeReceiver, accounts, events);
    LeavesAreJsons(env, Run(env, feeReceiver, Genesis(accounts), events));
    hide Inv, Step, LogRecords, Jsons;
    if events == [] {
      NoRecords(env);
    } else {
      var n := |events| - 1;
      var s := Run(env, feeReceiver, Genesis(accounts), events[..n]);
      LogFollowsStores(env, feeReceiver, accounts, events[..n]);
      RunKeepsInv(env, feeReceiver, accounts, events[..n]);
      StepRecords(env, feeReceiver, s, events[n], Stores(events[..n]));
    }
  }

  lemma LeavesAreJsons(env: Env, s: State)
    requires LogInv(env, s)
    ensures s.leaves == Jsons(env, s.log)
  {
  }

  lemma NoRecords(env: Env)
    ensures LogRecords(env, [], [])
  {
  }

  /** The times of the commits that found a receipt pending, in order. */
  ghost function CommitTimes(env: Env, feeReceiver: Bytes, accounts: Accounts, events: seq<Event>): seq<int> {
    if events == [] then [] else
    var n := |events| - 1;
    var s := Run(env, feeReceiver, Genesis(accounts), events[..n]);
    var before := CommitTimes(env, feeReceiver, accounts, events[..n]);
    if events[n].Commit? && s.lastCommittedHeight < |s.leaves| then before + [events[n].committedAt] else before
  }

  ghost predicate Stamped(s: State, times: seq<int>) {
    |s.rounds| == |times| && forall i :: 0 <= i < |times| ==> s.rounds[i].timeUtc == times[i]
  }

  lemma StepStamps(env: Env, feeReceiver: Bytes, s: State, e: Event, times: seq<int>)
    requires Inv(env, s) && Stamped(s, times)
    ensures Stamped(Step(env, feeReceiver, s, e),
                    if e.Commit? && s.lastCommittedHeight < |s.leaves| then times + [e.committedAt] else times)
  {
    hide Inv, CommitRound, Stamped;
    if e.Commit? {
      CommitStamps(env, s, e.committedAt, times);
    } else {
      SameRoundsSameStamps(s, Step(env, feeReceiver, s, e), times);
    }
  }

  lemma CommitStamps(env: Env, s: State, now: int, times: seq<int>)
    requires Inv(env, s) && Stamped(s, times)
    ensures Stamped(CommitRound(env, s, now), if s.lastCommittedHeight < |s.leaves| then times + [now] else times)
  {
    hide HeadersInv, RoundsInv, CommitRound, NextRound;
    CommitShape(env, s, now);
    if CanCommit(s) {
      NextRoundTime(env, s, now);
    }
  }

  lemma SameRoundsSameStamps(s: State, s': State, times: seq<int>)
    requires Stamped(s, times) && s'.rounds == s.rounds
    ensures Stamped(s', times)
  {
  }

  /** There is one round for each such commit, stamped with its time. */
  lemma {:induction false} RoundTimes(env: Env, feeReceiver: Bytes, accounts: Accounts, events: seq<Event>)
    ensures Stamped(Run(env, feeReceiver, Genesis(accounts), events), CommitTimes(env, feeReceiver, accounts, events))
  {
    if events != [] {
      hide Inv, Step, Stamped;
      var n := |events| - 1;
      RoundTimes(env, feeReceiver, accounts, events[..n]);
      RunKeepsInv(env, feeReceiver, accounts, events[..n]);
      StepStamps(env, feeReceiver, Run(env, feeReceiver, Genesis(accounts), events[..n]), events[n],
                 CommitTimes(env, feeReceiver, accounts, events[..n]));
    }
  }

  lemma NextRoundTime(env: Env, s: State, now: int)
    requires CanCommit(s)
    ensures NextRound(env, s, now).timeUtc == now
  {
    hide Root, Hex;
  }

  /** A step only appends to the log, the rounds and the headers. */
  lemma StepAppends(env: Env, feeReceiver: Bytes, s: State, e: Event)
    requires Inv(env, s)
    ensures var s' := Step(env, feeReceiver, s, e);
            s.log <= s'.log && s.leaves <= s'.leaves && s.rounds <= s'.rounds && s.headers <= s'.headers
  {
    if e.Commit? {
      CommitShape(env, s, e.committedAt);
      if CanCommit(s) && env.HasKeys() {
        CommitAddsHeader(env, s, e.committedAt);
      }
    }
  }

  /**
   * The past never changes: whatever happens later, each earlier round and header is still there and the round's root
   * is still the Merkle root of the same slice of the log.
   */
  lemma PastRoundsStay(env: Env, feeReceiver: Bytes, accounts: Accounts, events: seq<Event>, n: nat, i: nat)
    requires n <= |events|
    requires i < |Run(env, feeReceiver, Genesis(accounts), events[..n]).rounds|
    ensures var early, late := Run(env, feeReceiver, Genesis(accounts), events[..n]),
            Run(env, feeReceiver, Genesis(accounts), events);
            && early.rounds <= late.rounds && early.headers <= late.headers && early.leaves <= late.leaves
            && RoundFits(env, late, i)
            && late.rounds[i] == early.rounds[i]
  {
    RunKeepsInv(env, feeReceiver, accounts, events);
    PrefixOfRun(env, feeReceiver, accounts, events, n);
  }

  lemma {:induction false} PrefixOfRun(env: Env, feeReceiver: Bytes, accounts: Accounts, events: seq<Event>, n: nat)
    requires n <= |events|
    ensures var early, late := Run(env, feeReceiver, Genesis(accounts), events[..n]),
            Run(env, feeReceiver, Genesis(accounts), events);
            early.rounds <= late.rounds && early.headers <= late.headers && early.leaves <= late.leaves
    decreases |events|
  {
    hide Inv, Step;
    if n == |events| {
      assert events[..n] == events;
    } else {
      var k := |events| - 1;
      assert events[..k][..n] == events[..n];
      PrefixOfRun(env, feeReceiver, accounts, events[..k], n);
      RunKeepsInv(env, feeReceiver, accounts, events[..k]);
      StepAppends(env, feeReceiver, Run(env, feeReceiver, Genesis(accounts), events[..k]), events[k]);
    }
  }

  // ---------- The header chain ----------

  /** Each header carries the hash of the one before it, the first the zero hash. */
  ghost predicate Linked(env: Env, headers: seq<EternityHeader>) {
    forall i :: 0 <= i < |headers| ==> headers[i].prevHash == LinkBefore(env, headers, i)
  }

  lemma EmittedHeadersLinked(env: Env, feeReceiver: Bytes, accounts: Accounts, events: seq<Event>)
    requires env.HasKeys()
    ensures var s := Run(env, feeReceiver, Genesis(accounts), events);
            && Linked(env, s.headers) && |s.headers| == |s.rounds|
            && s.lastBlockId == LinkBefore(env, s.headers, |s.headers|)
  {
    RunKeepsInv(env, feeReceiver, accounts, events);
    var s := Run(env, feeReceiver, Genesis(accounts), events);
    forall i | 0 <= i < |s.headers| ensures s.headers[i].prevHash == LinkBefore(env, s.headers, i) {
      assert RoundFits(env, s, i) && HeaderFits(env, s, i);
    }
  }

  ghost function HeaderInputs(env: Env, headers: seq<EternityHeader>): set<Bytes> {
    set h | h in headers :: env.cbor(HeaderItem(h))
  }

  lemma HeaderItemInjective(a: EternityHeader, b: EternityHeader)
    requires HeaderItem(a) == HeaderItem(b)
    ensures a == b
  {
    var x, y := HeaderItem(a).items, HeaderItem(b).items;
    assert x[0] == y[0] && x[1] == y[1] && x[2] == y[2] && x[3] == y[3] && x[4] == y[4];
    assert x[5] == y[5] && x[6] == y[6] && x[7] == y[7] && x[8] == y[8] && x[9] == y[9];
    assert x[10] == y[10] && x[11] == y[11] && x[12] == y[12] && x[13] == y[13] && x[14] == y[14];
  }

  lemma SameHashSameHeader(env: Env, a: EternityHeader, b: EternityHeader, s: seq<EternityHeader>,
                           t: seq<EternityHeader>)
    requires Injective(env.cbor) && HeaderHash(env, a) == HeaderHash(env, b) && a in s && b in t
    ensures a == b || Collision(env.blake3, HeaderInputs(env, s), HeaderInputs(env, t))
  {
    var x, y := env.cbor(HeaderItem(a)), env.cbor(HeaderItem(b));
    if x == y {
      HeaderItemInjective(a, b);
    } else {
      CollisionIn(env.blake3, x, y, HeaderInputs(env, s), HeaderInputs(env, t));
    }
  }

  /** Some header of a chain hashes to all zeroes, the value that marks the start of a chain. */
  ghost predicate HashesToZero(env: Env, headers: seq<EternityHeader>) {
    exists h :: h in headers && HeaderHash(env, h) == ZERO_DIGEST
  }

  /** Equal, or a collision between the encoded headers, or, for different lengths only, a header hashing to zero. */
  ghost predicate SameChain(env: Env, a: seq<EternityHeader>, b: seq<EternityHeader>) {
    || a == b
    || Collision(env.blake3, HeaderInputs(env, a), HeaderInputs(env, b))
    || (|a| != |b| && (HashesToZero(env, a) || HashesToZero(env, b)))
  }

  /** The last block ID commits to the whole chain: linked chains that end in one ID are the same chain. */
  lemma {:induction false} LastBlockIdBindsChain(env: Env, a: seq<EternityHeader>, b: seq<EternityHeader>)
    requires Injective(env.cbor) && Linked(env, a) && Linked(env, b)
    requires LinkBefore(env, a, |a|) == LinkBefore(env, b, |b|)
    ensures SameChain(env, a, b)
    decreases |a|
  {
    hide *;
    if a != [] && b != [] {
      SameIdSameLast(env, a, b);
      if !SameChain(env, a, b) {
        LinkedPrefix(env, a);
        LinkedPrefix(env, b);
        LastBlockIdBindsChain(env, a[..|a| - 1], b[..|b| - 1]);
        LongerChains(env, a, b);
      }
    } else {
      EmptyChain(env, a, b);
    }
  }

  lemma SameIdSameLast(env: Env, a: seq<EternityHeader>, b: seq<EternityHeader>)
    requires Injective(env.cbor) && a != [] && b != [] && LinkBefore(env, a, |a|) == LinkBefore(env, b, |b|)
    ensures a[|a| - 1] == b[|b| - 1] || SameChain(env, a, b)
  {
    hide HeaderHash, Collision, HeaderInputs, HashesToZero, Injective;
    SameHashSameHeader(env, a[|a| - 1], b[|b| - 1], a, b);
  }

  lemma EmptyChain(env: Env, a: seq<EternityHeader>, b: seq<EternityHeader>)
    requires (a == [] || b == []) && LinkBefore(env, a, |a|) == LinkBefore(env, b, |b|)
    ensures SameChain(env, a, b)
  {
    hide HeaderHash, Collision;
    if a != [] {
      assert a[|a| - 1] in a;
    } else if b != [] {
      assert b[|b| - 1] in b;
    }
  }

  lemma LongerChains(env: Env, a: seq<EternityHeader>, b: seq<EternityHeader>)
    requires a != [] && b != [] && a[|a| - 1] == b[|b| - 1] && SameChain(env, a[..|a| - 1], b[..|b| - 1])
    ensures SameChain(env, a, b)
  {
    hide Collision, HashesToZero, HeaderInputs;
    ShorterChains(env, a, b);
    assert a == a[..|a| - 1] + [a[|a| - 1]] && b == b[..|b| - 1] + [b[|b| - 1]];
  }

  lemma LinkedPrefix(env: Env, a: seq<EternityHeader>)
    requires Linked(env, a) && a != []
    ensures Linked(env, a[..|a| - 1]) && LinkBefore(env, a[..|a| - 1], |a| - 1) == a[|a| - 1].prevHash
  {
    hide HeaderHash;
    var p := a[..|a| - 1];
    forall i | 0 <= i < |p| ensures p[i].prevHash == LinkBefore(env, p, i) {
      assert a[i].prevHash == LinkBefore(env, a, i);
    }
  }

  lemma ShorterChains(env: Env, a: seq<EternityHeader>, b: seq<EternityHeader>)
    requires a != [] && b != []
    ensures var p, q := a[..|a| - 1], b[..|b| - 1];
            && (Collision(env.blake3, HeaderInputs(env, p), HeaderInputs(env, q))
                ==> Collision(env.blake3, HeaderInputs(env, a), HeaderInputs(env, b)))
            && (HashesToZero(env, p) ==> HashesToZero(env, a))
            && (HashesToZero(env, q) ==> HashesToZero(env, b))
  {
    hide HeaderHash;
    var p, q := a[..|a| - 1], b[..|b| - 1];
    assert forall h :: h in p ==> h in a;
    assert forall h :: h in q ==> h in b;
    if Collision(env.blake3, HeaderInputs(env, p), HeaderInputs(env, q)) {
      CollisionGrows(env.blake3, HeaderInputs(env, p), HeaderInputs(env, q), HeaderInputs(env, a),
          HeaderInputs(env, b));
    }
  }

  // ---------- The committed log ----------

  ghost predicate JsonInjective(env: Env) {
    forall a, b {:trigger env.receiptJson(a), env.receiptJson(b)} ::
      env.receiptJson(a) == env.receiptJson(b) ==> a == b
  }

  /** The bytes hashed for one round's slice of two leaf lists collide. */
  ghost predicate SlicesCollide(H: Hasher, a: seq<Bytes>, b: seq<Bytes>, r: RoundHeader) {
    && 1 <= r.fromHeight <= r.toHeight <= |a| && r.toHeight <= |b|
    && Collision(H, RootInputs(H, a[r.fromHeight - 1..r.toHeight]), RootInputs(H, b[r.fromHeight - 1..r.toHeight]))
  }

  ghost predicate RootsCollide(H: Hasher, a: seq<Bytes>, b: seq<Bytes>, rounds: seq<RoundHeader>) {
    exists k :: 0 <= k < |rounds| && SlicesCollide(H, a, b, rounds[k])
  }

  /** Slices with one root hold the same leaves or collide. */
  lemma SlicesBind(H: Hasher, a: seq<Bytes>, b: seq<Bytes>, r: RoundHeader, leaf: nat)
    requires 1 <= r.fromHeight <= r.toHeight <= |a| && r.toHeight <= |b| && InRound(r, leaf)
    requires Root(H, a[r.fromHeight - 1..r.toHeight]) == Root(H, b[r.fromHeight - 1..r.toHeight])
    ensures SlicesCollide(H, a, b, r) || a[leaf] == b[leaf]
  {
    hide Root, Collision, RootInputs;
    var from, to := r.fromHeight - 1, r.toHeight;
    RootBindsEqualLengths(H, a[from..to], b[from..to]);
    if a[from..to] == b[from..to] {
      assert a[from..to][leaf - from] == b[from..to][leaf - from];
    }
  }

  lemma SameHeadersSameBounds(env: Env, s: State, t: State, i: nat)
    requires Inv(env, s) && Inv(env, t) && env.HasKeys() && s.headers == t.headers && i < |s.rounds|
    ensures i < |t.rounds| && s.rounds[i].toHeight == t.rounds[i].toHeight
    ensures s.rounds[i].fromHeight == t.rounds[i].fromHeight
    ensures 1 <= s.rounds[i].fromHeight <= s.rounds[i].toHeight <= |s.leaves| && s.rounds[i].toHeight <= |t.leaves|
  {
    hide HeaderHash, Root, Hex;
    assert RoundFits(env, s, i) && HeaderFits(env, s, i) && RoundFits(env, t, i) && HeaderFits(env, t, i);
    if i > 0 {
      assert RoundFits(env, s, i - 1) && HeaderFits(env, s, i - 1);
      assert RoundFits(env, t, i - 1) && HeaderFits(env, t, i - 1);
    }
  }

  lemma SameHeadersSameLeaf(env: Env, s: State, t: State, i: nat, leaf: nat)
    requires Inv(env, s) && Inv(env, t) && env.HasKeys() && s.headers == t.headers
    requires i < |s.rounds| && InRound(s.rounds[i], leaf)
    ensures leaf < |s.leaves| && leaf < |t.leaves|
    ensures SlicesCollide(env.blake3, s.leaves, t.leaves, s.rounds[i]) || s.leaves[leaf] == t.leaves[leaf]
  {
    hide HeaderHash, Root, Hex, SlicesCollide;
    SameHeadersSameBounds(env, s, t, i);
    assert RoundFits(env, s, i) && HeaderFits(env, s, i) && RoundFits(env, t, i) && HeaderFits(env, t, i);
    hide LogInv, RoundsInv, HeadersInv, RoundFits, LinkBefore;
    SlicesBind(env.blake3, s.leaves, t.leaves, s.rounds[i], leaf);
  }

  lemma SameHeadersSameLeaves(env: Env, s: State, t: State)
    requires Inv(env, s) && Inv(env, t) && env.HasKeys() && s.headers == t.headers
    requires !RootsCollide(env.blake3, s.leaves, t.leaves, s.rounds)
    requires s.lastCommittedHeight <= |s.leaves| && s.lastCommittedHeight <= |t.leaves|
    ensures forall leaf :: 0 <= leaf < s.lastCommittedHeight ==> s.leaves[leaf] == t.leaves[leaf]
  {
    hide RoundFits, HeadersInv, LogInv, SlicesCollide;
    forall leaf | 0 <= leaf < s.lastCommittedHeight ensures s.leaves[leaf] == t.leaves[leaf] {
      var i := SomeRoundHolds(env, s, |s.rounds|, leaf);
      SameHeadersSameLeaf(env, s, t, i, leaf);
    }
  }

  lemma SameHeadersSameCommitted(env: Env, s: State, t: State)
    requires Inv(env, s) && Inv(env, t) && env.HasKeys() && s.headers == t.headers
    ensures s.lastCommittedHeight == t.lastCommittedHeight
    ensures s.lastCommittedHeight <= |s.leaves| && s.lastCommittedHeight <= |t.leaves|
  {
    hide RoundFits, HeaderFits, LogInv;
    if s.rounds != [] {
      SameHeadersSameBounds(env, s, t, |s.rounds| - 1);
    }
  }

  /** Equal headers stand for equal committed leaves, unless the leaves of some round collide. */
  lemma SameHeadersSameLog(env: Env, s: State, t: State)
    requires Inv(env, s) && Inv(env, t) && env.HasKeys() && s.headers == t.headers
    ensures s.lastCommittedHeight == t.lastCommittedHeight <= |s.log| && t.lastCommittedHeight <= |t.log|
    ensures RootsCollide(env.blake3, s.leaves, t.leaves, s.rounds)
            || s.leaves[..s.lastCommittedHeight] == t.leaves[..s.lastCommittedHeight]
    ensures RootsCollide(env.blake3, s.leaves, t.leaves, s.rounds)
            || (JsonInjective(env) ==> s.log[..s.lastCommittedHeight] == t.log[..s.lastCommittedHeight])
  {
    hide RoundsInv, HeadersInv, RootsCollide, JsonInjective;
    SameHeadersSameCommitted(env, s, t);
    if !RootsCollide(env.blake3, s.leaves, t.leaves, s.rounds) {
      SameHeadersSameLeaves(env, s, t);
      if JsonInjective(env) {
        SameLeavesSameReceipts(env, s, t, s.lastCommittedHeight);
      }
    }
  }

  lemma SameLeavesSameReceipts(env: Env, s: State, t: State, c: nat)
    requires LogInv(env, s) && LogInv(env, t) && JsonInjective(env)
    requires c <= |s.log| && c <= |t.log| && forall i :: 0 <= i < c ==> s.leaves[i] == t.leaves[i]
    ensures s.log[..c] == t.log[..c]
  {
    forall i | 0 <= i < c ensures s.log[i] == t.log[i] {
      assert env.receiptJson(s.log[i]) == s.leaves[i] == t.leaves[i] == env.receiptJson(t.log[i]);
    }
  }

  /**
   * The last block ID commits to the whole committed log: any two runs that end in one ID have the same headers, the
   * same committed leaves and, the receipt JSON being injective, the same committed receipts, unless a collision shows
   * among the encoded headers or the leaves of a round, or, for chains of different lengths, a header hashes to zero.
   */
  lemma LastBlockIdBindsLog(env: Env, feeReceiver: Bytes, accounts: Accounts, events: seq<Event>,
                            feeReceiver': Bytes, accounts': Accounts, events': seq<Event>)
    requires env.HasKeys() && Injective(env.cbor)
    requires Run(env, feeReceiver, Genesis(accounts), events).lastBlockId
             == Run(env, feeReceiver', Genesis(accounts'), events').lastBlockId
    ensures var s := Run(env, feeReceiver, Genesis(accounts), events);
            var t := Run(env, feeReceiver', Genesis(accounts'), events');
            var c := s.lastCommittedHeight;
            || (&& s.headers == t.headers && t.lastCommittedHeight == c <= |s.log| && c <= |t.log|
                && c <= |s.leaves| && c <= |t.leaves| && s.leaves[..c] == t.leaves[..c]
                && (JsonInjective(env) ==> s.log[..c] == t.log[..c]))
            || Collision(env.blake3, HeaderInputs(env, s.headers), HeaderInputs(env, t.headers))
            || RootsCollide(env.blake3, s.leaves, t.leaves, s.rounds)
            || (|s.headers| != |t.headers| && (HashesToZero(env, s.headers) || HashesToZero(env, t.headers)))
  {
    hide Run, Linked, LinkBefore, RoundsInv, HeadersInv, Collision, HashesToZero, RootsCollide;
    var s := Run(env, feeReceiver, Genesis(accounts), events);
    var t := Run(env, feeReceiver', Genesis(accounts'), events');
    RunKeepsInv(env, feeReceiver, accounts, events);
    RunKeepsInv(env, feeReceiver', accounts', events');
    EmittedHeadersLinked(env, feeReceiver, accounts, events);
    EmittedHeadersLinked(env, feeReceiver', accounts', events');
    LastBlockIdBindsChain(env, s.headers, t.headers);
    if s.headers == t.headers {
      SameHeadersSameLog(env, s, t);
    }
  }
}
