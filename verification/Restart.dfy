/**
 * A restart of the engine: what a new engine knows after loading the saved ledger, and which invariants it starts from.
 */
module Restart {
  import opened Common
  import opened Text
  import opened Sorting
  import opened Ledger
  import opened Merkle
  import opened Chain
  import opened Rounds
  import opened SaveLoad
  import opened Router
  import RouterRuns

  /** A new engine over some accounts, after loading what s saved. Headers, cache and key store are not saved. */
  function Restarted(env: Env, s: State, accounts: Accounts): State {
    var kept := KeepLast(s.log);
    Genesis(accounts).(height := |kept|, lastCommittedHeight := s.lastCommittedHeight, rounds := s.rounds,
                       receipts := s.receipts, leaves := Jsons(env, kept), log := kept)
  }

  /**
   * Save, then load into a new engine: after every run and whatever the order of the map, this is the state it starts
   * in.
   */
  lemma RestartIsLoad(env: Env, feeReceiver: Bytes, before: Accounts, events: seq<Event>,
                      led: SavedLedger, sorted: seq<Receipt>, accounts: Accounts)
    requires var s := Run(env, feeReceiver, Genesis(before), events);
             && Enumerates(led.receipts, s.receipts) && SortedBy(LessHeight, led.receipts)
             && led.rounds == s.rounds && led.lastCommittedHeight == s.lastCommittedHeight
    requires SortedBy(LessHeight, sorted) && multiset(sorted) == multiset(led.receipts)
    ensures Loaded(env, Genesis(accounts), led, sorted)
            == Restarted(env, Run(env, feeReceiver, Genesis(before), events), accounts)
  {
    hide Run;
    SaveLoadRoundTrip(env, feeReceiver, before, events, led, Genesis(accounts), sorted);
  }

  // ---------- What is forgotten ----------

  /** After a restart no past header, bundle or supply is known: only height zero still has its (empty) supply. */
  lemma RestartForgets(env: Env, s: State, accounts: Accounts, height: nat)
    ensures var r := Restarted(env, s, accounts);
            && r.headers == [] && r.lastBlockId == ZERO_DIGEST && r.feed == []
            && HeaderAt(r.headers, height).None? && BundleAt(r.feed, height).None?
            && (SupplyAt(env, r.kv, r.supply, height).Some? <==> height == 0)
  {
  }

  /** The header chain starts again: the next header emitted is the first and links to zero. */
  lemma ChainStartsAgain(env: Env, s: State, accounts: Accounts, now: int)
    requires env.HasKeys() && CanCommit(Restarted(env, s, accounts))
    ensures var r := CommitRound(env, Restarted(env, s, accounts), now);
            |r.headers| == 1 && r.headers[0].prevHash == ZERO_DIGEST && |r.rounds| == |s.rounds| + 1
  {
    var r := Restarted(env, s, accounts);
    assert r.(height := |r.leaves|) == r;
    hide KeepLast, Jsons, Root, Hex, Mint, PersistSupply, HeaderHash, BundleHash, StateRoot.StateRootOf;
  }

  // ---------- The log ----------

  /** Heights and leaves of the loaded log agree again exactly when no hash was repeated before the restart. */
  lemma RestartKeepsLogIff(env: Env, s: State, accounts: Accounts)
    requires LogInv(env, s)
    ensures LogInv(env, Restarted(env, s, accounts)) <==> DistinctHashes(s.log)
  {
    var log, kept := s.log, KeepLast(s.log);
    KeepLastIsAllIff(log);
    ByHashOfKeepLast(log);
    if !DistinctHashes(log) {
      assert log != [];
      LastKept(log);
      hide KeepLast;
      assert kept[|kept| - 1].height == |log| - 1;
    }
  }

  lemma LastKept(log: seq<Receipt>)
    requires log != []
    ensures KeepLast(log) != [] && KeepLast(log)[|KeepLast(log)| - 1] == log[|log| - 1]
  {
  }

  // ---------- The rounds ----------

  /** No receipt of a committed round was replaced by a later one of the same hash. */
  ghost predicate CommittedKept(s: State)
    requires s.lastCommittedHeight <= |s.log|
  {
    forall i :: 0 <= i < s.lastCommittedHeight ==> IsLast(s.log, i)
  }

  lemma {:induction false} WithoutKeepsPrefix(s: seq<Receipt>, hash: Bytes, c: nat)
    requires c <= |s| && forall i :: 0 <= i < c ==> s[i].txHash != hash
    ensures c <= |Without(s, hash)| && Without(s, hash)[..c] == s[..c]
  {
    var k := |s| - 1;
    if c == |s| {
      WithoutAbsent(s, hash);
    } else {
      WithoutKeepsPrefix(s[..k], hash, c);
      assert s[..k][..c] == s[..c];
    }
  }

  /** A prefix whose receipts are all last of their hash is kept as it is. */
  lemma {:induction false} KeptPrefix(log: seq<Receipt>, c: nat)
    requires c <= |log| && forall i :: 0 <= i < c ==> IsLast(log, i)
    ensures c <= |KeepLast(log)| && KeepLast(log)[..c] == log[..c]
  {
    if c == |log| {
      forall i, j | 0 <= i < j < |log| ensures log[i].txHash != log[j].txHash {
        assert IsLast(log, i);
      }
      KeepLastIsAllIff(log);
    } else {
      var k := |log| - 1;
      forall i | 0 <= i < c ensures IsLast(log[..k], i) && log[i].txHash != log[k].txHash {
        assert IsLast(log, i);
        LastInPrefix(log, i);
      }
      KeptPrefix(log[..k], c);
      assert log[..k][..c] == log[..c];
      assert forall i :: 0 <= i < c ==> KeepLast(log[..k])[i] == log[..c][i];
      WithoutKeepsPrefix(KeepLast(log[..k]), log[k].txHash, c);
      KeepLastUnfolds(log);
    }
  }

  /** What stands at the position of a replaced receipt is another one. */
  lemma ReplacedMoves(log: seq<Receipt>, p: nat)
    requires Numbered(log) && p < |log| && !IsLast(log, p) && p < |KeepLast(log)|
    ensures KeepLast(log)[p] != log[p]
  {
    var x := KeepLast(log)[p];
    assert x in KeepLast(log);
    KeepLastElements(log, x);
    hide IsLast, KeepLast;
    var i :| 0 <= i < |log| && log[i] == x && IsLast(log, i);
    assert log[i].height == i && log[p].height == p;
  }

  lemma SamePrefixKeepsRounds(env: Env, s: State, r: State)
    requires RoundsInv(env, s) && r.rounds == s.rounds && r.lastCommittedHeight == s.lastCommittedHeight
    requires s.lastCommittedHeight <= |r.leaves|
            && r.leaves[..s.lastCommittedHeight] == s.leaves[..s.lastCommittedHeight]
    ensures RoundsInv(env, r)
  {
    hide Root, Hex;
    var c := s.lastCommittedHeight;
    forall k | 0 <= k < |s.rounds| ensures RoundFits(env, r, k) {
      assert RoundFits(env, s, k) && RoundFits(env, s, |s.rounds| - 1);
      if k < |s.rounds| - 1 {
        RoundsAscend(env, s, k, |s.rounds| - 1);
      }
      var h := s.rounds[k];
      assert h.toHeight <= s.rounds[|s.rounds| - 1].toHeight == c;
      assert s.leaves[..c][h.fromHeight - 1..h.toHeight] == s.leaves[h.fromHeight - 1..h.toHeight];
      assert r.leaves[..c][h.fromHeight - 1..h.toHeight] == r.leaves[h.fromHeight - 1..h.toHeight];
    }
  }

  lemma ChangedLeafCollides(env: Env, s: State, r: State, k: nat, p: nat)
    requires RoundsInv(env, s) && RoundsInv(env, r) && r.rounds == s.rounds && k < |s.rounds| && InRound(s.rounds[k], p)
    requires p < |s.leaves| && p < |r.leaves| && s.leaves[p] != r.leaves[p]
    ensures SlicesCollide(env.sha256, s.leaves, r.leaves, s.rounds[k])
  {
    hide Root, Hex, SlicesCollide;
    assert RoundFits(env, s, k) && RoundFits(env, r, k);
    var h := s.rounds[k];
    HexInjective(Root(env.sha256, s.leaves[h.fromHeight - 1..h.toHeight]),
                 Root(env.sha256, r.leaves[h.fromHeight - 1..h.toHeight]));
    hide RoundsInv, RoundFits;
    SlicesBind(env.sha256, s.leaves, r.leaves, h, p);
  }

  /**
   * The stored rounds fit the loaded log exactly when no committed receipt was replaced: otherwise a round's leaves
   * have changed under its root, or too few are left, unless its root collides.
   */
  lemma RestartKeepsRoundsIff(env: Env, s: State, accounts: Accounts)
    requires LogInv(env, s) && RoundsInv(env, s) && JsonInjective(env)
    ensures var r := Restarted(env, s, accounts);
            RootsCollide(env.sha256, s.leaves, r.leaves, s.rounds) || (RoundsInv(env, r) <==> CommittedKept(s))
  {
    hide LogInv, RoundsInv, RootsCollide, Restarted, CommittedKept;
    LogBounds(env, s);
    if CommittedKept(s) {
      KeptKeepsRounds(env, s, accounts);
    } else if RoundsInv(env, Restarted(env, s, accounts)) {
      ReplacedCollides(env, s, accounts);
    }
  }

  lemma LogBounds(env: Env, s: State)
    requires LogInv(env, s) && RoundsInv(env, s)
    ensures s.lastCommittedHeight <= |s.log|
  {
  }

  lemma KeptKeepsRounds(env: Env, s: State, accounts: Accounts)
    requires LogInv(env, s) && RoundsInv(env, s) && CommittedKept(s)
    ensures RoundsInv(env, Restarted(env, s, accounts))
  {
    hide Root, Hex, IsLast, RoundsInv, KeepLast;
    LogBounds(env, s);
    var r, c := Restarted(env, s, accounts), s.lastCommittedHeight;
    KeptPrefix(s.log, c);
    assert forall i :: 0 <= i < c ==> r.log[i] == r.log[..c][i] == s.log[..c][i] == s.log[i];
    assert r.leaves[..c] == s.leaves[..c];
    SamePrefixKeepsRounds(env, s, r);
  }

  lemma ReplacedCollides(env: Env, s: State, accounts: Accounts)
    requires LogInv(env, s) && RoundsInv(env, s) && JsonInjective(env) && !CommittedKept(s)
    requires RoundsInv(env, Restarted(env, s, accounts))
    ensures RootsCollide(env.sha256, s.leaves, Restarted(env, s, accounts).leaves, s.rounds)
  {
    hide Root, Hex, SlicesCollide, IsLast, RoundFits, KeepLast;
    var r := Restarted(env, s, accounts);
    var p :| 0 <= p < s.lastCommittedHeight && !IsLast(s.log, p);
    ReplacedMoves(s.log, p);
    var k := SomeRoundHolds(env, s, |s.rounds|, p);
    ChangedLeafCollides(env, s, r, k, p);
  }

  // ---------- All invariants ----------

  /**
   * A restart starts from the full invariant exactly when no hash was repeated and, with keys, no round was committed.
   */
  lemma RestartKeepsInvIff(env: Env, s: State, accounts: Accounts)
    requires Inv(env, s)
    ensures Inv(env, Restarted(env, s, accounts)) <==> DistinctHashes(s.log) && (env.HasKeys() ==> s.rounds == [])
  {
    hide RoundFits, HeaderFits;
    var r := Restarted(env, s, accounts);
    RestartKeepsLogIff(env, s, accounts);
    if DistinctHashes(s.log) {
      KeepLastIsAllIff(s.log);
      SamePrefixKeepsRounds(env, s, r);
    }
  }

  /**
   * Log and rounds go on fitting together: the partition into rounds survives restarts of a log without repeated
   * hashes.
   */
  lemma {:induction false} RunKeepsLogAndRounds(env: Env, feeReceiver: Bytes, s: State, events: seq<Event>)
    requires LogInv(env, s) && RoundsInv(env, s)
    ensures LogInv(env, Run(env, feeReceiver, s, events)) && RoundsInv(env, Run(env, feeReceiver, s, events))
  {
    hide LogInv, RoundsInv, Step;
    if events != [] {
      var n := |events| - 1;
      RunKeepsLogAndRounds(env, feeReceiver, s, events[..n]);
      StepKeepsLogAndRounds(env, feeReceiver, Run(env, feeReceiver, s, events[..n]), events[n]);
    }
  }

  lemma StepKeepsLogAndRounds(env: Env, feeReceiver: Bytes, s: State, e: Event)
    requires LogInv(env, s) && RoundsInv(env, s)
    ensures LogInv(env, Step(env, feeReceiver, s, e)) && RoundsInv(env, Step(env, feeReceiver, s, e))
  {
    hide RoundFits, Jsons, ByHash, AfterTransfer, Touch;
    if e.Commit? {
      CommitKeepsRounds(env, s, e.committedAt);
      CommitShape(env, s, e.committedAt);
      hide CommitRound, RoundsInv;
    } else {
      hide CommitRound, StoreReceipt;
      if e.Store? {
        StoreKeepsLog(env, s, e.t, e.applied, e.reason, e.storedAt);
      }
      RoundsFitLongerLog(env, s, Step(env, feeReceiver, s, e));
    }
  }

  /** Before and after a restart, then, exactly as long as no hash repeats. */
  lemma RoundsSurviveRestart(env: Env, feeReceiver: Bytes, before: Accounts, events: seq<Event>,
                             accounts: Accounts, later: seq<Event>)
    requires DistinctHashes(Run(env, feeReceiver, Genesis(before), events).log)
    ensures var s := Run(env, feeReceiver, Genesis(before), events);
            var t := Run(env, feeReceiver, Restarted(env, s, accounts), later);
            LogInv(env, t) && RoundsInv(env, t)
  {
    hide Run, RoundFits, HeadersInv;
    var s := Run(env, feeReceiver, Genesis(before), events);
    RunKeepsInv(env, feeReceiver, before, events);
    RestartKeepsLogIff(env, s, accounts);
    KeepLastIsAllIff(s.log);
    SamePrefixKeepsRounds(env, s, Restarted(env, s, accounts));
    RunKeepsLogAndRounds(env, feeReceiver, Restarted(env, s, accounts), later);
  }

  // ---------- A repeated transfer ----------

  /** Storing one transfer twice, applied or rejected, repeats its hash, and a restart then loses a leaf. */
  lemma RepeatedTransferLosesLeaf(env: Env, s: State, t: TxTransfer, first: bool, second: bool,
                                  reason: string, again: string, now: int, later: int, accounts: Accounts)
    requires LogInv(env, s)
    ensures var s2 := StoreReceipt(env, StoreReceipt(env, s, t, first, reason, now), t, second, again, later);
            var r := Restarted(env, s2, accounts);
            !DistinctHashes(s2.log) && |r.leaves| < |s2.leaves| && !LogInv(env, r)
  {
    var s1 := StoreReceipt(env, s, t, first, reason, now);
    var s2 := StoreReceipt(env, s1, t, second, again, later);
    hide KeepLast, TxHash, Status;
    assert s1.log[..|s1.log| - 1] == s.log && s2.log[..|s2.log| - 1] == s1.log;
    assert LogInv(env, s1) && LogInv(env, s2);
    var n := |s.log|;
    assert s2.log[n].txHash == s2.log[n + 1].txHash;
    RestartKeepsLogIff(env, s2, accounts);
    KeepLastIsAllIff(s2.log);
  }

  lemma PostExtendsLog(cfg: Config, n: Router.Node, tx: TxPre, now: int)
    requires PassesPrecheck(cfg, tx, n.chain.height)
    ensures var log := Serve(cfg, n, Post(tx, true, now)).chain.log;
            |log| == |n.chain.log| + 1 && n.chain.log <= log && log[|n.chain.log|].txHash == TxHash(cfg.env, Posted(tx))
  {
    hide AfterTransfer, TxHash, Rejection, PassesPrecheck, Posted;
  }

  /** At any point of any run of the node, posting one transaction twice is enough, though the second is rejected. */
  lemma RepostedTransactionLosesLeaf(cfg: Config, before: Accounts, rs: seq<Request>, tx: TxPre,
                                     now: int, later: int, accounts: Accounts)
    requires var n := ServeAll(cfg, Start(before), rs);
             PassesPrecheck(cfg, tx, n.chain.height)
                 && PassesPrecheck(cfg, tx, Serve(cfg, n, Post(tx, true, now)).chain.height)
    ensures var s := ServeAll(cfg, Start(before), rs + [Post(tx, true, now), Post(tx, true, later)]).chain;
            !DistinctHashes(s.log) && |Restarted(cfg.env, s, accounts).leaves| < |s.leaves|
            && !LogInv(cfg.env, Restarted(cfg.env, s, accounts))
  {
    hide Serve, PassesPrecheck, KeepLast, TxHash, Posted, Run, RoundsInv, HeadersInv;
    var first, second := Post(tx, true, now), Post(tx, true, later);
    var all := rs + [first, second];
    var n := ServeAll(cfg, Start(before), rs);
    var n1 := Serve(cfg, n, first);
    assert all[..|all| - 1] == rs + [first] && (rs + [first])[..|rs|] == rs;
    assert ServeAll(cfg, Start(before), rs + [first]) == n1;
    var s := ServeAll(cfg, Start(before), all).chain;
    PostExtendsLog(cfg, n, tx, now);
    PostExtendsLog(cfg, n1, tx, later);
    assert s.log[|n.chain.log|].txHash == s.log[|n.chain.log| + 1].txHash;
    var events := RouterRuns.NodeRunIsEngineRun(cfg, before, all);
    RunKeepsInv(cfg.env, cfg.feeReceiver, before, events);
    hide ServeAll;
    RestartKeepsLogIff(cfg.env, s, accounts);
    KeepLastIsAllIff(s.log);
  }
}
