/** internal/app/state_reward.go over whole runs: the minted total, the vaults and the stored history. */
module SupplyRuns {
  import opened Common
  import opened Text
  import opened Ledger
  import opened Chain
  import opened Rounds
  import Rewards

  /** The supply after the mints of a list of rounds. */
  function MintAll(env: Env, rounds: seq<RoundHeader>): SupplyState {
    if rounds == [] then NO_SUPPLY
    else Mint(env, MintAll(env, rounds[..|rounds| - 1]), rounds[|rounds| - 1].toHeight)
  }

  function SumOfMints(env: Env, rounds: seq<RoundHeader>): nat {
    if rounds == [] then 0
    else SumOfMints(env, rounds[..|rounds| - 1]) + env.blockMintAt(rounds[|rounds| - 1].toHeight)
  }

  function VaultSum(s: SupplyState): nat {
    s.networkVault + s.foundationVault + s.exchangeVault
  }

  lemma WrapsAddUp(a: int, b: int, c: int, d: int)
    ensures Wrap64(Wrap64(a) + Wrap64(b) + Wrap64(c) + d) == Wrap64(a + b + c + d)
  {
    WrapTwice(a, Wrap64(b) + Wrap64(c) + d);
    WrapTwice(b, a + Wrap64(c) + d);
    WrapTwice(c, a + b + d);
  }

  lemma MintKeepsVaults(env: Env, s: SupplyState, height: nat)
    requires s.totalMinted == Wrap64(VaultSum(s))
    ensures var s' := Mint(env, s, height);
            && s'.totalMinted == Wrap64(VaultSum(s'))
            && s'.totalMinted == Wrap64(s.totalMinted + env.blockMintAt(height))
            && s'.lastHeight == height
  {
    var minted := env.blockMintAt(height);
    hide Wrap64;
    var split := Rewards.SplitMint(minted);
    hide *;
    VaultsAfterMint(s, split.network, split.foundation, split.exchange, minted);
    MintFields(env, s, height);
  }

  lemma MintFields(env: Env, s: SupplyState, height: nat)
    ensures var s', split := Mint(env, s, height), Rewards.SplitMint(env.blockMintAt(height));
            && s'.totalMinted == Wrap64(s.totalMinted + env.blockMintAt(height)) && s'.lastHeight == height
            && VaultSum(s') == Wrap64(s.networkVault + split.network) + Wrap64(s.foundationVault + split.foundation)
                               + Wrap64(s.exchangeVault + split.exchange)
  {
    hide Wrap64, Rewards.SplitMint;
  }

  lemma VaultsAfterMint(s: SupplyState, n: nat, f: nat, x: nat, minted: nat)
    requires s.totalMinted == Wrap64(VaultSum(s)) && n + f + x == minted
    ensures Wrap64(Wrap64(s.networkVault + n) + Wrap64(s.foundationVault + f) + Wrap64(s.exchangeVault + x))
            == Wrap64(s.totalMinted + minted)
  {
    hide Wrap64;
    WrapsAddUp(s.networkVault + n, s.foundationVault + f, s.exchangeVault + x, 0);
    WrapTwice(VaultSum(s), minted);
  }

  /** The minted total is the sum of the mints, and the sum of the vaults, modulo 2^64. */
  lemma {:induction false} MintAllTotals(env: Env, rounds: seq<RoundHeader>)
    ensures var s := MintAll(env, rounds);
            && s.totalMinted == Wrap64(SumOfMints(env, rounds))
            && s.totalMinted == Wrap64(VaultSum(s))
            && s.lastHeight == if rounds == [] then 0 else rounds[|rounds| - 1].toHeight
  {
    if rounds != [] {
      hide Wrap64, Mint;
      var n := |rounds| - 1;
      MintAllTotals(env, rounds[..n]);
      MintKeepsVaults(env, MintAll(env, rounds[..n]), rounds[n].toHeight);
      WrapTwice(SumOfMints(env, rounds[..n]), env.blockMintAt(rounds[n].toHeight));
    } else {
      WrapOfUint64(0);
    }
  }

  datatype Sums = Sums(network: nat, foundation: nat, exchange: nat)

  function AddShares(sums: Sums, minted: uint64): Sums {
    var split := Rewards.SplitMint(minted);
    Sums(sums.network + split.network, sums.foundation + split.foundation, sums.exchange + split.exchange)
  }

  /** The shares of all rounds, added up without wrap. */
  function SharesOf(env: Env, rounds: seq<RoundHeader>): Sums {
    if rounds == [] then Sums(0, 0, 0)
    else AddShares(SharesOf(env, rounds[..|rounds| - 1]), env.blockMintAt(rounds[|rounds| - 1].toHeight))
  }

  predicate VaultsHold(s: SupplyState, sums: Sums) {
    && s.networkVault == Wrap64(sums.network)
    && s.foundationVault == Wrap64(sums.foundation)
    && s.exchangeVault == Wrap64(sums.exchange)
  }

  lemma MintKeepsShares(env: Env, s: SupplyState, sums: Sums, height: nat)
    requires VaultsHold(s, sums)
    ensures VaultsHold(Mint(env, s, height), AddShares(sums, env.blockMintAt(height)))
  {
    hide Wrap64, Rewards.SplitMint;
    var split := Rewards.SplitMint(env.blockMintAt(height));
    WrapTwice(sums.network, split.network);
    WrapTwice(sums.foundation, split.foundation);
    WrapTwice(sums.exchange, split.exchange);
  }

  /** Each vault holds the sum of its own shares, modulo 2^64. */
  lemma {:induction false} VaultsHoldTheirShares(env: Env, rounds: seq<RoundHeader>)
    ensures VaultsHold(MintAll(env, rounds), SharesOf(env, rounds))
  {
    if rounds == [] {
      WrapOfUint64(0);
    } else {
      hide Mint, AddShares, VaultsHold;
      var n := |rounds| - 1;
      VaultsHoldTheirShares(env, rounds[..n]);
      MintKeepsShares(env, MintAll(env, rounds[..n]), SharesOf(env, rounds[..n]), rounds[n].toHeight);
    }
  }

  // ---------- The stored history ----------

  predicate IsRoundEnd(rounds: seq<RoundHeader>, height: nat) {
    exists i :: 0 <= i < |rounds| && rounds[i].toHeight == height
  }

  ghost predicate SupplyInv(env: Env, s: State) {
    && s.supply == MintAll(env, s.rounds)
    && LatestMint(env, s)
    && (forall i :: 0 <= i < |s.rounds| ==> Stored(env, s, i))
    && (forall h: nat {:trigger SupplyHistoryKey(h)} :: SupplyHistoryKey(h) in s.kv ==> IsRoundEnd(s.rounds, h))
  }

  /** The current record and the last mint's figures are those of the last round. */
  ghost predicate LatestMint(env: Env, s: State) {
    s.rounds != [] ==>
      var height := s.rounds[|s.rounds| - 1].toHeight;
      && SupplyCurrentKey() in s.kv && s.kv[SupplyCurrentKey()] == env.supplyJson(s.supply)
      && s.lastMinted == env.blockMintAt(height) && s.lastEmissionEpoch == height / 100
  }

  ghost predicate Stored(env: Env, s: State, i: nat)
    requires i < |s.rounds|
  {
    var key := SupplyHistoryKey(s.rounds[i].toHeight);
    key in s.kv && s.kv[key] == env.supplyJson(MintAll(env, s.rounds[..i + 1]))
  }

  lemma HistoryKeyInjective(a: nat, b: nat)
    requires SupplyHistoryKey(a) == SupplyHistoryKey(b)
    ensures a == b
  {
    var p := Ascii("supply/history/");
    assert Decimal20(a) == SupplyHistoryKey(a)[|p|..] && Decimal20(b) == SupplyHistoryKey(b)[|p|..];
    Decimal20Injective(a, b);
  }

  /** The keys as the store holds them: a history key is its prefix and the height in twenty digits. */
  lemma SupplyKeysSpelled(height: nat)
    requires height < TWO_64
    ensures SupplyCurrentKey() == Ascii("supply/current")
    ensures var digits := SupplyHistoryKey(height)[15..];
            && SupplyHistoryKey(height) == Ascii("supply/history/") + digits
            && |digits| == 20 && AllDigits(digits) && DecimalValue(digits) == height
  {
    var p := Ascii("supply/history/");
    ValueOfDecimal20(height);
    DecimalFits(height);
    ZerosAreDigits(20 - |Decimal(height)|);
    assert SupplyHistoryKey(height)[15..] == Decimal20(height);
  }

  lemma SupplyKeysApart(h: nat)
    ensures Ascii("supply/") <= SupplyCurrentKey()
    ensures SupplyHistoryKey(h) != SupplyCurrentKey()
    ensures Ascii("supply/") <= SupplyHistoryKey(h)
  {
    assert |SupplyHistoryKey(h)| >= 15;
    assert Ascii("supply/") == Ascii("supply/current")[..7];
    assert Ascii("supply/") == Ascii("supply/history/")[..7];
  }

  lemma CommitKeepsSupply(env: Env, s: State, now: int)
    requires Inv(env, s) && SupplyInv(env, s)
    ensures SupplyInv(env, CommitRound(env, s, now))
  {
    CommitShape(env, s, now);
    if CanCommit(s) {
      hide CommitRound, Mint, SupplyHistoryKey, SupplyCurrentKey, Inv;
      AppendSupply(env, s, CommitRound(env, s, now), NextRound(env, s, now));
    }
  }

  /** s' is s after the mint of round r. */
  ghost predicate Minted(env: Env, s: State, s': State, r: RoundHeader) {
    && s'.rounds == s.rounds + [r] && s'.supply == Mint(env, s.supply, r.toHeight)
    && s'.kv == PersistSupply(env, s.kv, r.toHeight, s'.supply)
    && s'.lastMinted == env.blockMintAt(r.toHeight) && s'.lastEmissionEpoch == r.toHeight / 100
  }

  lemma AppendSupply(env: Env, s: State, s': State, r: RoundHeader)
    requires Inv(env, s) && SupplyInv(env, s) && CanCommit(s) && r.toHeight == |s.leaves| && Minted(env, s, s', r)
    ensures SupplyInv(env, s')
  {
    hide Inv, Mint, SupplyHistoryKey, SupplyCurrentKey, Stored, IsRoundEnd, Minted;
    LatestIsMinted(env, s, s', r);
    forall i | 0 <= i < |s'.rounds| ensures Stored(env, s', i) {
      StoredAfterMint(env, s, s', r, i);
    }
    forall h: nat {:trigger SupplyHistoryKey(h)} | SupplyHistoryKey(h) in s'.kv ensures IsRoundEnd(s'.rounds, h) {
      KeysAfterMint(env, s, s', r, h);
    }
  }

  lemma LatestIsMinted(env: Env, s: State, s': State, r: RoundHeader)
    requires s.supply == MintAll(env, s.rounds) && Minted(env, s, s', r)
    ensures s'.supply == MintAll(env, s'.rounds) && LatestMint(env, s')
  {
    hide Mint, SupplyHistoryKey, SupplyCurrentKey;
    assert s'.rounds[..|s.rounds|] == s.rounds;
    SupplyKeysApart(r.toHeight);
  }

  lemma StoredAfterMint(env: Env, s: State, s': State, r: RoundHeader, i: nat)
    requires Inv(env, s) && SupplyInv(env, s) && CanCommit(s) && r.toHeight == |s.leaves| && Minted(env, s, s', r)
    requires i < |s'.rounds|
    ensures Stored(env, s', i)
  {
    hide Inv, Mint, SupplyHistoryKey, SupplyCurrentKey, MintAll;
    LatestIsMinted(env, s, s', r);
    SupplyKeysApart(s'.rounds[i].toHeight);
    if i == |s.rounds| {
      assert s'.rounds[..i + 1] == s'.rounds;
    } else {
      assert Stored(env, s, i);
      assert s'.rounds[..i + 1] == s.rounds[..i + 1];
      EndBeforeLog(env, s, i);
      if SupplyHistoryKey(s.rounds[i].toHeight) == SupplyHistoryKey(r.toHeight) {
        HistoryKeyInjective(s.rounds[i].toHeight, r.toHeight);
      }
    }
  }

  lemma KeysAfterMint(env: Env, s: State, s': State, r: RoundHeader, h: nat)
    requires SupplyInv(env, s) && Minted(env, s, s', r) && SupplyHistoryKey(h) in s'.kv
    ensures IsRoundEnd(s'.rounds, h)
  {
    hide Mint, SupplyHistoryKey, SupplyCurrentKey, MintAll, LatestMint, Stored;
    SupplyKeysApart(h);
    if SupplyHistoryKey(h) == SupplyHistoryKey(r.toHeight) {
      HistoryKeyInjective(h, r.toHeight);
      assert s'.rounds[|s.rounds|].toHeight == h;
    } else {
      assert SupplyHistoryKey(h) in s.kv;
      var i :| 0 <= i < |s.rounds| && s.rounds[i].toHeight == h;
      assert s'.rounds[i].toHeight == h;
    }
  }

  lemma EndBeforeLog(env: Env, s: State, i: nat)
    requires Inv(env, s) && CanCommit(s) && i < |s.rounds|
    ensures s.rounds[i].toHeight < |s.leaves|
  {
    hide LogInv, HeadersInv, Hex;
    if i < |s.rounds| - 1 {
      RoundsAscend(env, s, i, |s.rounds| - 1);
      assert RoundFits(env, s, |s.rounds| - 1);
    }
  }

  lemma OtherKeyKeepsSupply(env: Env, s: State, key: Bytes, value: Bytes)
    requires SupplyInv(env, s) && !(Ascii("supply/") <= key)
    ensures SupplyInv(env, s.(kv := s.kv[key := value]))
  {
    hide MintAll, SupplyHistoryKey;
    var s' := s.(kv := s.kv[key := value]);
    forall i | 0 <= i < |s.rounds| ensures Stored(env, s', i) {
      assert Stored(env, s, i);
      SupplyKeysApart(s.rounds[i].toHeight);
    }
    SupplyKeysApart(0);
    forall h: nat {:trigger SupplyHistoryKey(h)} | SupplyHistoryKey(h) in s'.kv ensures IsRoundEnd(s'.rounds, h) {
      SupplyKeysApart(h);
    }
  }

  lemma DeletedKeyKeepsSupply(env: Env, s: State, key: Bytes)
    requires SupplyInv(env, s) && !(Ascii("supply/") <= key)
    ensures SupplyInv(env, s.(kv := s.kv - {key}))
  {
    hide MintAll, SupplyHistoryKey;
    var s' := s.(kv := s.kv - {key});
    forall i | 0 <= i < |s.rounds| ensures Stored(env, s', i) {
      assert Stored(env, s, i);
      SupplyKeysApart(s.rounds[i].toHeight);
    }
    SupplyKeysApart(0);
  }

  lemma StepKeepsSupply(env: Env, feeReceiver: Bytes, s: State, e: Event)
    requires Inv(env, s) && SupplyInv(env, s) && Allowed(e)
    ensures SupplyInv(env, Step(env, feeReceiver, s, e))
  {
    hide MintAll, SupplyHistoryKey;
    match e
    case Commit(now) => CommitKeepsSupply(env, s, now);
    case SetKey(key, value) => OtherKeyKeepsSupply(env, s, key, value);
    case DeleteKey(key) => DeletedKeyKeepsSupply(env, s, key);
    case _ =>
      var s' := Step(env, feeReceiver, s, e);
      forall i | 0 <= i < |s.rounds| ensures Stored(env, s', i) {
        assert Stored(env, s, i);
      }
  }

  lemma {:induction false} RunKeepsSupply(env: Env, feeReceiver: Bytes, accounts: Accounts, events: seq<Event>)
    requires forall e :: e in events ==> Allowed(e)
    ensures SupplyInv(env, Run(env, feeReceiver, Genesis(accounts), events))
  {
    hide Inv, Step;
    if events != [] {
      var n := |events| - 1;
      RunKeepsSupply(env, feeReceiver, accounts, events[..n]);
      RunKeepsInv(env, feeReceiver, accounts, events[..n]);
      StepKeepsSupply(env, feeReceiver, Run(env, feeReceiver, Genesis(accounts), events[..n]), events[n]);
    }
  }

  /** After every run the totals agree: minted total, sum of the rounds' mints, and the three vaults, modulo 2^64. */
  lemma SupplyTotals(env: Env, feeReceiver: Bytes, accounts: Accounts, events: seq<Event>)
    requires forall e :: e in events ==> Allowed(e)
    ensures var s := Run(env, feeReceiver, Genesis(accounts), events);
            && s.supply.totalMinted == Wrap64(SumOfMints(env, s.rounds))
            && s.supply.totalMinted == Wrap64(s.supply.networkVault + s.supply.foundationVault + s.supply.exchangeVault)
            && VaultsHold(s.supply, SharesOf(env, s.rounds))
  {
    hide Wrap64, Run, MintAll, SharesOf, VaultsHold;
    VaultsHoldTheirShares(env, Run(env, feeReceiver, Genesis(accounts), events).rounds);
    RunKeepsSupply(env, feeReceiver, accounts, events);
    MintAllTotals(env, Run(env, feeReceiver, Genesis(accounts), events).rounds);
  }

  /**
   * A height has a supply exactly when a round ended at it, or it is zero and there is no round yet. It is then the
   * supply after that round, or the empty one.
   */
  lemma SupplyAtHeight(env: Env, s: State, height: nat)
    requires env.Faithful() && Inv(env, s) && SupplyInv(env, s)
    ensures SupplyAt(env, s.kv, s.supply, height).Some?
            <==> IsRoundEnd(s.rounds, height) || (height == 0 && s.rounds == [])
    ensures height == 0 && s.rounds == [] ==> SupplyAt(env, s.kv, s.supply, height) == Some(NO_SUPPLY)
    ensures forall i :: 0 <= i < |s.rounds| && s.rounds[i].toHeight == height ==>
              SupplyAt(env, s.kv, s.supply, height) == Some(MintAll(env, s.rounds[..i + 1]))
  {
    if s.rounds == [] {
      assert s.supply == NO_SUPPLY;
    } else {
      SupplyAtRoundEnd(env, s, height);
    }
  }

  lemma SupplyAtRoundEnd(env: Env, s: State, height: nat)
    requires env.Faithful() && Inv(env, s) && SupplyInv(env, s) && s.rounds != []
    ensures SupplyAt(env, s.kv, s.supply, height).Some? <==> IsRoundEnd(s.rounds, height)
    ensures forall i :: 0 <= i < |s.rounds| && s.rounds[i].toHeight == height ==>
              SupplyAt(env, s.kv, s.supply, height) == Some(MintAll(env, s.rounds[..i + 1]))
  {
    hide MintAll, SupplyHistoryKey, Inv;
    var n := |s.rounds| - 1;
    assert s.rounds[..n + 1] == s.rounds;
    LastSupplyHeight(env, s.rounds);
    forall i | 0 <= i < |s.rounds| && s.rounds[i].toHeight == height
      ensures SupplyAt(env, s.kv, s.supply, height) == Some(MintAll(env, s.rounds[..i + 1]))
    {
      assert Stored(env, s, i);
      if i < n {
        EndsDiffer(env, s, i, n);
      }
    }
    assert s.rounds[n].toHeight == s.supply.lastHeight;
  }

  lemma LastSupplyHeight(env: Env, rounds: seq<RoundHeader>)
    requires rounds != []
    ensures MintAll(env, rounds).lastHeight == rounds[|rounds| - 1].toHeight
  {
    hide Wrap64;
  }

  lemma EndsDiffer(env: Env, s: State, i: nat, j: nat)
    requires Inv(env, s) && i < j < |s.rounds|
    ensures s.rounds[i].toHeight != s.rounds[j].toHeight
  {
    RoundsAscend(env, s, i, j);
    assert RoundFits(env, s, j);
  }

  /**
   * Supply history: after any continuation of a run, asking for the height of the last round then committed
   * returns the supply as it stood right after that commit, by the fast path or from the store.
   */
  lemma SupplyHistoryStays(env: Env, feeReceiver: Bytes, accounts: Accounts, events: seq<Event>, n: nat)
    requires env.Faithful() && n <= |events| && forall e :: e in events ==> Allowed(e)
    requires Run(env, feeReceiver, Genesis(accounts), events[..n]).rounds != []
    ensures var early, late := Run(env, feeReceiver, Genesis(accounts), events[..n]),
            Run(env, feeReceiver, Genesis(accounts), events);
            SupplyAt(env, late.kv, late.supply, early.lastCommittedHeight) == Some(early.supply)
  {
    hide Run, MintAll;
    var early, late := Run(env, feeReceiver, Genesis(accounts), events[..n]),
        Run(env, feeReceiver, Genesis(accounts), events);
    PrefixOfRun(env, feeReceiver, accounts, events, n);
    RunKeepsInv(env, feeReceiver, accounts, events[..n]);
    RunKeepsInv(env, feeReceiver, accounts, events);
    RunKeepsSupply(env, feeReceiver, accounts, events[..n]);
    RunKeepsSupply(env, feeReceiver, accounts, events);
    var i := |early.rounds| - 1;
    assert late.rounds[i] == early.rounds[i] && late.rounds[..i + 1] == early.rounds;
    SupplyAtHeight(env, late, early.lastCommittedHeight);
  }
}
