/** Whole runs of the node: no unit is lost or made, nonces follow the log, and payment requests settle once. */
module RouterRuns {
  import opened Common
  import opened Text
  import opened Ledger
  import opened Chain
  import opened Rounds
  import opened Router

  // ---------- Node runs are engine runs ----------

  function TransferEvents(s: State, t: TxTransfer, now: int): seq<Event> {
    var rejection := Rejection(s.accounts, Moves(t));
    [Apply(Moves(t)),
     Store(t, rejection.None?, if rejection.Some? then Reason(rejection.value) else "", now)]
  }

  /** The engine events of one request. */
  function EventsOf(cfg: Config, n: Node, r: Request): seq<Event> {
    match r
    case Post(tx, otherChecks, now) =>
      if PassesPrecheck(cfg, tx, n.chain.height) && otherChecks then TransferEvents(n.chain, Posted(tx), now) else []
    case Approve(id, actor, feeMas, devFree, now) =>
      if !ActsOn(cfg, n, id, actor, false) then [] else
      var rec := n.store[id];
      var t := Approval(cfg, n, rec, feeMas);
      var touched := n.chain.(accounts := Touch(n.chain.accounts, rec.to));
      if devFree && Rejection(touched.accounts, Moves(t)) == Some(InsufficientFunds)
          then [Read(rec.to), Apply(Moves(t))]
      else [Read(rec.to)] + TransferEvents(touched, t, now)
    case Balance(addr) => [Read(addr)]
    case CommitNow(now) => [Commit(now)]
    case _ => []
  }

  lemma RunTwo(env: Env, feeReceiver: Bytes, s: State, a: Event, b: Event)
    ensures Run(env, feeReceiver, s, [a]) == Step(env, feeReceiver, s, a)
    ensures Run(env, feeReceiver, s, [a, b]) == Step(env, feeReceiver, Step(env, feeReceiver, s, a), b)
  {
    hide Step;
    assert [a][..0] == [] && [a, b][..1] == [a];
  }

  lemma {:induction false} RunConcat(env: Env, feeReceiver: Bytes, s: State, es: seq<Event>, fs: seq<Event>)
    ensures Run(env, feeReceiver, s, es + fs) == Run(env, feeReceiver, Run(env, feeReceiver, s, es), fs)
    decreases |fs|
  {
    hide Step;
    if fs == [] {
      assert es + fs == es;
    } else {
      var k := |fs| - 1;
      assert (es + fs)[..|es + fs| - 1] == es + fs[..k];
      RunConcat(env, feeReceiver, s, es, fs[..k]);
    }
  }

  lemma TransferEventsRun(cfg: Config, s: State, t: TxTransfer, now: int)
    ensures Run(cfg.env, cfg.feeReceiver, s, TransferEvents(s, t, now)) == ApplyAndStore(cfg, s, t, now)
  {
    var es := TransferEvents(s, t, now);
    RunTwo(cfg.env, cfg.feeReceiver, s, es[0], es[1]);
    hide Run, AfterTransfer, StoreReceipt, Rejection;
    assert es == [es[0], es[1]];
  }

  lemma ServeIsRun(cfg: Config, n: Node, r: Request)
    ensures Serve(cfg, n, r).chain == Run(cfg.env, cfg.feeReceiver, n.chain, EventsOf(cfg, n, r))
  {
    hide AfterTransfer, CommitRound, StoreReceipt, Rejection, PassesPrecheck, Config.Address, Approval;
    match r
    case Post(tx, otherChecks, now) => TransferEventsRun(cfg, n.chain, Posted(tx), now);
    case Approve(id, actor, feeMas, devFree, now) =>
      if ActsOn(cfg, n, id, actor, false) {
        ApproveIsRun(cfg, n, r);
      }
    case Balance(addr) => RunTwo(cfg.env, cfg.feeReceiver, n.chain, Read(addr), Read(addr));
    case CommitNow(now) => RunTwo(cfg.env, cfg.feeReceiver, n.chain, Commit(now), Read([]));
    case _ =>
  }

  lemma ApproveIsRun(cfg: Config, n: Node, r: Request)
    requires r.Approve? && ActsOn(cfg, n, r.id, r.actor, false)
    ensures ApproveRecord(cfg, n, r).chain == Run(cfg.env, cfg.feeReceiver, n.chain, EventsOf(cfg, n, r))
  {
    var rec := n.store[r.id];
    var t := Approval(cfg, n, rec, r.feeMas);
    var touched := n.chain.(accounts := Touch(n.chain.accounts, rec.to));
    RunTwo(cfg.env, cfg.feeReceiver, n.chain, Read(rec.to), Apply(Moves(t)));
    TransferEventsRun(cfg, touched, t, r.now);
    RunConcat(cfg.env, cfg.feeReceiver, n.chain, [Read(rec.to)], TransferEvents(touched, t, r.now));
    hide Run, AfterTransfer, ApplyAndStore, Rejection, TransferEvents, Approval, Config.Address;
  }

  /** Serving requests drives the engine through a run of its own events, so every theorem on engine runs applies. */
  lemma {:induction false} NodeRunIsEngineRun(cfg: Config, accounts: Accounts, rs: seq<Request>)
      returns (events: seq<Event>)
    ensures ServeAll(cfg, Start(accounts), rs).chain == Run(cfg.env, cfg.feeReceiver, Genesis(accounts), events)
    ensures forall e :: e in events ==> Allowed(e)
  {
    hide Serve, Run;
    if rs == [] {
      events := [];
      RunNothing(cfg, accounts);
    } else {
      var k := |rs| - 1;
      var before := NodeRunIsEngineRun(cfg, accounts, rs[..k]);
      var n := ServeAll(cfg, Start(accounts), rs[..k]);
      ServeIsRun(cfg, n, rs[k]);
      RunConcat(cfg.env, cfg.feeReceiver, Genesis(accounts), before, EventsOf(cfg, n, rs[k]));
      events := before + EventsOf(cfg, n, rs[k]);
    }
  }

  lemma RunNothing(cfg: Config, accounts: Accounts)
    ensures Run(cfg.env, cfg.feeReceiver, Genesis(accounts), []) == Genesis(accounts)
  {
  }

  // ---------- Conservation ----------

  /** Stored requests ask for positive int64 amounts. */
  ghost predicate AmountsInRange(n: Node) {
    forall id :: id in n.store ==> 0 < n.store[id].amountMas < TWO_63
  }

  lemma ApplyAndStoreKeepsTotal(cfg: Config, s: State, t: TxTransfer, now: int)
    requires Total(s.accounts) < TWO_64 && t.amount + t.fee < TWO_64 && cfg.feeReceiver != []
    ensures Total(ApplyAndStore(cfg, s, t, now).accounts) == Total(s.accounts)
  {
    TransferKeepsTotal(s.accounts, cfg.feeReceiver, Moves(t));
    hide Total, AfterTransfer, Rejection;
  }

  lemma TouchKeepsTotal(m: Accounts, addr: Bytes)
    ensures Total(Touch(m, addr)) == Total(m)
  {
    TotalUpdate(m, addr, Lookup(m, addr));
  }

  lemma PostedSumFits(cfg: Config, tx: TxPre, height: nat)
    requires PassesPrecheck(cfg, tx, height)
    ensures Posted(tx).amount == tx.amountMas && Posted(tx).fee == tx.feeMas >= MinFee(tx.amountMas, cfg.feeBps) >= 1
    ensures Posted(tx).amount + Posted(tx).fee < TWO_64
  {
    WrapOfUint64(tx.amountMas);
    WrapOfUint64(tx.feeMas);
  }

  lemma ServeKeepsTotal(cfg: Config, n: Node, r: Request)
    requires AmountsInRange(n) && Total(n.chain.accounts) < TWO_64 && cfg.feeReceiver != []
    ensures AmountsInRange(Serve(cfg, n, r))
    ensures Total(Serve(cfg, n, r).chain.accounts) == Total(n.chain.accounts)
  {
    hide Total, AfterTransfer, ApplyAndStore, Touch, Rejection, Config.Address, PassesPrecheck, CommitRound;
    match r
    case Post(tx, otherChecks, now) =>
      if PassesPrecheck(cfg, tx, n.chain.height) && otherChecks {
        PostedSumFits(cfg, tx, n.chain.height);
        ApplyAndStoreKeepsTotal(cfg, n.chain, Posted(tx), now);
      }
    case Approve(id, actor, feeMas, devFree, now) =>
      if ActsOn(cfg, n, id, actor, false) {
        ApproveKeepsTotal(cfg, n, r);
      }
    case Balance(addr) => TouchKeepsTotal(n.chain.accounts, addr);
    case CommitNow(now) => CommitKeepsAccounts(cfg.env, n.chain, now);
    case _ =>
  }

  lemma CommitKeepsAccounts(env: Env, s: State, now: int)
    ensures CommitRound(env, s, now).accounts == s.accounts
    ensures CommitRound(env, s, now).log == s.log
  {
    hide Mint, PersistSupply, NextHeader, NextBundle, NextRound, PushFeed, HeaderHash;
  }

  lemma ApproveKeepsTotal(cfg: Config, n: Node, r: Request)
    requires r.Approve? && ActsOn(cfg, n, r.id, r.actor, false) && cfg.feeReceiver != []
    requires AmountsInRange(n) && Total(n.chain.accounts) < TWO_64
    ensures AmountsInRange(ApproveRecord(cfg, n, r))
    ensures Total(ApproveRecord(cfg, n, r).chain.accounts) == Total(n.chain.accounts)
  {
    hide Total, AfterTransfer, ApplyAndStore, Touch, Rejection, Config.Address;
    var rec := n.store[r.id];
    var t := Approval(cfg, n, rec, r.feeMas);
    var touched := n.chain.(accounts := Touch(n.chain.accounts, rec.to));
    TouchKeepsTotal(n.chain.accounts, rec.to);
    ApplyAndStoreKeepsTotal(cfg, touched, t, r.now);
    TransferKeepsTotal(touched.accounts, cfg.feeReceiver, Moves(t));
    hide Total, AfterTransfer, ApplyAndStore, Touch, Rejection;
  }

  /**
   * Conservation: in every run of the node from balances that fit in 64 bits, with a fee receiver set, the sum of all
   * balances never changes, whoever sends, receives and collects fees.
   */
  lemma {:induction false} BalancesConserved(cfg: Config, accounts: Accounts, rs: seq<Request>)
    requires Total(accounts) < TWO_64 && cfg.feeReceiver != []
    ensures var n := ServeAll(cfg, Start(accounts), rs);
            Total(n.chain.accounts) == Total(accounts) && AmountsInRange(n)
  {
    hide Serve, Total;
    if rs != [] {
      var k := |rs| - 1;
      BalancesConserved(cfg, accounts, rs[..k]);
      ServeKeepsTotal(cfg, ServeAll(cfg, Start(accounts), rs[..k]), rs[k]);
    }
  }

  /**
   * And no transfer on the way wraps: at any point of any run a posted transfer that passes the pre-check is applied
   * exactly when it carries the sender's next nonce and the sender can cover amount and fee. It then moves exactly
   * those between its parties, and otherwise nothing; its receipt is appended either way.
   */
  lemma PostMovesExactly(cfg: Config, accounts: Accounts, rs: seq<Request>, tx: TxPre, now: int, addr: Bytes)
    requires Total(accounts) < TWO_64 && cfg.feeReceiver != []
    requires PassesPrecheck(cfg, tx, ServeAll(cfg, Start(accounts), rs).chain.height)
    ensures var s := ServeAll(cfg, Start(accounts), rs).chain;
            var s' := Serve(cfg, ServeAll(cfg, Start(accounts), rs), Post(tx, true, now)).chain;
            var sender := Lookup(s.accounts, tx.from);
            var applied := Wrap64(tx.nonce) == Wrap64(sender.nonce + 1) && sender.balance >= tx.amountMas + tx.feeMas;
            && |s'.log| == |s.log| + 1 && s.log <= s'.log
            && PostRecorded(cfg, s'.log[|s.log|], tx, now, Wrap64(tx.nonce) == Wrap64(sender.nonce + 1), applied)
            && Lookup(s'.accounts, addr).balance
               == Lookup(s.accounts, addr).balance
                  + if applied then If(addr == tx.to, tx.amountMas) + If(addr == cfg.feeReceiver, tx.feeMas)
                                    - If(addr == tx.from, tx.amountMas + tx.feeMas)
                    else 0
  {
    hide ServeAll, Serve, ApplyAndStore, AfterTransfer, Total, Posted, PassesPrecheck, Wrap64, Records, Rejection,
         PostRecorded;
    var n := ServeAll(cfg, Start(accounts), rs);
    var t := Moves(Posted(tx));
    PostServed(cfg, n, tx, now);
    BalancesConserved(cfg, accounts, rs);
    PostedSumFits(cfg, tx, n.chain.height);
    PostedParties(tx);
    WrapOfUint64(t.amount + t.fee);
    TransferRecorded(cfg, n.chain, Posted(tx), now);
    RejectionSpelled(n.chain.accounts, t);
    PostedRecord(cfg, tx, now, ApplyAndStore(cfg, n.chain, Posted(tx), now).log[|n.chain.log|],
                 Rejection(n.chain.accounts, t));
    if Rejection(n.chain.accounts, t).None? {
      TransferMovesExactly(n.chain.accounts, cfg.feeReceiver, t, addr);
    } else {
      RejectedTransferEffect(n.chain.accounts, cfg.feeReceiver, t, addr);
    }
  }

  lemma PostServed(cfg: Config, n: Node, tx: TxPre, now: int)
    requires PassesPrecheck(cfg, tx, n.chain.height)
    ensures var s := Serve(cfg, n, Post(tx, true, now)).chain;
            s == ApplyAndStore(cfg, n.chain, Posted(tx), now)
            && s.accounts == AfterTransfer(n.chain.accounts, cfg.feeReceiver, Moves(Posted(tx)))
  {
    hide AfterTransfer, Rejection, PassesPrecheck, Posted, TxHash;
  }

  /** The receipt of a posted transaction, in the transaction's own terms. */
  ghost predicate PostRecorded(cfg: Config, r: Receipt, tx: TxPre, now: int, nonceIsNext: bool, applied: bool)
    requires tx.amountMas >= 0 && tx.feeMas >= 0
  {
    var t := TxTransfer(tx.kind, tx.from, tx.to, tx.amountMas, tx.feeMas, Wrap64(tx.nonce), tx.chainId,
                        Wrap64(tx.expiryHeight), []);
    && r.txHash == Hex(cfg.env.sha256(cfg.env.transferJson(t)))
    && r.from == tx.from && r.to == tx.to && r.amount == tx.amountMas && r.fee == tx.feeMas
    && r.nonce == Wrap64(tx.nonce) && r.timeUtc == now
    && r.status == if applied then "applied" else if nonceIsNext then "rejected:apply:insufficient_funds"
                   else "rejected:apply:bad_nonce"
  }

  lemma PostedRecord(cfg: Config, tx: TxPre, now: int, r: Receipt, rejection: Option<TransferError>)
    requires tx.amountMas >= 0 && tx.feeMas >= 0
    requires var reason := if rejection == Some(BadNonce) then "apply:bad_nonce"
                           else if rejection == Some(InsufficientFunds) then "apply:insufficient_funds" else "";
             Records(cfg.env, r, Store(Posted(tx), rejection.None?, reason, now))
    ensures PostRecorded(cfg, r, tx, now, rejection != Some(BadNonce), rejection.None?)
  {
    WrapOfUint64(tx.amountMas);
    WrapOfUint64(tx.feeMas);
    hide Wrap64;
    assert "rejected:" + "apply:bad_nonce" == "rejected:apply:bad_nonce";
    assert "rejected:" + "apply:insufficient_funds" == "rejected:apply:insufficient_funds";
    assert rejection.Some? ==> rejection.value.BadNonce? || rejection.value.InsufficientFunds?;
  }

  lemma PostedParties(tx: TxPre)
    ensures Posted(tx).from == tx.from && Posted(tx).to == tx.to && Posted(tx).nonce == Wrap64(tx.nonce)
  {
  }

  // ---------- Nonces ----------

  predicate SentBy(r: Receipt, addr: Bytes) {
    r.from == addr && r.status == "applied"
  }

  /** The applied receipts an address sent, in log order. */
  function Sent(log: seq<Receipt>, addr: Bytes): seq<Receipt> {
    if log == [] then [] else
    var k := |log| - 1;
    if SentBy(log[k], addr) then Sent(log[..k], addr) + [log[k]] else Sent(log[..k], addr)
  }

  /** The nonce counts the applied transfers sent since the start, and they used the nonces in between, in order. */
  ghost predicate NonceFollowsLog(start: nat, s: State, addr: Bytes) {
    var sent := Sent(s.log, addr);
    && Lookup(s.accounts, addr).nonce == Wrap64(start + |sent|)
    && forall k :: 0 <= k < |sent| ==> sent[k].nonce == Wrap64(start + k + 1)
  }

  lemma SentExtend(log: seq<Receipt>, r: Receipt, addr: Bytes)
    ensures Sent(log + [r], addr) == if SentBy(r, addr) then Sent(log, addr) + [r] else Sent(log, addr)
  {
    assert (log + [r])[..|log|] == log;
  }

  lemma ApplyAndStoreKeepsNonces(cfg: Config, s: State, t: TxTransfer, now: int, start: nat, addr: Bytes)
    requires NonceFollowsLog(start, s, addr)
    ensures NonceFollowsLog(start, ApplyAndStore(cfg, s, t, now), addr)
  {
    var m := Moves(t);
    var rejection := Rejection(s.accounts, m);
    var s' := ApplyAndStore(cfg, s, t, now);
    var reason := if rejection.Some? then Reason(rejection.value) else "";
    var r := ReceiptFor(cfg.env, s, t, rejection.None?, reason, now);
    StatusTellsApplied(rejection.None?, reason);
    if rejection.Some? {
      RejectedTransferEffect(s.accounts, cfg.feeReceiver, m, addr);
    } else {
      AppliedTransferEffect(s.accounts, cfg.feeReceiver, m, addr);
      NextNonce(s.accounts, m);
    }
    hide AfterTransfer, TxHash, Rejection, Status, Wrap64, NonceFollowsLog, Sent;
    OneMoreReceipt(s, s', r, start, addr);
  }

  lemma NextNonce(m: Accounts, t: Transfer)
    requires Rejection(m, t).None?
    ensures t.nonce == Wrap64(Lookup(m, t.from).nonce + 1)
  {
  }

  /**
   * One more receipt in the log, and the account's nonce advanced exactly if it is an applied one of the account's own.
   */
  lemma OneMoreReceipt(s: State, s': State, r: Receipt, start: nat, addr: Bytes)
    requires NonceFollowsLog(start, s, addr) && s'.log == s.log + [r]
    requires Lookup(s'.accounts, addr).nonce
             == if SentBy(r, addr) then Wrap64(Lookup(s.accounts, addr).nonce + 1) else Lookup(s.accounts, addr).nonce
    requires SentBy(r, addr) ==> r.nonce == Wrap64(Lookup(s.accounts, addr).nonce + 1)
    ensures NonceFollowsLog(start, s', addr)
  {
    hide SentBy, Wrap64;
    SentExtend(s.log, r, addr);
    WrapTwice(start + |Sent(s.log, addr)|, 1);
    hide Sent;
  }

  lemma TouchKeepsNonces(s: State, touched: Bytes, start: nat, addr: Bytes)
    requires NonceFollowsLog(start, s, addr)
    ensures NonceFollowsLog(start, s.(accounts := Touch(s.accounts, touched)), addr)
  {
    hide Wrap64;
  }

  lemma ServeKeepsNonces(cfg: Config, n: Node, r: Request, start: nat, addr: Bytes)
    requires NonceFollowsLog(start, n.chain, addr)
    ensures NonceFollowsLog(start, Serve(cfg, n, r).chain, addr)
  {
    hide NonceFollowsLog, PassesPrecheck, Config.Address;
    match r
    case Post(tx, otherChecks, now) =>
      if PassesPrecheck(cfg, tx, n.chain.height) && otherChecks {
        ApplyAndStoreKeepsNonces(cfg, n.chain, Posted(tx), now, start, addr);
      }
    case Approve(id, actor, feeMas, devFree, now) =>
      if ActsOn(cfg, n, id, actor, false) {
        ApproveKeepsNonces(cfg, n, r, start, addr);
      }
    case Balance(a) => TouchKeepsNonces(n.chain, a, start, addr);
    case CommitNow(now) => CommitKeepsNonces(cfg.env, n.chain, now, start, addr);
    case _ =>
  }

  lemma CommitKeepsNonces(env: Env, s: State, now: int, start: nat, addr: Bytes)
    requires NonceFollowsLog(start, s, addr)
    ensures NonceFollowsLog(start, CommitRound(env, s, now), addr)
  {
    hide CommitRound, Wrap64;
    CommitKeepsAccounts(env, s, now);
  }

  lemma RejectedKeepsNonces(cfg: Config, s: State, t: Transfer, start: nat, addr: Bytes)
    requires NonceFollowsLog(start, s, addr) && Rejection(s.accounts, t).Some?
    ensures NonceFollowsLog(start, s.(accounts := AfterTransfer(s.accounts, cfg.feeReceiver, t)), addr)
  {
    RejectedTransferEffect(s.accounts, cfg.feeReceiver, t, addr);
    hide Wrap64, AfterTransfer;
  }

  lemma ApproveKeepsNonces(cfg: Config, n: Node, r: Request, start: nat, addr: Bytes)
    requires r.Approve? && ActsOn(cfg, n, r.id, r.actor, false) && NonceFollowsLog(start, n.chain, addr)
    ensures NonceFollowsLog(start, ApproveRecord(cfg, n, r).chain, addr)
  {
    var rec := n.store[r.id];
    var t := Approval(cfg, n, rec, r.feeMas);
    var touched := n.chain.(accounts := Touch(n.chain.accounts, rec.to));
    hide NonceFollowsLog, AfterTransfer, ApplyAndStore, Rejection, Approval;
    TouchKeepsNonces(n.chain, rec.to, start, addr);
    ApplyAndStoreKeepsNonces(cfg, touched, t, r.now, start, addr);
    if Rejection(touched.accounts, Moves(t)).Some? {
      RejectedKeepsNonces(cfg, touched, Moves(t), start, addr);
    }
  }

  /** Nonce discipline over every run of the node. */
  lemma {:induction false} NoncesFollowLog(cfg: Config, accounts: Accounts, rs: seq<Request>, addr: Bytes)
    ensures NonceFollowsLog(Lookup(accounts, addr).nonce, ServeAll(cfg, Start(accounts), rs).chain, addr)
  {
    if rs == [] {
      WrapOfUint64(Lookup(accounts, addr).nonce);
    } else {
      hide Serve, NonceFollowsLog;
      var k := |rs| - 1;
      NoncesFollowLog(cfg, accounts, rs[..k], addr);
      ServeKeepsNonces(cfg, ServeAll(cfg, Start(accounts), rs[..k]), rs[k], Lookup(accounts, addr).nonce, addr);
    }
  }

  /** No sender's nonce is applied twice in fewer than 2^64 of its transfers. */
  lemma NoNonceTwice(cfg: Config, accounts: Accounts, rs: seq<Request>, addr: Bytes, i: nat, j: nat)
    requires i < j < |Sent(ServeAll(cfg, Start(accounts), rs).chain.log, addr)| && j - i < TWO_64
    ensures var sent := Sent(ServeAll(cfg, Start(accounts), rs).chain.log, addr); sent[i].nonce != sent[j].nonce
  {
    hide ServeAll, Sent;
    NoncesFollowLog(cfg, accounts, rs, addr);
    WrapsApart(Lookup(accounts, addr).nonce + i + 1, j - i);
  }

  lemma WrapsApart(a: nat, d: nat)
    requires 0 < d < TWO_64
    ensures Wrap64(a) != Wrap64(a + d)
  {
    var q := a / TWO_64;
    assert a + d == q * TWO_64 + (Wrap64(a) + d);
  }

  // ---------- Payment requests ----------

  /** Drawn ids are new. */
  predicate FreshId(n: Node, r: Request) {
    r.Create? ==> r.newId !in n.store
  }

  ghost predicate FreshIds(cfg: Config, n: Node, rs: seq<Request>) {
    forall k :: 0 <= k < |rs| ==> FreshId(ServeAll(cfg, n, rs[..k]), rs[k])
  }

  /** A record keeps its terms, and once it is no longer open it keeps everything. */
  predicate Continues(a: Record, b: Record) {
    && a.id == b.id && a.from == b.from && a.to == b.to && a.amountMas == b.amountMas && a.memo == b.memo
    && a.createdUtc == b.createdUtc
    && (a.status != Open ==> a == b)
  }

  lemma ServeContinues(cfg: Config, n: Node, r: Request, id: Bytes)
    requires FreshId(n, r) && id in n.store
    ensures id in Serve(cfg, n, r).store && Continues(n.store[id], Serve(cfg, n, r).store[id])
  {
    hide ApplyAndStore, AfterTransfer, Approval, CommitRound, PassesPrecheck, Config.Address, Touch;
  }

  lemma ServeAllSplit(cfg: Config, n: Node, rs: seq<Request>, k: nat)
    requires k < |rs|
    ensures ServeAll(cfg, n, rs[..k + 1]) == Serve(cfg, ServeAll(cfg, n, rs[..k]), rs[k])
  {
    hide Serve;
    assert rs[..k + 1][..k] == rs[..k];
  }

  /** Over any stretch of a run a record leaves open at most once and never changes afterwards. */
  lemma {:induction false} RecordSettlesOnce(cfg: Config, n: Node, rs: seq<Request>, early: nat, late: nat, id: Bytes)
    requires FreshIds(cfg, n, rs) && early <= late <= |rs|
    requires id in ServeAll(cfg, n, rs[..early]).store
    ensures id in ServeAll(cfg, n, rs[..late]).store
    ensures Continues(ServeAll(cfg, n, rs[..early]).store[id], ServeAll(cfg, n, rs[..late]).store[id])
    decreases late
  {
    hide Serve, ServeAll;
    if early < late {
      RecordSettlesOnce(cfg, n, rs, early, late - 1, id);
      ServeAllSplit(cfg, n, rs, late - 1);
      assert FreshId(ServeAll(cfg, n, rs[..late - 1]), rs[late - 1]);
      ServeContinues(cfg, ServeAll(cfg, n, rs[..late - 1]), rs[late - 1], id);
    }
  }

  /** The payer's balance reaches amount plus fee, as the ledger compares them. */
  predicate Covers(cfg: Config, n: Node, rec: Record, feeMas: int64) {
    Lookup(n.chain.accounts, rec.to).balance >= Wrap64(rec.amountMas + ApprovalFee(cfg, rec, feeMas))
  }

  /** The requests that close an open record. */
  predicate Closes(cfg: Config, n: Node, r: Request, id: Bytes)
    requires id in n.store
  {
    var rec := n.store[id];
    && id != [] && rec.status == Open
    && match r
       case Approve(k, actor, feeMas, devFree, _) => k == id && SpeaksFor(cfg, actor, rec.to)
           && (devFree || Covers(cfg, n, rec, feeMas))
       case Decline(k, actor, _) => k == id && SpeaksFor(cfg, actor, rec.to)
       case Cancel(k, actor, _) => k == id && SpeaksFor(cfg, actor, rec.from)
       case _ => false
  }

  function ClosedAs(r: Request): R2pStatus {
    if r.Approve? then Paid else if r.Decline? then Declined else Canceled
  }

  /** The nonce of an approval always fits, so only the balance can reject it. */
  lemma ApprovalRejection(cfg: Config, n: Node, rec: Record, feeMas: int64)
    ensures Rejection(Touch(n.chain.accounts, rec.to), Moves(Approval(cfg, n, rec, feeMas)))
            == if Covers(cfg, n, rec, feeMas) then None else Some(InsufficientFunds)
  {
    hide Wrap64, ApprovalFee;
  }

  /** Closing sets the status, its own time and the hash; the other times and all terms stay. */
  predicate ClosedFrom(a: Record, b: Record, r: Request) {
    match r
    case Approve(_, _, _, _, now) => b == a.(status := Paid, paidUtc := now, txHash := b.txHash)
    case Decline(_, _, now) => b == a.(status := Declined, declinedUtc := now, txHash := [])
    case Cancel(_, _, now) => b == a.(status := Canceled, canceledUtc := now, txHash := [])
    case _ => false
  }

  /** A request closes a record exactly under the condition of Closes, and otherwise leaves it as it is. */
  lemma ServeClosesIff(cfg: Config, n: Node, r: Request, id: Bytes)
    requires FreshId(n, r) && id in n.store
    ensures id in Serve(cfg, n, r).store
    ensures Serve(cfg, n, r).store[id].status == if Closes(cfg, n, r, id) then ClosedAs(r) else n.store[id].status
    ensures Closes(cfg, n, r, id) ==> ClosedFrom(n.store[id], Serve(cfg, n, r).store[id], r)
    ensures !Closes(cfg, n, r, id) ==> Serve(cfg, n, r).store[id] == n.store[id]
  {
    hide ApplyAndStore, AfterTransfer, Approval, CommitRound, PassesPrecheck, Config.Address, Touch, Rejection,
        Covers, TxHash, SettlementOf;
    if r.Approve? {
      ApprovalRejection(cfg, n, n.store[id], r.feeMas);
    }
  }

  ghost predicate ClosedBetween(cfg: Config, n: Node, rs: seq<Request>, early: nat, late: nat, id: Bytes)
    requires late <= |rs|
  {
    exists k :: early <= k < late && id in ServeAll(cfg, n, rs[..k]).store
        && Closes(cfg, ServeAll(cfg, n, rs[..k]), rs[k], id)
  }

  /** Over any stretch of a run an open record ends up closed exactly when one of the requests in between closes it. */
  lemma {:induction false} RecordClosedIff(cfg: Config, n: Node, rs: seq<Request>, early: nat, late: nat, id: Bytes)
    requires FreshIds(cfg, n, rs) && early <= late <= |rs|
    requires id in ServeAll(cfg, n, rs[..early]).store && ServeAll(cfg, n, rs[..early]).store[id].status == Open
    ensures id in ServeAll(cfg, n, rs[..late]).store
    ensures ServeAll(cfg, n, rs[..late]).store[id].status != Open <==> ClosedBetween(cfg, n, rs, early, late, id)
    decreases late
  {
    hide Serve, ServeAll, Closes;
    if early < late {
      RecordClosedIff(cfg, n, rs, early, late - 1, id);
      var before, r := ServeAll(cfg, n, rs[..late - 1]), rs[late - 1];
      ServeAllSplit(cfg, n, rs, late - 1);
      assert FreshId(before, r);
      ServeClosesIff(cfg, before, r, id);
      ClosedStays(cfg, before, r, id);
    }
  }

  lemma ClosedStays(cfg: Config, n: Node, r: Request, id: Bytes)
    requires id in n.store
    ensures n.store[id].status != Open ==> !Closes(cfg, n, r, id)
    ensures ClosedAs(r) != Open
  {
  }

  /** Nobody need be named: an unnamed caller closes any open record whose party has an address of the ordinary form. */
  lemma UnnamedActorCloses(cfg: Config, n: Node, id: Bytes, now: int)
    requires id != [] && id in n.store && n.store[id].status == Open
    ensures var rec := n.store[id];
            && (cfg.Address(rec.to) == Some(rec.to) ==>
                  && Serve(cfg, n, Decline(id, [], now)).store[id].status == Declined
                  && (Covers(cfg, n, rec, 0)
                      ==> Serve(cfg, n, Approve(id, [], 0, false, now)).store[id].status == Paid))
            && (cfg.Address(rec.from) == Some(rec.from)
                ==> Serve(cfg, n, Cancel(id, [], now)).store[id].status == Canceled)
  {
    ServeClosesIff(cfg, n, Decline(id, [], now), id);
    ServeClosesIff(cfg, n, Cancel(id, [], now), id);
    ServeClosesIff(cfg, n, Approve(id, [], 0, false, now), id);
    hide Serve, Covers, Config.Address;
  }

  /** The record was paid by a transfer, not by developer mode. */
  predicate PaidByTransfer(rec: Record) {
    rec.status == Paid && !IsDevHash(rec.txHash)
  }

  /** An applied receipt of the record's hash and terms, at the fee and nonce of its approval. */
  predicate Settles(receipt: Receipt, rec: Record, paidBy: Settlement) {
    && receipt.status == "applied" && receipt.txHash == rec.txHash
    && receipt.from == rec.to && receipt.to == rec.from && receipt.amount == rec.amountMas
    && receipt.fee == paidBy.fee >= 1 && receipt.nonce == paidBy.nonce
  }

  predicate IsSettled(n: Node, id: Bytes)
    requires id in n.store
  {
    && id in n.settled && n.settled[id].position < |n.chain.log|
    && Settles(n.chain.log[n.settled[id].position], n.store[id], n.settled[id])
  }

  /** Every record paid by a transfer has its own applied receipt in the log. */
  ghost predicate SettledInv(n: Node) {
    && (forall id :: id in n.store ==> n.store[id].id == id)
    && (forall id :: id in n.store && PaidByTransfer(n.store[id]) ==> IsSettled(n, id))
    && (forall a, b ::
          a in n.store && b in n.store && a != b && PaidByTransfer(n.store[a]) && PaidByTransfer(n.store[b])
          ==> a in n.settled && b in n.settled && n.settled[a].position != n.settled[b].position)
  }

  lemma LongerLogKeepsSettled(n: Node, n': Node)
    requires SettledInv(n) && n'.settled == n.settled && n.chain.log <= n'.chain.log
    requires forall id :: id in n'.store ==> n'.store[id].id == id
    requires forall id ::
               id in n'.store && PaidByTransfer(n'.store[id]) ==> id in n.store && n.store[id] == n'.store[id]
    ensures SettledInv(n')
  {
    hide IsDevHash;
    forall id | id in n'.store && PaidByTransfer(n'.store[id]) ensures IsSettled(n', id) {
      assert IsSettled(n, id);
      assert n'.chain.log[n.settled[id].position] == n.chain.log[n.settled[id].position];
    }
  }

  lemma NewSettlement(n: Node, n': Node, id: Bytes, rec: Record, paidBy: Settlement)
    requires SettledInv(n) && id in n.store && n.store[id].status == Open && rec.id == id
    requires n'.store == n.store[id := rec] && n'.settled == n.settled[id := paidBy] && paidBy.position == |n.chain.log|
    requires |n'.chain.log| == |n.chain.log| + 1 && n.chain.log <= n'.chain.log
    requires Settles(n'.chain.log[|n.chain.log|], rec, paidBy)
    ensures SettledInv(n')
  {
    hide IsDevHash, Settles;
    forall k | k in n'.store && PaidByTransfer(n'.store[k])
      ensures IsSettled(n', k) && (k != id ==> n'.settled[k].position < |n.chain.log|)
    {
      if k != id {
        assert IsSettled(n, k);
        assert n'.chain.log[n.settled[k].position] == n.chain.log[n.settled[k].position];
      }
    }
  }

  /** The receipt of a transfer, applied or rejected, and the reason it gives. */
  lemma TransferRecorded(cfg: Config, s: State, t: TxTransfer, now: int)
    ensures var log := ApplyAndStore(cfg, s, t, now).log;
            var rejection := Rejection(s.accounts, Moves(t));
            var reason := if rejection == Some(BadNonce) then "apply:bad_nonce"
                          else if rejection == Some(InsufficientFunds) then "apply:insufficient_funds" else "";
            && |log| == |s.log| + 1 && s.log <= log && log[|s.log|].txHash == TxHash(cfg.env, t)
            && Records(cfg.env, log[|s.log|], Store(t, rejection.None?, reason, now))
  {
    hide AfterTransfer, Rejection, Records, StoreReceipt;
    var rejection := Rejection(s.accounts, Moves(t));
    var s1 := s.(accounts := AfterTransfer(s.accounts, cfg.feeReceiver, Moves(t)));
    StoreRecords(cfg.env, s1, t, rejection.None?, if rejection.Some? then Reason(rejection.value) else "", now);
    RecordedHash(cfg.env, ApplyAndStore(cfg, s, t, now).log[|s.log|], t, Store(t, rejection.None?,
        if rejection.Some? then Reason(rejection.value) else "", now));
  }

  lemma RecordedHash(env: Env, r: Receipt, t: TxTransfer, e: Event)
    requires e.Store? && e.t == t && Records(env, r, e)
    ensures r.txHash == TxHash(env, t)
  {
  }

  lemma ApproveKeepsSettled(cfg: Config, n: Node, r: Request)
    requires r.Approve? && SettledInv(n)
    ensures SettledInv(ApproveRecord(cfg, n, r))
  {
    if ActsOn(cfg, n, r.id, r.actor, false) {
      var rec := n.store[r.id];
      var t := Approval(cfg, n, rec, r.feeMas);
      var touched := n.chain.(accounts := Touch(n.chain.accounts, rec.to));
      var n' := ApproveRecord(cfg, n, r);
      TransferRecorded(cfg, touched, t, r.now);
      hide ApplyAndStore, AfterTransfer, Rejection, Touch, Config.Address, ApprovalFee;
      if Rejection(touched.accounts, Moves(t)).None? {
        NewSettlement(n, n', r.id, rec.(status := Paid, paidUtc := r.now, txHash := TxHash(cfg.env, t)),
                      SettlementOf(cfg, n, rec, r.feeMas));
      } else {
        DevHashIsDev(rec.id);
        LongerLogKeepsSettled(n, n');
      }
    }
  }

  lemma DevHashIsDev(id: Bytes)
    ensures IsDevHash(DevHash(id))
  {
  }

  /** A real transaction hash is hexadecimal, so it never reads as a developer one. */
  lemma TxHashIsNotDev(env: Env, t: TxTransfer)
    ensures !IsDevHash(TxHash(env, t))
  {
    var h, dev := TxHash(env, t), Ascii("dev-");
    assert dev[2] == 118;
    assert |h| > 2 ==> h[2] in h;
  }

  lemma ServeKeepsSettled(cfg: Config, n: Node, r: Request)
    requires SettledInv(n) && FreshId(n, r)
    ensures SettledInv(Serve(cfg, n, r))
  {
    match r
    case Approve(_, _, _, _, _) => ApproveKeepsSettled(cfg, n, r);
    case Create(_, _, _, _, _, _) => ClosingKeepsSettled(cfg, n, r);
    case Decline(_, _, _) => ClosingKeepsSettled(cfg, n, r);
    case Cancel(_, _, _) => ClosingKeepsSettled(cfg, n, r);
    case _ => EngineKeepsSettled(cfg, n, r);
  }

  lemma ClosingKeepsSettled(cfg: Config, n: Node, r: Request)
    requires SettledInv(n) && FreshId(n, r) && (r.Create? || r.Decline? || r.Cancel?)
    ensures SettledInv(Serve(cfg, n, r))
  {
    hide IsDevHash, Config.Address;
    LongerLogKeepsSettled(n, Serve(cfg, n, r));
  }

  lemma EngineKeepsSettled(cfg: Config, n: Node, r: Request)
    requires SettledInv(n) && (r.Post? || r.Balance? || r.CommitNow?)
    ensures SettledInv(Serve(cfg, n, r))
  {
    if r.Post? {
      TransferRecorded(cfg, n.chain, Posted(r.tx), r.now);
    } else if r.CommitNow? {
      CommitKeepsAccounts(cfg.env, n.chain, r.now);
    }
    hide ApplyAndStore, PassesPrecheck, CommitRound, IsDevHash;
    LongerLogKeepsSettled(n, Serve(cfg, n, r));
  }

  /**
   * In every run with fresh ids each record paid outside developer mode has an applied receipt in the log with its
   * transaction hash, payer, payee and amount, and no two records share one.
   */
  lemma {:induction false} PaidRecordsHaveReceipts(cfg: Config, accounts: Accounts, rs: seq<Request>)
    requires FreshIds(cfg, Start(accounts), rs)
    ensures SettledInv(ServeAll(cfg, Start(accounts), rs))
  {
    hide Serve;
    if rs != [] {
      var k := |rs| - 1;
      assert rs == rs[..k + 1];
      assert FreshIds(cfg, Start(accounts), rs[..k]) by {
        forall j | 0 <= j < k ensures FreshId(ServeAll(cfg, Start(accounts), rs[..k][..j]), rs[..k][j]) {
          assert rs[..k][..j] == rs[..j];
          assert FreshId(ServeAll(cfg, Start(accounts), rs[..j]), rs[j]);
        }
      }
      PaidRecordsHaveReceipts(cfg, accounts, rs[..k]);
      assert FreshId(ServeAll(cfg, Start(accounts), rs[..k]), rs[k]);
      ServeKeepsSettled(cfg, ServeAll(cfg, Start(accounts), rs[..k]), rs[k]);
    }
  }

  // ---------- One request from end to end ----------

  /** A request by the payee's input to the payer's input, approved by the payer itself. */
  ghost function AfterApproval(cfg: Config, n: Node, create: Request, feeMas: int64, now: int): Node
    requires create.Create?
  {
    Serve(cfg, Serve(cfg, n, create), Approve(create.newId, [], feeMas, false, now))
  }

  predicate GoodRequest(cfg: Config, r: Request) {
    && r.Create? && r.newId != [] && r.amountMas > 0
    && cfg.resolve(r.payee).Some? && cfg.resolve(r.payer).Some?
    && cfg.Address(cfg.resolve(r.payer).value.0) == Some(cfg.resolve(r.payer).value.0)
  }

  /** The record of a good request: asked by the payee, of the payer, open since now, under the payee's alias if any. */
  lemma Created(cfg: Config, n: Node, r: Request)
    requires GoodRequest(cfg, r)
    ensures var n1 := Serve(cfg, n, r);
            && n1.chain == n.chain && r.newId in n1.store && ActsOn(cfg, n1, r.newId, [], false)
            && var (payee, alias, version) := cfg.resolve(r.payee).value;
               n1.store == n.store[r.newId := Record(r.newId, payee, cfg.resolve(r.payer).value.0, r.amountMas, r.memo,
                                                     Open, r.now, 0, 0, 0, [],
                                                     alias, if alias == [] then 0 else version)]
  {
  }

  /** Without two addresses and a positive amount nothing is created. */
  lemma RefusedCreate(cfg: Config, n: Node, r: Request)
    requires r.Create? && (cfg.resolve(r.payee).None? || cfg.resolve(r.payer).None? || r.amountMas <= 0)
    ensures Serve(cfg, n, r) == n
  {
  }

  /**
   * Approving an open request pays the payee from the payer, with the fee to the fee receiver, at any point of any run
   * and by whatever actor the handler accepts: balances move exactly when the payer covers amount and fee, the nonce
   * never fails, and the request becomes paid exactly then or in developer mode.
   */
  lemma ApprovalPaysPayee(cfg: Config, accounts: Accounts, rs: seq<Request>,
                          id: Bytes, actor: Bytes, feeMas: int64, devFree: bool, now: int, addr: Bytes)
    requires Total(accounts) < TWO_64 && cfg.feeReceiver != []
    requires ActsOn(cfg, ServeAll(cfg, Start(accounts), rs), id, actor, false)
    ensures var n := ServeAll(cfg, Start(accounts), rs);
            var n2 := Serve(cfg, n, Approve(id, actor, feeMas, devFree, now));
            var rec := n.store[id];
            var fee := if feeMas <= 0 then MinFee(rec.amountMas, cfg.feeBps) else feeMas;
            var covered := Lookup(n.chain.accounts, rec.to).balance >= rec.amountMas + fee;
            && id in n2.store && n2.store[id].status == (if covered || devFree then Paid else Open)
            && ApprovalAnswer(cfg.env, n, n2, id, fee, covered, devFree, now)
            && Lookup(n2.chain.accounts, addr).balance == Lookup(n.chain.accounts, addr).balance
               + if covered then If(addr == rec.from, rec.amountMas) + If(addr == cfg.feeReceiver, fee)
                   - If(addr == rec.to, rec.amountMas + fee)
                 else 0
  {
    hide Serve, ServeAll, Total, Config.Address, ApprovalAnswer;
    BalancesConserved(cfg, accounts, rs);
    ApprovalPays(cfg, ServeAll(cfg, Start(accounts), rs), id, actor, feeMas, devFree, now, addr);
  }

  lemma ApprovalPays(cfg: Config, n: Node, id: Bytes, actor: Bytes, feeMas: int64, devFree: bool, now: int, addr: Bytes)
    requires Total(n.chain.accounts) < TWO_64 && cfg.feeReceiver != [] && ActsOn(cfg, n, id, actor, false)
    requires n.store[id].amountMas < TWO_63
    ensures var n2 := Serve(cfg, n, Approve(id, actor, feeMas, devFree, now));
            var rec := n.store[id];
            var fee := ApprovalFee(cfg, rec, feeMas);
            var covered := Lookup(n.chain.accounts, rec.to).balance >= rec.amountMas + fee;
            && id in n2.store && n2.store[id].status == (if covered || devFree then Paid else Open)
            && ApprovalAnswer(cfg.env, n, n2, id, fee, covered, devFree, now)
            && Lookup(n2.chain.accounts, addr).balance == Lookup(n.chain.accounts, addr).balance
               + if covered then If(addr == rec.from, rec.amountMas) + If(addr == cfg.feeReceiver, fee)
                   - If(addr == rec.to, rec.amountMas + fee)
                 else 0
  {
    hide Total, Config.Address, ApprovalFee, Serve, AfterTransfer, Rejection, Approval, Covers;
    var rec := n.store[id];
    var t := Approval(cfg, n, rec, feeMas);
    var touched := Touch(n.chain.accounts, rec.to);
    ApprovalOutcome(cfg, n, id, actor, feeMas, devFree, now);
    ApprovalAnswered(cfg, n, id, actor, feeMas, devFree, now);
    hide ApprovalAnswer;
    ApprovalTerms(cfg, n, rec, feeMas);
    ApprovalRejection(cfg, n, rec, feeMas);
    TouchKeepsTotal(n.chain.accounts, rec.to);
    if Rejection(touched, Moves(t)).None? {
      TransferMovesExactly(touched, cfg.feeReceiver, Moves(t), addr);
    } else {
      RejectedTransferEffect(touched, cfg.feeReceiver, Moves(t), addr);
    }
  }

  /**
   * The receipt of an approval carries its terms, fee and nonce, applied exactly when covered; in developer mode an
   * uncovered one leaves none. The record keeps its terms and other times.
   */
  ghost predicate ApprovalAnswer(env: Env, n: Node, n2: Node, id: Bytes, fee: uint64, covered: bool, devFree: bool,
                                 now: int)
    requires id in n.store && id in n2.store
  {
    var rec, log, log2 := n.store[id], n.chain.log, n2.chain.log;
    var t := TxTransfer(1, rec.to, rec.from, rec.amountMas, fee, Wrap64(Lookup(n.chain.accounts, rec.to).nonce + 1),
                        Ascii("thomas-dev-1"), 0, []);
    if covered || !devFree then
      && |log2| == |log| + 1 && log <= log2
      && Records(env, log2[|log|], Store(t, covered, if covered then "" else "apply:insufficient_funds", now))
      && n2.store[id] == if covered then rec.(status := Paid, paidUtc := now, txHash := log2[|log|].txHash) else rec
    else
      log2 == log && n2.store[id] == rec.(status := Paid, paidUtc := now, txHash := Ascii("dev-") + rec.id)
  }

  lemma ApprovalAnswered(cfg: Config, n: Node, id: Bytes, actor: Bytes, feeMas: int64, devFree: bool, now: int)
    requires ActsOn(cfg, n, id, actor, false)
    ensures var n2 := Serve(cfg, n, Approve(id, actor, feeMas, devFree, now));
            var fee, covered := ApprovalFee(cfg, n.store[id], feeMas), Covers(cfg, n, n.store[id], feeMas);
            id in n2.store && ApprovalAnswer(cfg.env, n, n2, id, fee, covered, devFree, now)
  {
    hide ApplyAndStore, AfterTransfer, Rejection, Touch, Config.Address, Covers, ApprovalFee, SettlementOf, Records;
    var rec := n.store[id];
    var t := Approval(cfg, n, rec, feeMas);
    ApprovalRejection(cfg, n, rec, feeMas);
    TransferRecorded(cfg, n.chain.(accounts := Touch(n.chain.accounts, rec.to)), t, now);
  }

  lemma ApprovalOutcome(cfg: Config, n: Node, id: Bytes, actor: Bytes, feeMas: int64, devFree: bool, now: int)
    requires ActsOn(cfg, n, id, actor, false)
    ensures var n2 := Serve(cfg, n, Approve(id, actor, feeMas, devFree, now));
            var touched, t := Touch(n.chain.accounts, n.store[id].to), Moves(Approval(cfg, n, n.store[id], feeMas));
            && n2.chain.accounts == AfterTransfer(touched, cfg.feeReceiver, t)
            && id in n2.store && n2.store[id].status == if Rejection(touched, t).None? || devFree then Paid else Open
  {
    ApprovalRejection(cfg, n, n.store[id], feeMas);
    hide AfterTransfer, TxHash, Rejection, Approval, Touch, Config.Address, Covers;
  }

  lemma ApprovalTerms(cfg: Config, n: Node, rec: Record, feeMas: int64)
    requires rec.amountMas < TWO_63
    ensures var t := Approval(cfg, n, rec, feeMas);
            && t.from == rec.to && t.to == rec.from && t.amount == rec.amountMas
                && t.fee == ApprovalFee(cfg, rec, feeMas)
            && t.amount + t.fee < TWO_64
            && (Covers(cfg, n, rec, feeMas) <==> Lookup(n.chain.accounts, rec.to).balance >= t.amount + t.fee)
  {
    hide ApprovalFee;
    var t := Approval(cfg, n, rec, feeMas);
    WrapOfUint64(t.amount + t.fee);
    hide Wrap64;
  }

  /** The same for a request just created, by the party it names as payer. */
  lemma RequestPaysPayee(cfg: Config, accounts: Accounts, rs: seq<Request>, r: Request, feeMas: int64, now: int,
                         addr: Bytes)
    requires Total(accounts) < TWO_64 && cfg.feeReceiver != [] && GoodRequest(cfg, r)
    ensures var n := ServeAll(cfg, Start(accounts), rs);
            var n2 := AfterApproval(cfg, n, r, feeMas, now);
            var payee, payer := cfg.resolve(r.payee).value.0, cfg.resolve(r.payer).value.0;
            var fee := if feeMas <= 0 then MinFee(r.amountMas, cfg.feeBps) else feeMas;
            var covered := Lookup(n.chain.accounts, payer).balance >= r.amountMas + fee;
            && r.newId in n2.store && n2.store[r.newId].status == (if covered then Paid else Open)
            && Lookup(n2.chain.accounts, addr).balance == Lookup(n.chain.accounts, addr).balance
               + if covered then If(addr == payee, r.amountMas) + If(addr == cfg.feeReceiver, fee)
                   - If(addr == payer, r.amountMas + fee)
                 else 0
  {
    assert r.Create?;
    hide Serve, ServeAll, Total, GoodRequest, Config.Address;
    var n := ServeAll(cfg, Start(accounts), rs);
    BalancesConserved(cfg, accounts, rs);
    Created(cfg, n, r);
    ApprovalPays(cfg, Serve(cfg, n, r), r.newId, [], feeMas, false, now, addr);
  }

  /**
   * Below the floor all the same: at 25 basis points a request for 800 has a floor of two, and is paid at a fee of one.
   */
  lemma UnderpricedApprovalPaid(cfg: Config, r: Request, now: int)
    requires cfg.feeBps == 25 && cfg.feeReceiver != [] && GoodRequest(cfg, r) && r.amountMas == 800
    ensures var payer := cfg.resolve(r.payer).value.0;
            var n := Start(map[payer := Account(801, 0)]);
            var n1 := Serve(cfg, n, r);
            && r.newId in n1.store && ApprovalFee(cfg, n1.store[r.newId], 1) == 1 && MinFee(800, cfg.feeBps) == 2
            && AfterApproval(cfg, n, r, 1, now).store[r.newId].status == Paid
  {
    var payer := cfg.resolve(r.payer).value.0;
    var m: Accounts := map[payer := Account(801, 0)];
    TotalUpdate(map[], payer, Account(801, 0));
    assert r.Create? && ServeAll(cfg, Start(m), []) == Start(m);
    FloorOfTwo();
    Created(cfg, Start(m), r);
    hide Serve, ServeAll, Total, GoodRequest, Config.Address, MinFee;
    RequestPaysPayee(cfg, m, [], r, 1, now, payer);
  }

  lemma FloorOfTwo()
    ensures MinFee(800, 25) == 2
  {
  }
}
