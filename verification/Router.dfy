/**
 * internal/rpc/router.go on values: posting a transaction and the life of a payment request (R2P), one handler at a
 * time.
 */
module Router {
  import opened Common
  import opened Text
  import opened Ledger
  import opened Chain

  // ---------- The transaction pre-check ----------

  datatype TxPre = TxPre(
    kind: int, from: Bytes, to: Bytes, amountMas: int64, feeMas: int64, nonce: int64,
    chainId: Bytes, expiryHeight: int64, msgCommitment: Bytes)

  datatype Config = Config(
    env: Env, feeReceiver: Bytes, feeBps: nat,
    resolve: Bytes -> Option<(Bytes, Bytes, int)>)
  {
    /** The address an input names; aliases are looked up by a parameter. */
    function Address(input: Bytes): Option<Bytes> {
      match resolve(input)
      case None => None
      case Some((addr, _, _)) => if addr == [] then None else Some(addr)
    }
  }

  /** The fee floor for a posted amount, as the handler compares it. */
  function ExpectedFee(amountMas: int64, feeBps: nat): (fee: int64)
    ensures 1 <= fee
  {
    MinFee(if amountMas > 0 then amountMas else 1, feeBps)
  }

  function Tho1(): Bytes {
    Ascii("tho1")
  }

  predicate BadChain(tx: TxPre) {
    tx.chainId != [] && tx.chainId != Ascii(CHAIN_ID)
  }

  predicate BadAddress(tx: TxPre) {
    |tx.from| < 4 || |tx.to| < 4 || tx.from[..4] != Tho1() || tx.to[..4] != Tho1()
  }

  predicate Expired(tx: TxPre, height: nat) {
    tx.expiryHeight > 0 && tx.expiryHeight <= height
  }

  predicate PassesPrecheck(cfg: Config, tx: TxPre, height: nat) {
    && !BadChain(tx) && tx.amountMas > 0 && tx.feeMas >= ExpectedFee(tx.amountMas, cfg.feeBps)
    && !BadAddress(tx) && !Expired(tx, height)
  }

  /** The pre-check in plain terms. */
  lemma PrecheckSpelled(cfg: Config, tx: TxPre, height: nat)
    ensures PassesPrecheck(cfg, tx, height)
            <==> && (tx.chainId == [] || tx.chainId == Ascii("thomas-dev-1"))
                 && tx.amountMas > 0 && tx.feeMas >= MinFee(tx.amountMas, cfg.feeBps)
                 && Ascii("tho1") <= tx.from && Ascii("tho1") <= tx.to
                 && (tx.expiryHeight <= 0 || height < tx.expiryHeight)
  {
    assert |tx.from| >= 4 ==> (tx.from[..4] == Tho1() <==> Tho1() <= tx.from);
    assert |tx.to| >= 4 ==> (tx.to[..4] == Tho1() <==> Tho1() <= tx.to);
    hide MinFee;
  }

  /** Collects every complaint; the request goes on exactly when there is none. */
  method Precheck(cfg: Config, tx: TxPre, height: nat) returns (errs: seq<string>)
    ensures errs == [] <==> PassesPrecheck(cfg, tx, height)
    ensures forall e :: e in errs <==>
              || (e == "bad_chain_id" && BadChain(tx))
              || (e == "amount_le_0" && tx.amountMas <= 0)
              || (e == "fee_below_min" && tx.feeMas < ExpectedFee(tx.amountMas, cfg.feeBps))
              || (e == "addr_format" && BadAddress(tx))
              || (e == "expired_height" && Expired(tx, height))
  {
    hide ExpectedFee, BadChain, BadAddress, Expired;
    errs := [];
    if BadChain(tx) {
      errs := errs + ["bad_chain_id"];
    }
    if tx.amountMas <= 0 {
      errs := errs + ["amount_le_0"];
    }
    if tx.feeMas < ExpectedFee(tx.amountMas, cfg.feeBps) {
      errs := errs + ["fee_below_min"];
    }
    if BadAddress(tx) {
      errs := errs + ["addr_format"];
    }
    if Expired(tx, height) {
      errs := errs + ["expired_height"];
    }
  }

  /** The transfer of a posted transaction; the signed fields are read as unsigned. */
  function Posted(tx: TxPre): TxTransfer {
    TxTransfer(tx.kind, tx.from, tx.to, Wrap64(tx.amountMas), Wrap64(tx.feeMas), Wrap64(tx.nonce),
               tx.chainId, Wrap64(tx.expiryHeight), [])
  }

  function Moves(t: TxTransfer): Transfer {
    Transfer(t.from, t.to, t.amount, t.fee, t.nonce)
  }

  function Reason(e: TransferError): string {
    match e
    case BadNonce => "apply:bad_nonce"
    case InsufficientFunds => "apply:insufficient_funds"
  }

  /** Apply a transfer and store its receipt, applied or rejected. */
  function ApplyAndStore(cfg: Config, s: State, t: TxTransfer, now: int): State {
    var rejection := Rejection(s.accounts, Moves(t));
    var s1 := s.(accounts := AfterTransfer(s.accounts, cfg.feeReceiver, Moves(t)));
    if rejection.Some? then StoreReceipt(cfg.env, s1, t, false, Reason(rejection.value), now)
    else StoreReceipt(cfg.env, s1, t, true, "", now)
  }

  // ---------- Payment requests ----------

  datatype R2pStatus = Open | Paid | Declined | Canceled

  /** from is the payee who asks, to the payer who is asked. */
  datatype Record = Record(
    id: Bytes, from: Bytes, to: Bytes, amountMas: uint64, memo: Bytes, status: R2pStatus,
    createdUtc: int, paidUtc: int, declinedUtc: int, canceledUtc: int, txHash: Bytes, aliasName: Bytes,
        aliasVersion: int)

  /** Where in the log a record was paid, at what fee and with which of the payer's nonces. */
  datatype Settlement = Settlement(position: nat, fee: uint64, nonce: uint64)

  /** settled is history: what paid each record. */
  datatype Node = Node(chain: State, store: map<Bytes, Record>, settled: map<Bytes, Settlement>)

  datatype Request =
    | Post(tx: TxPre, otherChecks: bool, now: int)
    | Create(payee: Bytes, payer: Bytes, amountMas: int64, memo: Bytes, newId: Bytes, now: int)
    | Approve(id: Bytes, actor: Bytes, feeMas: int64, devFree: bool, now: int)
    | Decline(id: Bytes, actor: Bytes, now: int)
    | Cancel(id: Bytes, actor: Bytes, now: int)
    | Balance(addr: Bytes)
    | CommitNow(now: int)

  function CreateRecord(cfg: Config, n: Node, r: Request): Node
    requires r.Create?
  {
    var payee, payer := cfg.resolve(r.payee), cfg.resolve(r.payer);
    if payee.None? || payer.None? || r.amountMas <= 0 then n else
    var (addr, name, version) := payee.value;
    var rec := Record(r.newId, addr, payer.value.0, r.amountMas, r.memo, Open, r.now, 0, 0, 0, [],
                      name, if name == [] then 0 else version);
    n.(store := n.store[r.newId := rec])
  }

  /** The address that must be named: the payee to cancel, the payer to approve or decline. */
  function Party(rec: Record, asPayee: bool): Bytes {
    if asPayee then rec.from else rec.to
  }

  /**
   * The handlers take an actor for a party when it resolves to it, or when none is named and the party's own address
   * does.
   */
  predicate SpeaksFor(cfg: Config, actor: Bytes, party: Bytes) {
    cfg.Address(if actor == [] then party else actor) == Some(party)
  }

  /** In plain terms: the input resolves to that very address, which is not empty. */
  lemma SpeaksForSpelled(cfg: Config, actor: Bytes, party: Bytes)
    ensures SpeaksFor(cfg, actor, party)
            <==> && party != []
                 && var found := cfg.resolve(if actor != [] then actor else party);
                    found.Some? && found.value.0 == party
  {
  }

  /** A handler acts on a record that is known and open, for the right party. */
  predicate ActsOn(cfg: Config, n: Node, id: Bytes, actor: Bytes, asPayee: bool) {
    && id != [] && id in n.store && n.store[id].status == Open
    && SpeaksFor(cfg, actor, Party(n.store[id], asPayee))
  }

  function ApprovalFee(cfg: Config, rec: Record, feeMas: int64): (fee: uint64)
    ensures 1 <= fee < TWO_63
  {
    if feeMas <= 0 then MinFee(rec.amountMas, cfg.feeBps) else feeMas
  }

  /** Only an explicit fee can miss the floor: it is taken as it is. */
  lemma ApprovalReachesFloorIff(cfg: Config, rec: Record, feeMas: int64)
    ensures ApprovalFee(cfg, rec, feeMas) >= MinFee(rec.amountMas, cfg.feeBps)
            <==> feeMas <= 0 || feeMas >= MinFee(rec.amountMas, cfg.feeBps)
  {
  }

  /** The transfer an approval makes, with the payer's next nonce. */
  function Approval(cfg: Config, n: Node, rec: Record, feeMas: int64): TxTransfer {
    TxTransfer(1, rec.to, rec.from, rec.amountMas, ApprovalFee(cfg, rec, feeMas),
               Wrap64(Lookup(n.chain.accounts, rec.to).nonce + 1), Ascii(CHAIN_ID), 0, [])
  }

  function SettlementOf(cfg: Config, n: Node, rec: Record, feeMas: int64): Settlement {
    Settlement(|n.chain.log|, ApprovalFee(cfg, rec, feeMas), Wrap64(Lookup(n.chain.accounts, rec.to).nonce + 1))
  }

  function DevHash(id: Bytes): Bytes {
    Ascii("dev-") + id
  }

  predicate IsDevHash(hash: Bytes) {
    Ascii("dev-") <= hash
  }

  function ApproveRecord(cfg: Config, n: Node, r: Request): Node
    requires r.Approve?
  {
    if !ActsOn(cfg, n, r.id, r.actor, false) then n else
    var rec := n.store[r.id];
    var t := Approval(cfg, n, rec, r.feeMas);
    var touched := n.chain.(accounts := Touch(n.chain.accounts, rec.to));
    if r.devFree && Rejection(touched.accounts, Moves(t)) == Some(InsufficientFunds) then
      n.(chain := touched.(accounts := AfterTransfer(touched.accounts, cfg.feeReceiver, Moves(t))),
         store := n.store[r.id := rec.(status := Paid, paidUtc := r.now, txHash := DevHash(rec.id))])
    else
      var paid := Rejection(touched.accounts, Moves(t)).None?;
      Node(ApplyAndStore(cfg, touched, t, r.now),
           if paid then n.store[r.id := rec.(status := Paid, paidUtc := r.now, txHash := TxHash(cfg.env, t))]
               else n.store,
           if paid then n.settled[r.id := SettlementOf(cfg, n, rec, r.feeMas)] else n.settled)
  }

  function DeclineRecord(cfg: Config, n: Node, r: Request): Node
    requires r.Decline?
  {
    if !ActsOn(cfg, n, r.id, r.actor, false) then n
    else n.(store := n.store[r.id := n.store[r.id].(status := Declined, declinedUtc := r.now, txHash := [])])
  }

  function CancelRecord(cfg: Config, n: Node, r: Request): Node
    requires r.Cancel?
  {
    if !ActsOn(cfg, n, r.id, r.actor, true) then n
    else n.(store := n.store[r.id := n.store[r.id].(status := Canceled, canceledUtc := r.now, txHash := [])])
  }

  function PostTx(cfg: Config, n: Node, r: Request): Node
    requires r.Post?
  {
    if PassesPrecheck(cfg, r.tx, n.chain.height) && r.otherChecks
    then n.(chain := ApplyAndStore(cfg, n.chain, Posted(r.tx), r.now))
    else n
  }

  ghost function Serve(cfg: Config, n: Node, r: Request): Node {
    match r
    case Post(_, _, _) => PostTx(cfg, n, r)
    case Create(_, _, _, _, _, _) => CreateRecord(cfg, n, r)
    case Approve(_, _, _, _, _) => ApproveRecord(cfg, n, r)
    case Decline(_, _, _) => DeclineRecord(cfg, n, r)
    case Cancel(_, _, _) => CancelRecord(cfg, n, r)
    case Balance(addr) => n.(chain := n.chain.(accounts := Touch(n.chain.accounts, addr)))
    case CommitNow(now) => n.(chain := CommitRound(cfg.env, n.chain, now))
  }

  ghost function ServeAll(cfg: Config, n: Node, rs: seq<Request>): Node {
    if rs == [] then n else Serve(cfg, ServeAll(cfg, n, rs[..|rs| - 1]), rs[|rs| - 1])
  }

  function Start(accounts: Accounts): Node {
    Node(Genesis(accounts), map[], map[])
  }
}
