/** internal/app and internal/types on values: receipts, rounds, headers, supply and the commit cache. */
module Chain {
  import opened Common
  import opened Text
  import opened Ledger
  import opened Merkle
  import opened StateRoot
  import opened Cbor
  import Rewards

  // ---------- Records ----------

  datatype TxTransfer = TxTransfer(
    kind: int, from: Bytes, to: Bytes, amount: uint64, fee: uint64, nonce: uint64,
    chainId: Bytes, expiryHeight: uint64, msgCommit: Bytes)

  datatype Receipt = Receipt(
    txHash: Bytes, from: Bytes, to: Bytes, amount: uint64, fee: uint64, nonce: uint64,
    status: string, height: nat, timeUtc: int)

  datatype RoundHeader = RoundHeader(
    round: nat, fromHeight: nat, toHeight: nat, txCount: nat, root: Bytes, timeUtc: int, signatureHex: Bytes)

  datatype EternityHeader = EternityHeader(
    version: uint32, chainId: Bytes, height: nat, round: uint32, timeUtc: int, prevHash: Digest,
    stateRoot: Digest, txRoot: Digest, receiptsRoot: Digest, commitRoot: Digest, proposerPubKey: Digest,
    emissionEpoch: nat, consensusParamsHash: Digest, feeRoot: Digest, extraData: Bytes)

  datatype CommitBundle = CommitBundle(round: uint32, quorumHash: Digest, bitmap: Bytes, step: byte,
      aggregateSig: Bytes)

  datatype CommitRecord = CommitRecord(height: nat, root: Digest, bundle: CommitBundle)

  datatype SupplyState = SupplyState(
    totalMinted: uint64, networkVault: uint64, foundationVault: uint64, exchangeVault: uint64, lastHeight: nat)

  /**
   * Foreign code and the node's own keys: hashes, encoders, the emission curve, the signature, the score table's
   * digest.
   */
  datatype Env = Env(
    blake3: Hasher, sha256: Hasher, cbor: Encoder,
    transferJson: TxTransfer -> Bytes, receiptJson: Receipt -> Bytes,
    supplyJson: SupplyState -> Bytes, parseSupply: Bytes -> Option<SupplyState>,
    blockMintAt: nat -> uint64, scoresDigest: map<Bytes, Bytes> -> Digest,
    sign: RoundHeader -> Bytes, pub: Bytes, priv: Bytes)
  {
    /** The encoders lose nothing. */
    ghost predicate Faithful() {
      Injective(cbor) && forall s {:trigger supplyJson(s)} :: parseSupply(supplyJson(s)) == Some(s)
    }

    predicate HasKeys() {
      |pub| == 32 && |priv| == 64
    }
  }

  const CHAIN_ID := "thomas-dev-1"
  const HEADER_VERSION: uint32 := 1
  const FEED_LIMIT := 64

  // ---------- Hashes of records ----------

  function TxHash(env: Env, t: TxTransfer): Bytes {
    Hex(env.sha256(env.transferJson(t)))
  }

  function HeaderItem(h: EternityHeader): Item {
    Array([Int(h.version), Item.Text(h.chainId), Int(h.height), Int(h.round), Int(h.timeUtc), Bin(h.prevHash),
           Bin(h.stateRoot), Bin(h.txRoot), Bin(h.receiptsRoot), Bin(h.commitRoot), Bin(h.proposerPubKey),
           Int(h.emissionEpoch), Bin(h.consensusParamsHash), Bin(h.feeRoot), Bin(h.extraData)])
  }

  function HeaderHash(env: Env, h: EternityHeader): Digest {
    env.blake3(env.cbor(HeaderItem(h)))
  }

  function BundleItem(b: CommitBundle): Item {
    Array([Int(b.round), Bin(b.quorumHash), Bin(b.bitmap), Int(b.step), Bin(b.aggregateSig)])
  }

  function BundleHash(env: Env, b: CommitBundle): Digest {
    env.blake3(env.cbor(BundleItem(b)))
  }

  /** The order in which the fields are hashed. */
  lemma HashesSpelled(env: Env, h: EternityHeader, b: CommitBundle)
    ensures HeaderHash(env, h) == env.blake3(env.cbor(Array([
              Int(h.version), Item.Text(h.chainId), Int(h.height), Int(h.round), Int(h.timeUtc), Bin(h.prevHash),
              Bin(h.stateRoot), Bin(h.txRoot), Bin(h.receiptsRoot), Bin(h.commitRoot), Bin(h.proposerPubKey),
              Int(h.emissionEpoch), Bin(h.consensusParamsHash), Bin(h.feeRoot), Bin(h.extraData)])))
    ensures BundleHash(env, b) == env.blake3(env.cbor(Array([
              Int(b.round), Bin(b.quorumHash), Bin(b.bitmap), Int(b.step), Bin(b.aggregateSig)])))
  {
  }

  // ---------- Supply ----------

  function Mint(env: Env, s: SupplyState, height: nat): SupplyState {
    var minted := env.blockMintAt(height);
    var split := Rewards.SplitMint(minted);
    SupplyState(Wrap64(s.totalMinted + minted), Wrap64(s.networkVault + split.network),
                Wrap64(s.foundationVault + split.foundation), Wrap64(s.exchangeVault + split.exchange), height)
  }

  function SupplyCurrentKey(): Bytes {
    Ascii("supply/current")
  }

  function SupplyHistoryKey(height: nat): Bytes {
    Ascii("supply/history/") + Decimal20(height)
  }

  function PersistSupply(env: Env, kv: map<Bytes, Bytes>, height: nat, s: SupplyState): map<Bytes, Bytes> {
    kv[SupplyCurrentKey() := env.supplyJson(s)][SupplyHistoryKey(height) := env.supplyJson(s)]
  }

  function LoadSupplyAt(env: Env, kv: map<Bytes, Bytes>, height: nat): Option<SupplyState> {
    var key := SupplyHistoryKey(height);
    if key in kv then env.parseSupply(kv[key]) else None
  }

  /** SupplyAt, its fast path first. */
  function SupplyAt(env: Env, kv: map<Bytes, Bytes>, supply: SupplyState, height: nat): Option<SupplyState> {
    if height == supply.lastHeight then Some(supply) else LoadSupplyAt(env, kv, height)
  }

  // ---------- The score table ----------

  predicate IsScoreKey(key: Bytes) {
    Ascii("validators/") <= key
  }

  predicate HasScores(kv: map<Bytes, Bytes>) {
    exists key :: key in kv && IsScoreKey(key)
  }

  function ScoresRoot(env: Env, kv: map<Bytes, Bytes>): Digest {
    if HasScores(kv) then env.scoresDigest(kv) else ZERO_DIGEST
  }

  // ---------- The engine's state ----------

  /** log is the history of stored receipts; the program keeps only their JSON leaves and the map by hash. */
  datatype State = State(
    accounts: Accounts, kv: map<Bytes, Bytes>,
    log: seq<Receipt>, leaves: seq<Bytes>, receipts: map<Bytes, Receipt>, height: nat,
    rounds: seq<RoundHeader>, lastCommittedHeight: nat,
    headers: seq<EternityHeader>, lastBlockId: Digest,
    lastCommitRoot: Digest, lastCommitHeight: nat, commitRootReady: bool,
    supply: SupplyState, lastMinted: uint64, lastEmissionEpoch: nat,
    feed: seq<CommitRecord>)

  const NO_SUPPLY := SupplyState(0, 0, 0, 0, 0)

  function Genesis(accounts: Accounts): State {
    State(accounts, map[], [], [], map[], 0, [], 0, [], ZERO_DIGEST, ZERO_DIGEST, 0, false, NO_SUPPLY, 0, 0, [])
  }

  function Status(applied: bool, reason: string): string {
    if applied then "applied" else "rejected:" + reason
  }

  lemma StatusTellsApplied(applied: bool, reason: string)
    ensures Status(applied, reason) == "applied" <==> applied
  {
    assert "rejected:"[0] == 'r' && "applied"[0] == 'a';
    assert ("rejected:" + reason)[0] == 'r';
  }

  function ReceiptFor(env: Env, s: State, t: TxTransfer, applied: bool, reason: string, now: int): Receipt {
    Receipt(TxHash(env, t), t.from, t.to, t.amount, t.fee, t.nonce, Status(applied, reason), |s.leaves|, now)
  }

  function StoreReceipt(env: Env, s: State, t: TxTransfer, applied: bool, reason: string, now: int): State {
    var r := ReceiptFor(env, s, t, applied, reason, now);
    s.(height := s.height + 1, receipts := s.receipts[r.txHash := r],
       leaves := s.leaves + [env.receiptJson(r)], log := s.log + [r])
  }

  // ---------- Committing a round ----------

  predicate CanCommit(s: State) {
    s.lastCommittedHeight + 1 <= |s.leaves|
  }

  function Slice(s: State): seq<Bytes>
    requires CanCommit(s)
  {
    s.leaves[s.lastCommittedHeight..]
  }

  function NextRound(env: Env, s: State, now: int): RoundHeader
    requires CanCommit(s)
  {
    var hdr := RoundHeader(|s.rounds| + 1, s.lastCommittedHeight + 1, |s.leaves|, |Slice(s)|,
                           Hex(Root(env.sha256, Slice(s))), now, []);
    if |env.priv| == 0 then hdr else hdr.(signatureHex := Hex(env.sign(hdr)))
  }

  function NextBundle(env: Env, hdr: RoundHeader, kv: map<Bytes, Bytes>): CommitBundle {
    CommitBundle(hdr.round % TWO_32, ScoresRoot(env, kv), [1], 3, [])
  }

  ghost function NextHeader(env: Env, s: State, hdr: RoundHeader, slice: seq<Bytes>,
                            bundle: CommitBundle): EternityHeader
    requires |env.pub| == 32
  {
    EternityHeader(HEADER_VERSION, Ascii(CHAIN_ID), if hdr.toHeight == 0 then s.height else hdr.toHeight,
                   hdr.round % TWO_32, hdr.timeUtc, s.lastBlockId,
                   StateRootOf(env.blake3, s.accounts), Root(env.blake3, slice), ZERO_DIGEST, BundleHash(env, bundle),
                   env.pub, Rewards.EpochOf(if hdr.toHeight == 0 then s.height else hdr.toHeight),
                   ZERO_DIGEST, ZERO_DIGEST, [])
  }

  /** The cache keeps its newest 63 records and adds one. */
  function PushFeed(feed: seq<CommitRecord>, rec: CommitRecord): seq<CommitRecord> {
    (if |feed| >= FEED_LIMIT then feed[1..] else feed) + [rec]
  }

  /** buildEternityHeader and the cache update; without a usable key pair nothing is added. */
  ghost function AddHeader(env: Env, s: State, hdr: RoundHeader, slice: seq<Bytes>): State {
    if !env.HasKeys() then s else
    var bundle := NextBundle(env, hdr, s.kv);
    var header := NextHeader(env, s, hdr, slice, bundle);
    s.(lastBlockId := HeaderHash(env, header), lastCommitRoot := header.commitRoot,
       lastCommitHeight := header.height, commitRootReady := true,
       headers := s.headers + [header],
       feed := PushFeed(s.feed, CommitRecord(header.height, header.commitRoot, bundle)))
  }

  function MintRound(env: Env, s: State, height: nat): State {
    var supply := Mint(env, s.supply, height);
    s.(supply := supply, kv := PersistSupply(env, s.kv, height, supply),
       lastMinted := env.blockMintAt(height), lastEmissionEpoch := Rewards.EpochOf(height))
  }

  ghost function CommitRound(env: Env, s: State, now: int): State {
    var s0 := s.(height := |s.leaves|);
    if !CanCommit(s0) then s0 else
    var hdr, slice := NextRound(env, s0, now), Slice(s0);
    var s1 := MintRound(env, s0, hdr.toHeight);
    var s2 := s1.(rounds := s1.rounds + [hdr], lastCommittedHeight := hdr.toHeight);
    AddHeader(env, s2, hdr, slice)
  }

  // ---------- Look-ups, newest first ----------

  function HeaderAt(headers: seq<EternityHeader>, height: nat): Option<EternityHeader> {
    if headers == [] then None
    else if headers[|headers| - 1].height == height then Some(headers[|headers| - 1])
    else HeaderAt(headers[..|headers| - 1], height)
  }

  function BundleAt(feed: seq<CommitRecord>, height: nat): Option<CommitBundle> {
    if feed == [] then None
    else if feed[|feed| - 1].height == height then Some(feed[|feed| - 1].bundle)
    else BundleAt(feed[..|feed| - 1], height)
  }

  // ---------- Runs ----------

  datatype Event =
    | Apply(transfer: Transfer)
    | Read(addr: Bytes)
    | SetKey(key: Bytes, value: Bytes)
    | DeleteKey(key: Bytes)
    | Store(t: TxTransfer, applied: bool, reason: string, storedAt: int)
    | Commit(committedAt: int)

  /** Other writers of the key store keep out of the supply records. */
  predicate Allowed(e: Event) {
    e.SetKey? || e.DeleteKey? ==> !(Ascii("supply/") <= e.key)
  }

  ghost function Step(env: Env, feeReceiver: Bytes, s: State, e: Event): State {
    match e
    case Apply(t) => s.(accounts := AfterTransfer(s.accounts, feeReceiver, t))
    case Read(a) => s.(accounts := Touch(s.accounts, a))
    case SetKey(k, v) => s.(kv := s.kv[k := v])
    case DeleteKey(k) => s.(kv := s.kv - {k})
    case Store(t, applied, reason, now) => StoreReceipt(env, s, t, applied, reason, now)
    case Commit(now) => CommitRound(env, s, now)
  }

  ghost function Run(env: Env, feeReceiver: Bytes, s: State, events: seq<Event>): State {
    if events == [] then s
    else Step(env, feeReceiver, Run(env, feeReceiver, s, events[..|events| - 1]), events[|events| - 1])
  }
}
