/** The bounded commit cache against the full header log, and internal/light/verify.go on what the engine emits. */
module CommitCache {
  import opened Common
  import opened Text
  import opened Ledger
  import opened Merkle
  import opened StateRoot
  import opened Cbor
  import opened Chain
  import opened Rounds

  // ---------- Light verification ----------

  datatype LightError =
    NilHeader | NilCommitBundle | CommitRootMismatch | ValidatorRootMismatch | CommitMetadataMismatch

  function LightVerify(env: Env, header: Option<EternityHeader>, bundle: Option<CommitBundle>, validatorsRoot: Digest)
    : Option<LightError>
  {
    if header.None? then Some(NilHeader)
    else if bundle.None? then Some(NilCommitBundle)
    else
      var h, b := header.value, bundle.value;
      if h.round != b.round then Some(CommitMetadataMismatch)
      else if b.quorumHash != ZERO_DIGEST && b.quorumHash != validatorsRoot then Some(CommitMetadataMismatch)
      else if BundleHash(env, b) != h.commitRoot then Some(CommitRootMismatch)
      else if h.stateRoot != validatorsRoot then Some(ValidatorRootMismatch)
      else None
  }

  /** Accepted exactly when every check passes; otherwise the first that fails names the error. */
  lemma LightVerdict(env: Env, header: Option<EternityHeader>, bundle: Option<CommitBundle>, validatorsRoot: Digest)
    ensures LightVerify(env, header, bundle, validatorsRoot) == Some(NilHeader) <==> header.None?
    ensures LightVerify(env, header, bundle, validatorsRoot) == Some(NilCommitBundle) <==> header.Some? && bundle.None?
    ensures header.Some? && bundle.Some? ==>
              var h, b, verdict := header.value, bundle.value, LightVerify(env, header, bundle, validatorsRoot);
              var metadata := b.round == h.round && (b.quorumHash == ZERO_DIGEST || b.quorumHash == validatorsRoot);
              var hash := env.blake3(env.cbor(BundleItem(b)));
              && (verdict.None? <==> metadata && hash == h.commitRoot && h.stateRoot == validatorsRoot)
              && (verdict == Some(CommitMetadataMismatch) <==> !metadata)
              && (verdict == Some(CommitRootMismatch) <==> metadata && hash != h.commitRoot)
  {
  }

  // ---------- The cache invariant ----------

  /** A cache record belongs to a header: same height, same root, and a bundle that hashes to it. */
  ghost predicate RecordFits(env: Env, rec: CommitRecord, h: EternityHeader) {
    && rec.height == h.height && rec.root == h.commitRoot
    && BundleHash(env, rec.bundle) == h.commitRoot && rec.bundle.round == h.round
  }

  function Cached(s: State): nat {
    Min(64, |s.headers|)
  }

  /** A commit: the record it pushed, the accounts and key store it found, and the key store after its mint. */
  datatype Committed = Committed(
    rec: CommitRecord, accounts: Accounts, kv: map<Bytes, Bytes>, minted: map<Bytes, Bytes>)

  ghost function CommitOf(env: Env, s: State, now: int): Committed
    requires CanCommit(s) && env.HasKeys()
  {
    var hdr := NextRound(env, s, now);
    var bundle := NextBundle(env, hdr, CommitRound(env, s, now).kv);
    var header := NextHeader(env, s, hdr, Slice(s), bundle);
    Committed(CommitRecord(header.height, header.commitRoot, bundle), s.accounts, s.kv, CommitRound(env, s, now).kv)
  }

  /**
   * The record belongs to the header, the header commits to the accounts at that moment, and the bundle is a precommit
   * (3) over the one-byte bitmap, with the digest of the score table or, that being empty, the zero hash.
   */
  ghost predicate CommitFits(env: Env, c: Committed, h: EternityHeader) {
    && RecordFits(env, c.rec, h) && h.stateRoot == StateRootOf(env.blake3, c.accounts)
    && c.rec.bundle.bitmap == [1] && c.rec.bundle.step == 3 && c.rec.bundle.aggregateSig == []
    && c.rec.bundle.quorumHash == if HasScores(c.kv) then env.scoresDigest(c.minted) else ZERO_DIGEST
  }

  /** There is one commit for each header, and the cache holds the records of the last min(64, n), in order. */
  ghost predicate FeedInv(env: Env, s: State, commits: seq<Committed>) {
    && |commits| == |s.headers| && |s.feed| == Cached(s)
    && (forall j :: 0 <= j < |s.feed| ==> s.feed[j] == commits[|commits| - |s.feed| + j].rec)
    && (forall i :: 0 <= i < |commits| ==> CommitFits(env, commits[i], s.headers[i]))
  }

  lemma PushKeepsFeed(env: Env, s: State, s': State, commits: seq<Committed>, c: Committed, h: EternityHeader)
    requires FeedInv(env, s, commits) && CommitFits(env, c, h)
    requires s'.headers == s.headers + [h] && s'.feed == PushFeed(s.feed, c.rec)
    ensures FeedInv(env, s', commits + [c])
  {
    hide CommitFits;
    var all := commits + [c];
    forall j | 0 <= j < |s'.feed| ensures s'.feed[j] == all[|all| - |s'.feed| + j].rec {
      if j < |s'.feed| - 1 {
        assert s'.feed[j] == s.feed[if |s.feed| >= FEED_LIMIT then j + 1 else j];
      }
    }
  }

  lemma SupplyKeysAreNoScores(kv: map<Bytes, Bytes>, height: nat, env: Env, supply: SupplyState)
    ensures HasScores(PersistSupply(env, kv, height, supply)) <==> HasScores(kv)
  {
    var kv' := PersistSupply(env, kv, height, supply);
    var v := Ascii("validators/");
    assert v[0] == 118;
    assert SupplyCurrentKey()[0] == 115 && SupplyHistoryKey(height)[0] == 115;
    forall key | key in kv' && IsScoreKey(key) ensures key in kv && IsScoreKey(key) {
      assert key[0] == v[0];
    }
    if key :| key in kv && IsScoreKey(key) {
      assert key in kv';
    }
  }

  lemma CommitKeepsFeed(env: Env, s: State, now: int, commits: seq<Committed>)
    requires Inv(env, s) && env.HasKeys() && CanCommit(s) && FeedInv(env, s, commits)
    ensures FeedInv(env, CommitRound(env, s, now), commits + [CommitOf(env, s, now)])
  {
    CommitShape(env, s, now);
    CommitAddsHeader(env, s, now);
    var s', hdr := CommitRound(env, s, now), NextRound(env, s, now);
    SupplyKeysAreNoScores(s.kv, |s.leaves|, env, s'.supply);
    NewRecordFits(env, s, s', hdr);
    hide CommitRound, NextRound, NextHeader, NextBundle, Inv, HasScores, PersistSupply, Mint, RecordFits, FeedInv;
    var header := NextHeader(env, s, hdr, Slice(s), NextBundle(env, hdr, s'.kv));
    PushKeepsFeed(env, s, s', commits, CommitOf(env, s, now), header);
  }

  lemma NewRecordFits(env: Env, s: State, s': State, hdr: RoundHeader)
    requires env.HasKeys() && CanCommit(s)
    ensures var bundle := NextBundle(env, hdr, s'.kv);
            var header := NextHeader(env, s, hdr, Slice(s), bundle);
            && RecordFits(env, CommitRecord(header.height, header.commitRoot, bundle), header)
            && header.stateRoot == StateRootOf(env.blake3, s.accounts)
            && bundle.bitmap == [1] && bundle.step == 3 && bundle.aggregateSig == []
            && bundle.quorumHash == if HasScores(s'.kv) then env.scoresDigest(s'.kv) else ZERO_DIGEST
  {
    hide StateRootOf, Root, BundleHash;
  }

  /** The commits after one more step. */
  ghost function AfterStep(env: Env, s: State, e: Event, commits: seq<Committed>): seq<Committed>
    requires env.HasKeys()
  {
    if e.Commit? && CanCommit(s) then commits + [CommitOf(env, s, e.committedAt)] else commits
  }

  /** Every commit of a run, oldest first. */
  ghost function Commits(env: Env, feeReceiver: Bytes, accounts: Accounts, events: seq<Event>): seq<Committed>
    requires env.HasKeys()
  {
    if events == [] then [] else
    var n := |events| - 1;
    AfterStep(env, Run(env, feeReceiver, Genesis(accounts), events[..n]), events[n],
              Commits(env, feeReceiver, accounts, events[..n]))
  }

  lemma StepKeepsFeed(env: Env, feeReceiver: Bytes, s: State, e: Event, commits: seq<Committed>)
    requires Inv(env, s) && env.HasKeys() && FeedInv(env, s, commits)
    ensures FeedInv(env, Step(env, feeReceiver, s, e), AfterStep(env, s, e, commits))
  {
    hide CommitFits, CommitOf, HeadersInv, RoundsInv;
    if e.Commit? {
      CommitShape(env, s, e.committedAt);
      if CanCommit(s) {
        CommitKeepsFeed(env, s, e.committedAt, commits);
      }
      hide CommitRound, CanCommit, FeedInv;
    }
  }

  lemma {:induction false} RunKeepsFeed(env: Env, feeReceiver: Bytes, accounts: Accounts, events: seq<Event>)
    requires env.HasKeys()
    ensures FeedInv(env, Run(env, feeReceiver, Genesis(accounts), events), Commits(env, feeReceiver, accounts, events))
  {
    if events != [] {
      hide FeedInv, Step, AfterStep, Inv;
      var n := |events| - 1;
      RunKeepsFeed(env, feeReceiver, accounts, events[..n]);
      RunKeepsInv(env, feeReceiver, accounts, events[..n]);
      StepKeepsFeed(env, feeReceiver, Run(env, feeReceiver, Genesis(accounts), events[..n]), events[n],
                    Commits(env, feeReceiver, accounts, events[..n]));
    }
  }

  // ---------- Look-ups agree ----------

  ghost predicate AscendingHeights(headers: seq<EternityHeader>) {
    forall i, j :: 0 <= i < j < |headers| ==> headers[i].height < headers[j].height
  }

  lemma HeadersAscend(env: Env, s: State)
    requires Inv(env, s) && env.HasKeys()
    ensures AscendingHeights(s.headers)
  {
    hide HeaderHash, Root, Hex, LogInv;
    forall i, j | 0 <= i < j < |s.headers| ensures s.headers[i].height < s.headers[j].height {
      assert RoundFits(env, s, i) && HeaderFits(env, s, i);
      assert RoundFits(env, s, j) && HeaderFits(env, s, j);
      RoundsAscend(env, s, i, j);
    }
  }

  lemma {:induction false} HeaderAtFinds(headers: seq<EternityHeader>, height: nat)
    ensures HeaderAt(headers, height).Some? <==> exists i :: 0 <= i < |headers| && headers[i].height == height
    ensures AscendingHeights(headers) ==>
              forall i :: 0 <= i < |headers| && headers[i].height == height
                  ==> HeaderAt(headers, height) == Some(headers[i])
  {
    if headers != [] {
      var k := |headers| - 1;
      HeaderAtFinds(headers[..k], height);
      if exists i :: 0 <= i < |headers| && headers[i].height == height {
        var i :| 0 <= i < |headers| && headers[i].height == height;
        if i < k {
          assert headers[..k][i].height == height;
        }
      }
      if i :| 0 <= i < k && headers[..k][i].height == height {
        assert headers[i].height == height;
      }
      if AscendingHeights(headers) {
        forall i | 0 <= i < |headers| && headers[i].height == height
            ensures HeaderAt(headers, height) == Some(headers[i]) {
          if i < k {
            assert headers[..k][i] == headers[i];
          }
        }
      }
    }
  }

  lemma {:induction false} BundleAtFinds(feed: seq<CommitRecord>, height: nat)
    requires forall i, j :: 0 <= i < j < |feed| ==> feed[i].height < feed[j].height
    ensures BundleAt(feed, height).Some? <==> exists i :: 0 <= i < |feed| && feed[i].height == height
    ensures forall i :: 0 <= i < |feed| && feed[i].height == height ==> BundleAt(feed, height) == Some(feed[i].bundle)
  {
    if feed != [] {
      var k := |feed| - 1;
      BundleAtFinds(feed[..k], height);
      if i :| 0 <= i < k && feed[..k][i].height == height {
        assert feed[i].height == height;
      }
      forall i | 0 <= i < |feed| && feed[i].height == height ensures BundleAt(feed, height) == Some(feed[i].bundle) {
        if i < k {
          assert feed[..k][i] == feed[i];
        }
      }
    }
  }

  /** What a light client is told about one height, c being the commit at it. */
  ghost predicate Agrees(env: Env, s: State, height: nat, c: Committed) {
    var header, bundle := HeaderAt(s.headers, height), BundleAt(s.feed, height);
    && header.Some? && bundle == Some(c.rec.bundle)
    && BundleHash(env, bundle.value) == header.value.commitRoot
    && bundle.value.round == header.value.round
    && (LightVerify(env, header, bundle, header.value.stateRoot).None?
        <==> bundle.value.quorumHash == ZERO_DIGEST || bundle.value.quorumHash == header.value.stateRoot)
    && (!HasScores(c.kv) ==> LightVerify(env, header, bundle, header.value.stateRoot).None?)
  }

  /**
   * The cache agrees with the log after every run: at each of the last min(64, n) committed heights both look-ups
   * answer, the bundle is that of the commit and hashes to the header's commit root, and the light check of the pair
   * against the header's state root passes exactly when the quorum hash is zero or that root, in particular when the
   * score table was empty at that commit; at older heights only the header remains, and other heights have neither.
   */
  lemma CacheAgreesWithLog(env: Env, feeReceiver: Bytes, accounts: Accounts, events: seq<Event>, height: nat)
    requires env.HasKeys()
    ensures var s := Run(env, feeReceiver, Genesis(accounts), events);
            var commits := Commits(env, feeReceiver, accounts, events);
            && |commits| == |s.headers|
            && (HeaderAt(s.headers, height).Some?
                <==> exists i :: 0 <= i < |s.headers| && s.headers[i].height == height)
            && (BundleAt(s.feed, height).Some?
                <==> exists i :: |s.headers| - Cached(s) <= i < |s.headers| && s.headers[i].height == height)
            && (forall i :: |s.headers| - Cached(s) <= i < |s.headers| && s.headers[i].height == height
                  ==> Agrees(env, s, height, commits[i]))
  {
    hide Run, Commits, Agrees;
    var s := Run(env, feeReceiver, Genesis(accounts), events);
    RunKeepsInv(env, feeReceiver, accounts, events);
    RunKeepsFeed(env, feeReceiver, accounts, events);
    HeadersAscend(env, s);
    HeaderAtFinds(s.headers, height);
    FeedLookup(env, s, Commits(env, feeReceiver, accounts, events), height);
  }

  lemma FeedLookup(env: Env, s: State, commits: seq<Committed>, height: nat)
    requires FeedInv(env, s, commits) && AscendingHeights(s.headers)
    ensures BundleAt(s.feed, height).Some?
            <==> exists i :: |s.headers| - Cached(s) <= i < |s.headers| && s.headers[i].height == height
    ensures forall i :: |s.headers| - Cached(s) <= i < |s.headers| && s.headers[i].height == height
              ==> Agrees(env, s, height, commits[i])
  {
    hide CommitFits, Agrees, HeaderAt, BundleAt;
    FeedHeights(env, s, commits);
    CachedHeights(s, height);
    BundleAtFinds(s.feed, height);
    var d := |s.headers| - |s.feed|;
    forall i | d <= i < |s.headers| && s.headers[i].height == height ensures Agrees(env, s, height, commits[i]) {
      assert s.feed[i - d].height == height;
      HeaderAtFinds(s.headers, height);
      CachedRecordAgrees(env, s, height, commits[i], s.headers[i]);
    }
  }

  lemma CachedHeights(s: State, height: nat)
    requires AscendingHeights(s.headers) && |s.feed| == Cached(s)
    requires forall j :: 0 <= j < |s.feed| ==> s.feed[j].height == s.headers[|s.headers| - |s.feed| + j].height
    ensures forall i, j :: 0 <= i < j < |s.feed| ==> s.feed[i].height < s.feed[j].height
    ensures BundleAt(s.feed, height).Some?
            <==> exists i :: |s.headers| - Cached(s) <= i < |s.headers| && s.headers[i].height == height
  {
    hide BundleAt;
    var d := |s.headers| - |s.feed|;
    BundleAtFinds(s.feed, height);
    if j :| 0 <= j < |s.feed| && s.feed[j].height == height {
      assert s.headers[d + j].height == height;
    }
    if i :| d <= i < |s.headers| && s.headers[i].height == height {
      assert s.feed[i - d].height == height;
    }
  }

  lemma FeedHeights(env: Env, s: State, commits: seq<Committed>)
    requires FeedInv(env, s, commits)
    ensures forall j :: 0 <= j < |s.feed| ==> s.feed[j].height == s.headers[|s.headers| - |s.feed| + j].height
  {
    hide CommitFits;
    forall j | 0 <= j < |s.feed| ensures s.feed[j].height == s.headers[|s.headers| - |s.feed| + j].height {
      HeightsFit(env, commits[|s.headers| - |s.feed| + j], s.headers[|s.headers| - |s.feed| + j]);
    }
  }

  lemma HeightsFit(env: Env, c: Committed, h: EternityHeader)
    requires CommitFits(env, c, h)
    ensures c.rec.height == h.height
  {
  }

  lemma CachedRecordAgrees(env: Env, s: State, height: nat, c: Committed, h: EternityHeader)
    requires CommitFits(env, c, h)
    requires HeaderAt(s.headers, height) == Some(h) && BundleAt(s.feed, height) == Some(c.rec.bundle)
    ensures Agrees(env, s, height, c)
  {
    hide BundleHash, HeaderAt, BundleAt, HasScores;
  }

  /**
   * The table at the commit decides, not the table now: after the last score is deleted, the cached bundle keeps the
   * digest it was committed with, and the light check passes only if that digest is zero or the header's state root.
   */
  lemma DeletedScoresStillCount(env: Env, feeReceiver: Bytes, accounts: Accounts, events: seq<Event>,
                                now: int, key: Bytes)
    requires env.HasKeys()
    requires var s := Run(env, feeReceiver, Genesis(accounts), events);
             CanCommit(s) && IsScoreKey(key) && key in s.kv && forall k :: k in s.kv && IsScoreKey(k) ==> k == key
    ensures var s := Run(env, feeReceiver, Genesis(accounts), events);
            var s1 := Step(env, feeReceiver, s, Commit(now));
            var s2 := Step(env, feeReceiver, s1, DeleteKey(key));
            var digest, h := env.scoresDigest(s1.kv), |s.leaves|;
            var header, bundle := HeaderAt(s2.headers, h), BundleAt(s2.feed, h);
            && !HasScores(s2.kv) && header.Some? && bundle.Some? && bundle.value.quorumHash == digest
            && (LightVerify(env, header, bundle, header.value.stateRoot).None?
                <==> digest == ZERO_DIGEST || digest == header.value.stateRoot)
  {
    hide Run, LogInv, HeadersInv, RoundsInv, CommitRound, HeaderAt, BundleAt, BundleHash, IsScoreKey, CanCommit,
         PersistSupply;
    var s := Run(env, feeReceiver, Genesis(accounts), events);
    RunKeepsInv(env, feeReceiver, accounts, events);
    CommitAnswers(env, s, now);
    hide LightVerify;
    LightVerifyIff(env, HeaderAt(CommitRound(env, s, now).headers, |s.leaves|).value, CommitOf(env, s, now).rec.bundle);
    SupplyScoreKeys(s.kv, |s.leaves|, env, CommitRound(env, s, now).supply, key);
  }

  lemma LightVerifyIff(env: Env, h: EternityHeader, b: CommitBundle)
    requires BundleHash(env, b) == h.commitRoot && b.round == h.round
    ensures LightVerify(env, Some(h), Some(b), h.stateRoot).None?
            <==> b.quorumHash == ZERO_DIGEST || b.quorumHash == h.stateRoot
  {
    hide BundleHash;
  }

  /** Right after a commit both look-ups answer at its height. */
  lemma CommitAnswers(env: Env, s: State, now: int)
    requires LogInv(env, s) && CanCommit(s) && env.HasKeys()
    ensures var s1, c := CommitRound(env, s, now), CommitOf(env, s, now);
            var header := HeaderAt(s1.headers, |s.leaves|);
            && header.Some? && RecordFits(env, c.rec, header.value)
            && BundleAt(s1.feed, |s.leaves|) == Some(c.rec.bundle)
            && c.rec.bundle.quorumHash == ScoresRoot(env, s1.kv)
            && s1.kv == PersistSupply(env, s.kv, |s.leaves|, s1.supply)
  {
    CommitShape(env, s, now);
    CommitAddsHeader(env, s, now);
    NextRoundEnds(env, s, now);
    NewRecordFits(env, s, CommitRound(env, s, now), NextRound(env, s, now));
    hide CommitRound, NextRound, LogInv, StateRootOf, Root, BundleHash, ScoresRoot, Mint, PersistSupply, RecordFits;
  }

  lemma NextRoundEnds(env: Env, s: State, now: int)
    requires CanCommit(s)
    ensures NextRound(env, s, now).toHeight == |s.leaves| > 0
  {
    hide Root, Hex;
  }

  /** Score keys are exactly those that start with these eleven letters, and no supply key is one. */
  lemma ScoreKeysSpelled(key: Bytes, height: nat)
    ensures IsScoreKey(key) <==> exists name :: key == Ascii("validators/") + name
    ensures !IsScoreKey(SupplyCurrentKey()) && !IsScoreKey(SupplyHistoryKey(height))
  {
    var p := Ascii("validators/");
    assert p[0] == 118 && SupplyCurrentKey()[0] == 115 && SupplyHistoryKey(height)[0] == 115;
    if IsScoreKey(key) {
      assert key == p + key[|p|..];
    }
  }

  lemma SupplyScoreKeys(kv: map<Bytes, Bytes>, height: nat, env: Env, supply: SupplyState, key: Bytes)
    requires key in kv && IsScoreKey(key) && forall k :: k in kv && IsScoreKey(k) ==> k == key
    ensures var kv' := PersistSupply(env, kv, height, supply); HasScores(kv') && !HasScores(kv' - {key})
  {
    var kv' := PersistSupply(env, kv, height, supply);
    assert key in kv';
    assert Ascii("validators/")[0] == 118 && SupplyCurrentKey()[0] == 115 && SupplyHistoryKey(height)[0] == 115;
    forall k | k in kv' && IsScoreKey(k) ensures k == key {
      assert k[0] == Ascii("validators/")[0];
      assert k in kv;
    }
  }

  // ---------- What an accepted pair proves ----------

  lemma BundleItemInjective(b: CommitBundle, c: CommitBundle)
    requires BundleItem(b) == BundleItem(c)
    ensures b == c
  {
    var x, y := BundleItem(b).items, BundleItem(c).items;
    assert x[0] == y[0] && x[1] == y[1] && x[2] == y[2] && x[3] == y[3] && x[4] == y[4];
  }

  function BundleInput(env: Env, b: CommitBundle): Bytes {
    env.cbor(BundleItem(b))
  }

  /** A commit root binds its bundle. */
  lemma CommitRootBindsBundle(env: Env, b: CommitBundle, c: CommitBundle)
    requires Injective(env.cbor) && BundleHash(env, b) == BundleHash(env, c)
    ensures b == c || Collision(env.blake3, {BundleInput(env, b)}, {BundleInput(env, c)})
  {
    if BundleItem(b) == BundleItem(c) {
      BundleItemInjective(b, c);
    } else {
      CollisionIn(env.blake3, BundleInput(env, b), BundleInput(env, c), {BundleInput(env, b)}, {BundleInput(env, c)});
    }
  }

  /**
   * What a light client may conclude: for a cached height of any run, a bundle accepted with the emitted header is the
   * one the node committed, unless it collides with it, and the accepted validators root is the header's state root.
   */
  lemma AcceptedBundleIsCommitted(env: Env, feeReceiver: Bytes, accounts: Accounts, events: seq<Event>,
                                  height: nat, bundle: CommitBundle, validatorsRoot: Digest)
    requires env.HasKeys() && Injective(env.cbor)
    requires var s := Run(env, feeReceiver, Genesis(accounts), events);
             BundleAt(s.feed, height).Some?
                 && LightVerify(env, HeaderAt(s.headers, height), Some(bundle), validatorsRoot).None?
    ensures var s := Run(env, feeReceiver, Genesis(accounts), events);
            var header, committed := HeaderAt(s.headers, height), BundleAt(s.feed, height).value;
            && header.Some? && validatorsRoot == header.value.stateRoot
            && (bundle == committed || Collision(env.blake3, {BundleInput(env, bundle)}, {BundleInput(env, committed)}))
  {
    hide Run;
    var s := Run(env, feeReceiver, Genesis(accounts), events);
    CacheAgreesWithLog(env, feeReceiver, accounts, events, height);
    hide HeaderAt, BundleAt, BundleHash, BundleInput;
    CommitRootBindsBundle(env, bundle, BundleAt(s.feed, height).value);
  }
}
