/**
 * What an emitted header lets a light client check: every account at the commit, and every committed receipt for good.
 */
module HeaderProofs {
  import opened Common
  import opened Text
  import opened Merkle
  import opened Proofs
  import opened Ledger
  import opened StateRoot
  import opened Chain
  import opened Rounds

  /** The header a commit emits. */
  ghost function Emitted(env: Env, s: State, now: int): EternityHeader
    requires LogInv(env, s) && CanCommit(s) && env.HasKeys()
  {
    CommitAddsHeader(env, s, now);
    CommitRound(env, s, now).headers[|s.headers|]
  }

  lemma EmittedStateRoot(env: Env, s: State, now: int)
    requires LogInv(env, s) && CanCommit(s) && env.HasKeys()
    ensures Emitted(env, s, now).stateRoot == StateRootOf(env.blake3, s.accounts)
    ensures CommitRound(env, s, now).accounts == s.accounts
  {
    CommitAddsHeader(env, s, now);
    CommitShape(env, s, now);
    hide CommitRound, Root, StateRootOf, BundleHash, NextBundle, NextRound;
  }

  /** Every account of the ledger has a proof that checks against the header just emitted. */
  lemma HeaderProvesAccount(env: Env, s: State, now: int, addr: Bytes, version: Bytes) returns (p: StateProof)
    requires LogInv(env, s) && CanCommit(s) && env.HasKeys() && addr in s.accounts
    ensures p.Accepted(env.blake3, Emitted(env, s, now).stateRoot)
    ensures p.key == Ascii("account/") + addr && p.value == AccountJson(CommitRound(env, s, now).accounts[addr])
    ensures ReadsAs(p.value, CommitRound(env, s, now).accounts[addr])
  {
    hide LogInv, CanCommit, Emitted, StateRootOf;
    EmittedStateRoot(env, s, now);
    p := AccountProofComplete(env.blake3, s.accounts, addr, version);
  }

  /**
   * And a proof that checks against it names an account of that ledger exactly when its value has no zero byte, or a
   * collision shows.
   */
  lemma HeaderBindsAccounts(env: Env, s: State, now: int, p: StateProof)
    requires LogInv(env, s) && CanCommit(s) && env.HasKeys() && p.Accepted(env.blake3, Emitted(env, s, now).stateRoot)
    ensures Collision(env.blake3, RootInputs(env.blake3, StateLeaves(s.accounts)), p.CheckedInputs(env.blake3))
            || (IsEntry(s.accounts, p.key, p.value) <==> 0 !in p.value)
  {
    EmittedStateRoot(env, s, now);
    AccountProofSound(env.blake3, s.accounts, p);
  }

  /**
   * After every run each committed receipt, however old, has a proof against the transaction root of one emitted
   * header.
   */
  lemma HeaderProvesReceipt(env: Env, feeReceiver: Bytes, accounts: Accounts, events: seq<Event>, leaf: nat)
      returns (i: nat, p: TxInclusionProof)
    requires env.HasKeys() && leaf < Run(env, feeReceiver, Genesis(accounts), events).lastCommittedHeight
    ensures var s := Run(env, feeReceiver, Genesis(accounts), events);
            && i < |s.headers| && leaf < |s.log|
            && p.txHash == Leaf(env.blake3, env.receiptJson(s.log[leaf]))
            && p.Accepted(env.blake3, s.headers[i].txRoot)
            && leaf < s.headers[i].height && (i > 0 ==> s.headers[i - 1].height <= leaf)
  {
    hide Run;
    var s := Run(env, feeReceiver, Genesis(accounts), events);
    RunKeepsInv(env, feeReceiver, accounts, events);
    i := SomeRoundHolds(env, s, |s.rounds|, leaf);
    p := ReceiptProof(env, s, i, leaf);
  }

  lemma ReceiptProof(env: Env, s: State, i: nat, leaf: nat) returns (p: TxInclusionProof)
    requires Inv(env, s) && env.HasKeys() && i < |s.rounds| && InRound(s.rounds[i], leaf)
    ensures i < |s.headers| && leaf < |s.log|
    ensures p.txHash == Leaf(env.blake3, env.receiptJson(s.log[leaf])) && p.Accepted(env.blake3, s.headers[i].txRoot)
    ensures leaf < s.headers[i].height && (i > 0 ==> s.headers[i - 1].height <= leaf)
  {
    hide Inv, Root, HeaderHash, TxInclusionProof.Accepted, ProofSiblings, Directions, Leaf;
    RoundOfLeaf(env, s, i, leaf);
    var r := s.rounds[i];
    var slice, k := s.leaves[r.fromHeight - 1..r.toHeight], leaf - (r.fromHeight - 1);
    p := TxInclusionProof(Leaf(env.blake3, slice[k]), ProofSiblings(env.blake3, slice, k), Directions(|slice|, k));
    TxProofComplete(env.blake3, slice, k);
  }

  lemma RoundOfLeaf(env: Env, s: State, i: nat, leaf: nat)
    requires Inv(env, s) && env.HasKeys() && i < |s.rounds| && InRound(s.rounds[i], leaf)
    ensures i < |s.headers| && leaf < |s.log| == |s.leaves| && s.leaves[leaf] == env.receiptJson(s.log[leaf])
    ensures var from, to := s.rounds[i].fromHeight, s.rounds[i].toHeight;
            1 <= from <= leaf + 1 <= to <= |s.leaves| && s.headers[i].txRoot == Root(env.blake3, s.leaves[from - 1..to])
    ensures leaf < s.headers[i].height && (i > 0 ==> s.headers[i - 1].height <= leaf)
  {
    hide Root, Hex, HeaderHash, NodeFields;
    assert RoundFits(env, s, i) && HeaderFits(env, s, i);
    if i > 0 {
      assert RoundFits(env, s, i - 1) && HeaderFits(env, s, i - 1);
    }
  }
}
