/** internal/state/state.go on values: what one transfer does to the account map, and what it keeps. */
module Ledger {
  import opened Common

  datatype Account = Account(balance: uint64, nonce: uint64)

  type Accounts = map<Bytes, Account>

  const NEW_ACCOUNT := Account(0, 0)

  function Lookup(m: Accounts, addr: Bytes): Account {
    if addr in m then m[addr] else NEW_ACCOUNT
  }

  /** Go's db.get: asking for an account creates it. */
  function Touch(m: Accounts, addr: Bytes): Accounts {
    m[addr := Lookup(m, addr)]
  }

  function Credit(m: Accounts, addr: Bytes, amount: uint64): Accounts {
    var a := Lookup(m, addr);
    m[addr := a.(balance := Wrap64(a.balance + amount))]
  }

  datatype TransferError = BadNonce | InsufficientFunds

  datatype Transfer = Transfer(from: Bytes, to: Bytes, amount: uint64, fee: uint64, nonce: uint64)

  function Rejection(m: Accounts, t: Transfer): Option<TransferError> {
    var a := Lookup(m, t.from);
    if Wrap64(a.nonce + 1) != t.nonce then Some(BadNonce)
    else if a.balance < Wrap64(t.amount + t.fee) then Some(InsufficientFunds)
    else None
  }

  /** The nonce is looked at first; then the balance must reach amount plus fee as 64 bits add them. */
  lemma RejectionSpelled(m: Accounts, t: Transfer)
    ensures var sender := Lookup(m, t.from);
            && (Rejection(m, t) == Some(BadNonce) <==> t.nonce != Wrap64(sender.nonce + 1))
            && (Rejection(m, t) == Some(InsufficientFunds)
                <==> t.nonce == Wrap64(sender.nonce + 1) && sender.balance < Wrap64(t.amount + t.fee))
            && (Rejection(m, t).None?
                <==> t.nonce == Wrap64(sender.nonce + 1) && sender.balance >= Wrap64(t.amount + t.fee))
  {
  }

  function Debit(m: Accounts, t: Transfer): Accounts
    requires Rejection(m, t).None?
  {
    var a := Lookup(m, t.from);
    m[t.from := Account(a.balance - Wrap64(t.amount + t.fee), t.nonce)]
  }

  function PayOut(m: Accounts, feeReceiver: Bytes, t: Transfer): Accounts {
    var paid := Credit(m, t.to, t.amount);
    if feeReceiver != [] then Credit(paid, feeReceiver, t.fee) else paid
  }

  /** The account map after a transfer, applied or not; the empty address stands for no fee receiver. */
  function AfterTransfer(m: Accounts, feeReceiver: Bytes, t: Transfer): Accounts {
    if Rejection(m, t).Some? then Touch(m, t.from)
    else PayOut(Debit(m, t), feeReceiver, t)
  }

  // ---------- One account at a time, under any aliasing ----------

  function If(c: bool, x: int): int {
    if c then x else 0
  }

  /** What an applied transfer owes an address: it may be sender, receiver and fee receiver at once. */
  function Delta(feeReceiver: Bytes, t: Transfer, addr: Bytes): int {
    If(addr == t.to, t.amount) + If(addr == feeReceiver && feeReceiver != [], t.fee)
        - If(addr == t.from, t.amount + t.fee)
  }

  lemma DebitEffect(m: Accounts, t: Transfer, addr: Bytes)
    requires Rejection(m, t).None?
    ensures var a := Lookup(Debit(m, t), addr);
            && a.balance == Wrap64(Lookup(m, addr).balance - If(addr == t.from, t.amount + t.fee))
            && a.nonce == Wrap64(Lookup(m, addr).nonce + If(addr == t.from, 1))
  {
    var b := Lookup(m, addr).balance;
    WrapOfUint64(b);
    WrapOfUint64(Lookup(m, addr).nonce);
    if addr == t.from {
      WrapTwice(-(t.amount + t.fee), b);
      NegatedWrap(t.amount + t.fee, b);
    }
  }

  lemma NegatedWrap(need: nat, b: uint64)
    requires Wrap64(need) <= b
    ensures b - Wrap64(need) == Wrap64(b - need)
  {
    WrapOfUint64(b - Wrap64(need));
    var q := need / TWO_64;
    assert b - need == -q * TWO_64 + (b - Wrap64(need));
  }

  lemma CreditEffect(m: Accounts, to: Bytes, amount: uint64, addr: Bytes)
    ensures var a := Lookup(Credit(m, to, amount), addr);
            && a.balance == Wrap64(Lookup(m, addr).balance + If(addr == to, amount))
            && a.nonce == Lookup(m, addr).nonce
  {
    WrapOfUint64(Lookup(m, addr).balance);
  }

  /** Every balance moves by its delta modulo 2^64, the sender's nonce by one, and nothing else. */
  lemma AppliedTransferEffect(m: Accounts, feeReceiver: Bytes, t: Transfer, addr: Bytes)
    requires Rejection(m, t).None?
    ensures var after := Lookup(AfterTransfer(m, feeReceiver, t), addr);
            && after.balance == Wrap64(Lookup(m, addr).balance + Delta(feeReceiver, t, addr))
            && after.nonce == Wrap64(Lookup(m, addr).nonce + If(addr == t.from, 1))
  {
    hide Wrap64;
    var debited := Debit(m, t);
    var paid := Credit(debited, t.to, t.amount);
    DebitEffect(m, t, addr);
    CreditEffect(debited, t.to, t.amount, addr);
    var x, y := Lookup(m, addr).balance - If(addr == t.from, t.amount + t.fee), If(addr == t.to, t.amount);
    WrapTwice(x, y);
    if feeReceiver != [] {
      CreditEffect(paid, feeReceiver, t.fee, addr);
      WrapTwice(x + y, If(addr == feeReceiver, t.fee));
    }
  }

  lemma AppliedTransferKeys(m: Accounts, feeReceiver: Bytes, t: Transfer, addr: Bytes)
    requires Rejection(m, t).None?
    ensures addr in AfterTransfer(m, feeReceiver, t)
            <==> addr in m || addr == t.from || addr == t.to || (addr == feeReceiver && feeReceiver != [])
  {
  }

  /** A rejected transfer changes no balance and no nonce; at most a zero account for its sender appears. */
  lemma RejectedTransferEffect(m: Accounts, feeReceiver: Bytes, t: Transfer, addr: Bytes)
    requires Rejection(m, t).Some?
    ensures Lookup(AfterTransfer(m, feeReceiver, t), addr) == Lookup(m, addr)
    ensures addr in AfterTransfer(m, feeReceiver, t) <==> addr in m || addr == t.from
  {
  }

  // ---------- The sum of all balances ----------

  ghost function Total(m: Accounts): nat {
    if m == map[] then 0 else
    var k :| k in m;
    m[k].balance + Total(m - {k})
  }

  lemma {:induction false} TotalWithout(m: Accounts, k: Bytes)
    requires k in m
    ensures Total(m) == m[k].balance + Total(m - {k})
    decreases |m|
  {
    var j :| j in m && Total(m) == m[j].balance + Total(m - {j});
    if j != k {
      TotalWithout(m - {j}, k);
      TotalWithout(m - {k}, j);
      assert m - {j} - {k} == m - {k} - {j};
    }
  }

  lemma TotalUpdate(m: Accounts, k: Bytes, a: Account)
    ensures Total(m[k := a]) == Total(m) - Lookup(m, k).balance + a.balance
  {
    TotalWithout(m[k := a], k);
    if k in m {
      TotalWithout(m, k);
      assert m[k := a] - {k} == m - {k};
    } else {
      assert m[k := a] - {k} == m;
    }
  }

  lemma BalanceWithinTotal(m: Accounts, addr: Bytes)
    ensures Lookup(m, addr).balance <= Total(m)
  {
    if addr in m {
      TotalWithout(m, addr);
    }
  }

  lemma TotalAfterDebit(m: Accounts, t: Transfer)
    requires Rejection(m, t).None?
    ensures Total(Debit(m, t)) == Total(m) - Wrap64(t.amount + t.fee)
  {
    TotalUpdate(m, t.from, Debit(m, t)[t.from]);
  }

  lemma CreditExact(m: Accounts, to: Bytes, amount: uint64, addr: Bytes)
    requires Total(m) + amount < TWO_64
    ensures Lookup(Credit(m, to, amount), addr).balance == Lookup(m, addr).balance + If(addr == to, amount)
    ensures Total(Credit(m, to, amount)) == Total(m) + amount
  {
    BalanceWithinTotal(m, to);
    TotalAfterCreditExactly(m, to, amount);
  }

  /** The credit runs over 2^64, so the account loses 2^64 units. */
  predicate CreditWraps(m: Accounts, to: Bytes, amount: uint64) {
    Lookup(m, to).balance + amount >= TWO_64
  }

  /** What an applied transfer burns: the fee, when nobody receives it. */
  function Burnt(feeReceiver: Bytes, t: Transfer): nat {
    If(feeReceiver == [], t.fee)
  }

  /** The receiver's credit, or the fee receiver's after it, runs over. */
  predicate PayOutWraps(m: Accounts, feeReceiver: Bytes, t: Transfer)
    requires Rejection(m, t).None?
  {
    var debited := Debit(m, t);
    || CreditWraps(debited, t.to, t.amount)
    || (feeReceiver != [] && CreditWraps(Credit(debited, t.to, t.amount), feeReceiver, t.fee))
  }

  lemma TotalAfterCreditExactly(m: Accounts, to: Bytes, amount: uint64)
    ensures Total(Credit(m, to, amount)) == Total(m) + amount - If(CreditWraps(m, to, amount), TWO_64)
  {
    TotalUpdate(m, to, Credit(m, to, amount)[to]);
    OneWrap(Lookup(m, to).balance, amount);
  }

  lemma OneWrap(a: uint64, b: uint64)
    ensures Wrap64(a + b) == a + b - If(a + b >= TWO_64, TWO_64)
  {
    if a + b >= TWO_64 {
      WrapOfUint64(a + b - TWO_64);
      WrapTwice(a + b, -TWO_64);
    } else {
      WrapOfUint64(a + b);
    }
  }

  /**
   * The sum after an applied transfer, to the unit: a wrapped amount plus fee makes 2^64 units, a wrapped credit loses
   * them.
   */
  lemma TransferTotal(m: Accounts, feeReceiver: Bytes, t: Transfer)
    requires Rejection(m, t).None?
    ensures var debited := Debit(m, t);
            var paid := Credit(debited, t.to, t.amount);
            Total(AfterTransfer(m, feeReceiver, t))
            == Total(m) - Burnt(feeReceiver, t) + If(t.amount + t.fee >= TWO_64, TWO_64)
               - If(CreditWraps(debited, t.to, t.amount), TWO_64)
               - If(feeReceiver != [] && CreditWraps(paid, feeReceiver, t.fee), TWO_64)
  {
    hide Total, CreditWraps, Wrap64;
    var debited := Debit(m, t);
    var paid := Credit(debited, t.to, t.amount);
    TotalAfterDebit(m, t);
    OneWrap(t.amount, t.fee);
    TotalAfterCreditExactly(debited, t.to, t.amount);
    TotalAfterCreditExactly(paid, feeReceiver, t.fee);
    assert AfterTransfer(m, feeReceiver, t) == if feeReceiver != [] then Credit(paid, feeReceiver, t.fee) else paid;
  }

  /** Whatever wraps, an applied transfer with a fee receiver keeps the sum of all balances modulo 2^64. */
  lemma TransferKeepsTotalModulo(m: Accounts, feeReceiver: Bytes, t: Transfer)
    requires Rejection(m, t).None?
    ensures Wrap64(Total(AfterTransfer(m, feeReceiver, t))) == Wrap64(Total(m) - Burnt(feeReceiver, t))
  {
    hide Wrap64, Total, CreditWraps, AfterTransfer;
    TransferTotal(m, feeReceiver, t);
    var debited := Debit(m, t);
    var paid := Credit(debited, t.to, t.amount);
    var k := If(t.amount + t.fee >= TWO_64, 1) - If(CreditWraps(debited, t.to, t.amount), 1)
             - If(feeReceiver != [] && CreditWraps(paid, feeReceiver, t.fee), 1);
    WholeWraps(Total(m) - Burnt(feeReceiver, t), k);
  }

  /** When amount plus fee does not wrap, neither does any balance, and the sum itself is kept. */
  lemma TransferKeepsTotal(m: Accounts, feeReceiver: Bytes, t: Transfer)
    requires Total(m) < TWO_64 && t.amount + t.fee < TWO_64
    ensures var after := AfterTransfer(m, feeReceiver, t);
            Total(after) == Total(m) - If(Rejection(m, t).None?, Burnt(feeReceiver, t))
  {
    if Rejection(m, t).Some? {
      TotalUpdate(m, t.from, Lookup(m, t.from));
    } else {
      hide Total, CreditWraps, AfterTransfer, Rejection;
      TransferTotal(m, feeReceiver, t);
    }
  }

  /** And every balance moves by exactly its delta. */
  lemma TransferMovesExactly(m: Accounts, feeReceiver: Bytes, t: Transfer, addr: Bytes)
    requires Total(m) < TWO_64 && t.amount + t.fee < TWO_64 && Rejection(m, t).None?
    ensures Lookup(AfterTransfer(m, feeReceiver, t), addr).balance
            == Lookup(m, addr).balance + Delta(feeReceiver, t, addr)
  {
    hide Total;
    WrapOfUint64(t.amount + t.fee);
    TotalAfterDebit(m, t);
    var debited := Debit(m, t);
    CreditExact(debited, t.to, t.amount, addr);
    var paid := Credit(debited, t.to, t.amount);
    CreditExact(paid, feeReceiver, t.fee, addr);
    assert AfterTransfer(m, feeReceiver, t) == if feeReceiver != [] then Credit(paid, feeReceiver, t.fee) else paid;
  }

  /**
   * From balances that fit in 64 bits, an applied transfer keeps the sum exactly when amount plus fee does not wrap, or
   * a credit wraps too and undoes it.
   */
  lemma TransferKeepsTotalIff(m: Accounts, feeReceiver: Bytes, t: Transfer)
    requires Total(m) < TWO_64 && Rejection(m, t).None?
    ensures Total(AfterTransfer(m, feeReceiver, t)) == Total(m) - Burnt(feeReceiver, t)
            <==> t.amount + t.fee < TWO_64 || PayOutWraps(m, feeReceiver, t)
  {
    hide Total, CreditWraps, AfterTransfer;
    TransferTotal(m, feeReceiver, t);
  }

  /** The sender of an applied transfer covers amount and fee exactly when their sum does not wrap. */
  lemma SenderCoversIff(m: Accounts, t: Transfer)
    requires Rejection(m, t).None?
    ensures Lookup(m, t.from).balance >= t.amount + t.fee <==> t.amount + t.fee < TWO_64
  {
    if t.amount + t.fee < TWO_64 {
      WrapOfUint64(t.amount + t.fee);
    }
  }

  /** The sum can be kept although amount plus fee wraps: the receiver's balance wraps as well. */
  lemma TwoWrapsCancel(from: Bytes, to: Bytes)
    requires from != to
    ensures var m: Accounts := map[to := Account(1, 0)];
            var t := Transfer(from, to, TWO_64 - 1, 1, 1);
            Rejection(m, t).None? && Total(m) == 1 && Total(AfterTransfer(m, [], t)) == 0 == Total(m) - Burnt([], t)
  {
    var m: Accounts := map[to := Account(1, 0)];
    var t := Transfer(from, to, TWO_64 - 1, 1, 1);
    TotalUpdate(map[], to, Account(1, 0));
    assert CreditWraps(Debit(m, t), t.to, t.amount);
    TransferTotal(m, [], t);
  }

  /** The ledger itself does not check that sum: one that wraps lets an empty account pay. */
  lemma WrappedSumMints(from: Bytes, to: Bytes)
    requires from != to
    ensures var t := Transfer(from, to, TWO_64 - 1, 1, 1);
            var after := AfterTransfer(map[], [], t);
            Total(map[]) == 0 && Rejection(map[], t).None? && Lookup(after, to).balance == TWO_64 - 1
  {
  }

  // ---------- The fee floor and the pre-check ----------

  /** Go's minFeeMas on uint64, the product included. */
  function MinFee(amount: uint64, feeBps: nat): (r: uint64)
    ensures 1 <= r <= TWO_64 / 10000 + 1
  {
    var byBps := Wrap64(amount * feeBps + 9999) / 10000;
    if byBps < 1 then 1 else byBps
  }

  /** The fee floor is the rate rounded up, and at least one, exactly while amount times rate is below 2^64 - 9999. */
  lemma MinFeeIsCeiling(amount: uint64, feeBps: nat)
    ensures var fee := MinFee(amount, feeBps);
            10000 * fee >= amount * feeBps && (fee == 1 || 10000 * (fee - 1) < amount * feeBps)
            <==> amount * feeBps + 9999 < TWO_64
  {
    CeilingIff(amount * feeBps, MinFee(amount, feeBps));
  }

  lemma CeilingIff(product: int, fee: int)
    requires product >= 0 && fee == if Wrap64(product + 9999) / 10000 < 1 then 1 else Wrap64(product + 9999) / 10000
    ensures 10000 * fee >= product && (fee == 1 || 10000 * (fee - 1) < product) <==> product + 9999 < TWO_64
  {
    if product + 9999 < TWO_64 {
      WrapOfUint64(product + 9999);
    } else {
      WholeWraps(product + 9999 - TWO_64, 1);
      WrapAtMost(product + 9999 - TWO_64);
    }
  }

  lemma WrapAtMost(x: nat)
    ensures Wrap64(x) <= x
  {
  }

  /** A floor whose product wraps undercharges: at 25 basis points this amount owes a four-hundredth of itself. */
  lemma WrappedFloorUndercharges()
    ensures var amount := TWO_64 / 25 + 1;
            amount < TWO_63 && MinFee(amount, 25) == 1 && 10000 * MinFee(amount, 25) < amount * 25
  {
  }
}
