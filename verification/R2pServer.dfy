/** The handlers of internal/rpc/router.go as an object: payment requests are records changed through references. */
module R2pServer {
  import opened Common
  import opened Text
  import opened Ledger
  import opened StateDB
  import opened Chain
  import opened Router
  import Engine

  class R2pRecord {
    const terms: Record
    var status: R2pStatus
    var paidUtc: int
    var declinedUtc: int
    var canceledUtc: int
    var txHash: Bytes

    ghost function View(): Record
      reads this
    {
      terms.(status := status, paidUtc := paidUtc, declinedUtc := declinedUtc, canceledUtc := canceledUtc,
          txHash := txHash)
    }

    constructor (r: Record)
      ensures View() == r
    {
      terms := r;
      status, paidUtc, declinedUtc, canceledUtc, txHash := r.status, r.paidUtc, r.declinedUtc, r.canceledUtc, r.txHash;
    }

    /** Sets the final status, its time and the transaction hash. */
    method Set(status: R2pStatus, paidUtc: int, declinedUtc: int, canceledUtc: int, txHash: Bytes)
      modifies this
      ensures View() == old(View()).(
                status := status, paidUtc := paidUtc, declinedUtc := declinedUtc, canceledUtc := canceledUtc,
                txHash := txHash)
    {
      this.status := status;
      this.paidUtc, this.declinedUtc, this.canceledUtc := paidUtc, declinedUtc, canceledUtc;
      this.txHash := txHash;
    }
  }

  class Server {
    const cfg: Config
    const eng: Engine.Node
    var store: map<Bytes, R2pRecord>

    /** What paid each record. */
    ghost var settled: map<Bytes, Settlement>

    ghost predicate Valid()
      reads this, eng, eng.db
    {
      && eng.Valid() && eng.env == cfg.env && eng.db.feeReceiver == cfg.feeReceiver
      && forall a, b :: a in store && b in store && a != b ==> store[a] != store[b]
    }

    ghost function Records(): map<Bytes, Record>
      reads this, store.Values
    {
      map id | id in store :: store[id].View()
    }

    ghost function View(): Router.Node
      reads this, store.Values, eng, eng.db, eng.db.accts.Values
    {
      Router.Node(eng.View(), Records(), settled)
    }

    constructor (cfg: Config, eng: Engine.Node)
      requires eng.Valid() && eng.env == cfg.env && eng.db.feeReceiver == cfg.feeReceiver
      ensures Valid() && this.cfg == cfg && this.eng == eng && store == map[] && settled == map[]
    {
      this.cfg, this.eng := cfg, eng;
      store, settled := map[], map[];
    }

    /** POST /tx behind its pre-check; the verdict of the other checks is a parameter. */
    method Post(tx: TxPre, otherChecks: bool, now: int)
      requires Valid()
      modifies eng, eng.db`accts, eng.db.accts.Values
      ensures Valid() && fresh(eng.db.accts.Values - old(eng.db.accts.Values))
      ensures View() == PostTx(cfg, old(View()), Request.Post(tx, otherChecks, now))
    {
      hide DB.View, PassesPrecheck, ApplyAndStore;
      var errs := Precheck(cfg, tx, eng.height);
      if errs != [] || !otherChecks {
        return;
      }
      var receipt := ApplyStore(Posted(tx), now);
    }

    /** eng.ApplyTransfer, then eng.StoreReceipt with the outcome. */
    method ApplyStore(t: TxTransfer, now: int) returns (err: Option<TransferError>)
      requires Valid()
      modifies eng, eng.db`accts, eng.db.accts.Values
      ensures Valid() && fresh(eng.db.accts.Values - old(eng.db.accts.Values))
      ensures err == Rejection(old(View()).chain.accounts, Moves(t))
      ensures View() == old(View()).(chain := ApplyAndStore(cfg, old(View()).chain, t, now))
    {
      hide View, Rejection, AfterTransfer, Chain.StoreReceipt;
      err := ApplyOnly(t);
      if err.Some? {
        var r := StoreOnly(t, false, Reason(err.value), now);
      } else {
        var r := StoreOnly(t, true, "", now);
      }
    }

    method Create(payee: Bytes, payer: Bytes, amountMas: int64, memo: Bytes, newId: Bytes, now: int)
      requires Valid()
      modifies this`store
      ensures Valid() && fresh(store.Values - old(store.Values))
      ensures View() == CreateRecord(cfg, old(View()), Request.Create(payee, payer, amountMas, memo, newId, now))
    {
      hide View;
      var from, to := cfg.resolve(payee), cfg.resolve(payer);
      if from.None? || to.None? || amountMas <= 0 {
        return;
      }
      var (addr, name, version) := from.value;
      AddRecord(newId, Record(newId, addr, to.value.0, amountMas, memo, Open, now, 0, 0, 0, [],
                              name, if name == [] then 0 else version));
    }

    /** Stores a new record object under an id. */
    method AddRecord(id: Bytes, r: Record)
      requires Valid()
      modifies this`store
      ensures Valid() && fresh(store.Values - old(store.Values))
      ensures View() == old(View()).(store := old(View()).store[id := r])
    {
      hide Engine.Node.View;
      var rec := new R2pRecord(r);
      ghost var before := store;
      assert forall a :: a in before ==> before[a] in before.Values && before[a] != rec;
      store := store[id := rec];
      assert forall c :: c in store.Values ==> c == rec || c in before.Values;
      assert Records() == old(Records())[id := r];
    }

    /** The common checks: the record is known and open and the actor is the right party. */
    method OpenFor(id: Bytes, actor: Bytes, asPayee: bool) returns (rec: R2pRecord?)
      requires Valid()
      ensures rec == null <==> !ActsOn(cfg, View(), id, actor, asPayee)
      ensures rec != null ==> id in store && rec == store[id]
      ensures rec != null ==> View().store[id] == rec.View()
      ensures rec != null ==> rec.View().id == rec.terms.id && rec.View().to == rec.terms.to
    {
      hide Engine.Node.View;
      if id == [] || id !in store {
        return null;
      }
      rec := store[id];
      if rec.status != Open {
        return null;
      }
      var party := if asPayee then rec.terms.from else rec.terms.to;
      var named := if actor == [] then party else actor;
      var addr := cfg.Address(named);
      if addr != Some(party) {
        return null;
      }
    }

    method Decline(id: Bytes, actor: Bytes, now: int)
      requires Valid()
      modifies store.Values
      ensures Valid()
      ensures View() == DeclineRecord(cfg, old(View()), Request.Decline(id, actor, now))
    {
      hide View, ActsOn;
      var rec := OpenFor(id, actor, false);
      if rec == null {
        return;
      }
      assert rec in store.Values;
      Close(id, rec, Declined, rec.paidUtc, now, rec.canceledUtc, []);
    }

    method Cancel(id: Bytes, actor: Bytes, now: int)
      requires Valid()
      modifies store.Values
      ensures Valid()
      ensures View() == CancelRecord(cfg, old(View()), Request.Cancel(id, actor, now))
    {
      hide View, ActsOn;
      var rec := OpenFor(id, actor, true);
      if rec == null {
        return;
      }
      assert rec in store.Values;
      Close(id, rec, Canceled, rec.paidUtc, rec.declinedUtc, now, []);
    }

    /** Closes a stored record through the reference. */
    method Close(id: Bytes, rec: R2pRecord, status: R2pStatus, paidUtc: int, declinedUtc: int, canceledUtc: int,
                 txHash: Bytes)
      requires Valid() && id in store && store[id] == rec
      modifies rec
      ensures Valid()
      ensures View() == old(View()).(store := old(View()).store[id := old(rec.View()).(
                          status := status, paidUtc := paidUtc, declinedUtc := declinedUtc,
                          canceledUtc := canceledUtc, txHash := txHash)])
    {
      hide Engine.Node.View, R2pRecord.View;
      rec.Set(status, paidUtc, declinedUtc, canceledUtc, txHash);
      assert Records() == old(Records())[id := rec.View()];
    }

    /** eng.GetAccount(payer).Nonce + 1 goes into the transfer; reading the account may create it. */
    method PrepareTransfer(rec: R2pRecord, feeMas: int64) returns (t: TxTransfer)
      requires Valid() && rec in store.Values
      modifies eng.db`accts
      ensures Valid() && fresh(eng.db.accts.Values - old(eng.db.accts.Values))
      ensures t == Approval(cfg, old(View()), old(rec.View()), feeMas)
      ensures View() == old(View()).(chain := old(View()).chain.(accounts :=
                          Touch(old(View()).chain.accounts, rec.terms.to)))
    {
      hide DB.View, Touch, ApprovalFee;
      var fee := ApprovalFee(cfg, rec.terms, feeMas);
      SameFee(cfg, rec.terms, rec.View(), feeMas);
      var acc := eng.GetAccount(rec.terms.to);
      t := TxTransfer(1, rec.terms.to, rec.terms.from, rec.terms.amountMas, fee, Wrap64(acc.nonce + 1),
          Ascii(CHAIN_ID), 0, []);
    }

    /** The transfer is applied first; what follows depends on its outcome and on developer mode. */
    method Approve(id: Bytes, actor: Bytes, feeMas: int64, devFree: bool, now: int)
      requires Valid()
      modifies this`settled, store.Values, eng, eng.db`accts, eng.db.accts.Values
      ensures Valid() && fresh(eng.db.accts.Values - old(eng.db.accts.Values))
      ensures View() == ApproveRecord(cfg, old(View()), Request.Approve(id, actor, feeMas, devFree, now))
    {
      hide View, Records, DB.View, Engine.Node.View, ActsOn, Approval, Touch, Rejection, AfterTransfer,
           Chain.StoreReceipt, DevHash, TxHash, SettlementOf;
      var rec := OpenFor(id, actor, false);
      if rec == null {
        return;
      }
      assert rec in store.Values;
      var t := PrepareTransfer(rec, feeMas);
      var err := ApplyOnly(t);
      if err.Some? {
        if devFree && err.value.InsufficientFunds? {
          Close(id, rec, Paid, now, rec.declinedUtc, rec.canceledUtc, DevHash(rec.terms.id));
          return;
        }
        var rejected := StoreOnly(t, false, Reason(err.value), now);
        return;
      }
      var rc := StoreOnly(t, true, "", now);
      Settle(id, SettlementOf(cfg, old(View()), old(rec.View()), feeMas));
      Close(id, rec, Paid, now, rec.declinedUtc, rec.canceledUtc, rc.txHash);
    }

    ghost method Settle(id: Bytes, settlement: Settlement)
      requires Valid()
      modifies this`settled
      ensures Valid() && View() == old(View()).(settled := old(View()).settled[id := settlement])
    {
      settled := settled[id := settlement];
    }

    method ApplyOnly(t: TxTransfer) returns (err: Option<TransferError>)
      requires Valid()
      modifies eng.db`accts, eng.db.accts.Values
      ensures Valid() && fresh(eng.db.accts.Values - old(eng.db.accts.Values))
      ensures err == Rejection(old(View()).chain.accounts, Moves(t))
      ensures View() == old(View()).(chain := old(View()).chain.(accounts :=
                          AfterTransfer(old(View()).chain.accounts, cfg.feeReceiver, Moves(t))))
    {
      hide DB.View, Rejection, AfterTransfer, R2pRecord.View;
      err := eng.ApplyTransfer(Moves(t));
    }

    method StoreOnly(t: TxTransfer, applied: bool, reason: string, now: int) returns (r: Receipt)
      requires Valid()
      modifies eng
      ensures Valid()
      ensures r.txHash == TxHash(cfg.env, t)
      ensures View() == old(View()).(chain := Chain.StoreReceipt(cfg.env, old(View()).chain, t, applied, reason, now))
    {
      hide DB.View, Engine.Node.View, TxHash, Chain.StoreReceipt, R2pRecord.View;
      r := eng.StoreReceipt(t, applied, reason, now);
    }
  }

  lemma SameFee(cfg: Config, a: Record, b: Record, feeMas: int64)
    requires a.amountMas == b.amountMas
    ensures ApprovalFee(cfg, a, feeMas) == ApprovalFee(cfg, b, feeMas)
  {
  }
}
