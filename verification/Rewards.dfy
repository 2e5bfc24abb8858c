/** internal/rewards/engine.go: the mint split and the division of the validator share, on uint64. */
module Rewards {
  import opened Common

  // internal/params/params.go
  const SPLIT_NETWORK := 80
  const SPLIT_FOUNDATION := 10
  const SPLIT_EXCHANGE := 10
  const EPOCH_LENGTH_BLOCKS := 100

  datatype Split = Split(network: uint64, foundation: uint64, exchange: uint64)

  /** One share of the total in percent, the product on 64 bits. */
  function Percent(total: uint64, percent: nat): uint64 {
    Wrap64(total * percent) / 100
  }

  lemma SharesWithinTotal(total: uint64)
    ensures Percent(total, 80) + Percent(total, 10) + Percent(total, 10) <= total
  {
    WrapBelow(total * 80);
    WrapBelow(total * 10);
  }

  /** The shares always add up to the total, also when the products wrap. */
  function SplitMint(total: uint64): (s: Split)
    ensures s.network + s.foundation + s.exchange == total
  {
    if total == 0 then Split(0, 0, 0) else
    var network := Percent(total, SPLIT_NETWORK);
    var foundation := Percent(total, SPLIT_FOUNDATION);
    var exchange := Percent(total, SPLIT_EXCHANGE);
    var allotted := Wrap64(network + foundation + exchange);
    SharesWithinTotal(total);
    WrapOfUint64(network + foundation + exchange);
    Split(if allotted < total then Wrap64(network + (total - allotted)) else network, foundation, exchange)
  }

  lemma TenPercentIff(total: uint64)
    ensures Percent(total, 10) == total / 10 <==> 10 * total < TWO_64
  {
    WrapBelow(total * 10);
    if 10 * total >= TWO_64 {
      WrapBelow(total * 10 - TWO_64);
      WrapTwice(total * 10, -TWO_64);
    }
  }

  /** The split is 80/10/10, rounding left to the network, exactly while ten times the total fits in 64 bits. */
  lemma SplitFairIff(total: uint64)
    ensures SplitMint(total) == Split(total - 2 * (total / 10), total / 10, total / 10) <==> 10 * total < TWO_64
  {
    hide Percent, Wrap64;
    TenPercentIff(total);
  }

  /** Whatever the total, foundation and exchange each get the tenth that 64 bits give. */
  lemma TenthsOf(total: uint64)
    ensures SplitMint(total).foundation == SplitMint(total).exchange == Wrap64(10 * total) / 100
    ensures 10 * total < TWO_64 ==> Wrap64(10 * total) / 100 == total / 10
    ensures 10 * total < TWO_64 ==> SplitMint(total).network == total - 2 * (total / 10)
  {
    hide Wrap64;
    SplitFairIff(total);
    if 10 * total < TWO_64 {
      WrapOfUint64(10 * total);
    }
  }

  function EpochOf(height: nat): nat {
    height / EPOCH_LENGTH_BLOCKS
  }

  // ---------- Weights ----------

  datatype ValidatorScore = ValidatorScore(
    address: Bytes, stakeClass: int, consensusScore: int64, participation: int64, poolNode: bool)

  datatype WeightConfig = WeightConfig(stakeBase: map<int, uint64>, poolMultiplier: uint64)

  datatype ValidatorWeight = ValidatorWeight(address: Bytes, weight: uint64)

  datatype ValidatorPayout = ValidatorPayout(address: Bytes, amount: uint64)

  /** A missing class reads as zero. */
  function StakeBase(cfg: WeightConfig, v: ValidatorScore): uint64 {
    if v.stakeClass in cfg.stakeBase then cfg.stakeBase[v.stakeClass] else 0
  }

  function WeightOf(cfg: WeightConfig, v: ValidatorScore): ValidatorWeight {
    var weight := Wrap64Signed(StakeBase(cfg, v) + v.consensusScore + v.participation);
    var out := if weight < 0 then 0 else weight;
    ValidatorWeight(v.address, if v.poolNode then Wrap64(out * cfg.poolMultiplier) else out)
  }

  /** While nothing wraps a weight is base plus scores, at least zero, times the pool multiplier for a pool node. */
  lemma WeightIsScaledScore(cfg: WeightConfig, v: ValidatorScore)
    requires var base := if v.stakeClass in cfg.stakeBase then cfg.stakeBase[v.stakeClass] else 0;
             var sum := base + v.consensusScore + v.participation;
             -TWO_63 <= sum < TWO_63 && (sum > 0 && v.poolNode ==> sum * cfg.poolMultiplier < TWO_64)
    ensures var base := if v.stakeClass in cfg.stakeBase then cfg.stakeBase[v.stakeClass] else 0;
            var sum := base + v.consensusScore + v.participation;
            WeightOf(cfg, v)
            == ValidatorWeight(v.address, if sum <= 0 then 0 else if v.poolNode then sum * cfg.poolMultiplier else sum)
  {
    hide Wrap64Signed, Wrap64;
    var sum := StakeBase(cfg, v) + v.consensusScore + v.participation;
    SignedWrapInRange(sum);
    if sum > 0 && v.poolNode {
      Nonnegative(sum, cfg.poolMultiplier);
      WrapOfUint64(sum * cfg.poolMultiplier);
    } else {
      WrapOfUint64(0);
      assert 0 * cfg.poolMultiplier == 0;
    }
  }

  lemma SignedWrapInRange(x: int)
    requires -TWO_63 <= x < TWO_63
    ensures Wrap64Signed(x) == x
  {
  }

  function WeightsOf(cfg: WeightConfig, vs: seq<ValidatorScore>): (ws: seq<ValidatorWeight>)
    ensures |ws| == |vs|
  {
    if vs == [] then [] else WeightsOf(cfg, vs[..|vs| - 1]) + [WeightOf(cfg, vs[|vs| - 1])]
  }

  function SumWeights(ws: seq<ValidatorWeight>): nat {
    if ws == [] then 0 else SumWeights(ws[..|ws| - 1]) + ws[|ws| - 1].weight
  }

  function Paid(ps: seq<ValidatorPayout>): nat {
    if ps == [] then 0 else Paid(ps[..|ps| - 1]) + ps[|ps| - 1].amount
  }

  /** The validators that are paid at all. */
  function Weighted(ws: seq<ValidatorWeight>): (r: seq<ValidatorWeight>)
    ensures SumWeights(r) == SumWeights(ws) && |r| <= |ws|
    ensures forall w :: w in r <==> w in ws && w.weight != 0
  {
    if ws == [] then [] else
    var init, last := Weighted(ws[..|ws| - 1]), ws[|ws| - 1];
    assert ws == ws[..|ws| - 1] + [last];
    if last.weight == 0 then init else
    assert (init + [last])[..|init|] == init;
    init + [last]
  }

  // ---------- Floors and the hand-out ----------

  function FloorShare(share: uint64, weight: uint64, total: uint64): uint64
    requires total > 0
  {
    Wrap64(share * weight) / total
  }

  function Floors(ws: seq<ValidatorWeight>, share: uint64, total: uint64): (r: seq<ValidatorPayout>)
    requires total > 0
    ensures |r| == |ws|
  {
    if ws == [] then [] else
    var last := ws[|ws| - 1];
    Floors(ws[..|ws| - 1], share, total) + [ValidatorPayout(last.address, FloorShare(share, last.weight, total))]
  }

  lemma {:induction false} FloorsAt(ws: seq<ValidatorWeight>, share: uint64, total: uint64, i: nat)
    requires total > 0 && i < |ws|
    ensures Floors(ws, share, total)[i] == ValidatorPayout(ws[i].address, FloorShare(share, ws[i].weight, total))
  {
    if i < |ws| - 1 {
      FloorsAt(ws[..|ws| - 1], share, total, i);
    }
  }

  /** One more for each of the first n payouts. */
  function Bump(ps: seq<ValidatorPayout>, n: nat): (r: seq<ValidatorPayout>)
    ensures |r| == |ps|
    ensures forall i :: 0 <= i < |ps| ==>
              r[i] == ValidatorPayout(ps[i].address, if i < n then Wrap64(ps[i].amount + 1) else ps[i].amount)
  {
    if ps == [] then [] else
    var k := |ps| - 1;
    Bump(ps[..k], n) + [if k < n then ps[k].(amount := Wrap64(ps[k].amount + 1)) else ps[k]]
  }

  function TotalWeight(ws: seq<ValidatorWeight>): uint64 {
    Wrap64(SumWeights(ws))
  }

  /** The floors of the weights that are not zero. */
  function FloorsOf(ws: seq<ValidatorWeight>, share: uint64): (r: seq<ValidatorPayout>)
    requires TotalWeight(ws) > 0
    ensures |r| == |Weighted(ws)|
  {
    Floors(Weighted(ws), share, TotalWeight(ws))
  }

  /** What Compute pays for a list of weights: floors, then the remainder one by one from the front. */
  function Payouts(ws: seq<ValidatorWeight>, share: uint64): seq<ValidatorPayout> {
    if TotalWeight(ws) == 0 || share == 0 then []
    else Bump(FloorsOf(ws, share), Wrap64(share - Paid(FloorsOf(ws, share))))
  }

  lemma FloorBounds(p: nat, total: nat)
    requires total > 0
    ensures total * (p / total) <= p < total * (p / total) + total
  {
  }

  /** Floors never exceed the proportional shares they round, wrapped or not, in sum either. */
  lemma {:induction false} FloorsWithinShare(ws: seq<ValidatorWeight>, share: uint64, total: uint64)
    requires total > 0
    ensures total * Paid(Floors(ws, share, total)) <= share * SumWeights(ws)
  {
    if ws != [] {
      var k := |ws| - 1;
      FloorsWithinShare(ws[..k], share, total);
      FloorsUnfold(ws, share, total);
      FloorShareBounds(share, ws[k].weight, total);
      hide *;
      WithinStep(share, total, SumWeights(ws[..k]), Paid(Floors(ws[..k], share, total)), ws[k].weight,
                 FloorShare(share, ws[k].weight, total));
    }
  }

  lemma FloorsUnfold(ws: seq<ValidatorWeight>, share: uint64, total: uint64)
    requires total > 0 && ws != []
    ensures var k := |ws| - 1;
            && SumWeights(ws) == SumWeights(ws[..k]) + ws[k].weight
            && Paid(Floors(ws, share, total))
                == Paid(Floors(ws[..k], share, total)) + FloorShare(share, ws[k].weight, total)
  {
    hide FloorShare;
    var k, floors := |ws| - 1, Floors(ws, share, total);
    assert floors[..k] == Floors(ws[..k], share, total);
  }

  lemma WithinStep(share: int, total: int, weights: int, paid: int, w: int, amount: int)
    requires total * paid <= share * weights && total * amount <= share * w
    ensures total * (paid + amount) <= share * (weights + w)
  {
    Distribute(total, paid, amount);
    Distribute(share, weights, w);
  }

  lemma FloorShareBounds(share: uint64, w: uint64, total: uint64)
    requires total > 0
    ensures total * FloorShare(share, w, total) <= share * w
    ensures share * w < TWO_64 ==> FloorShare(share, w, total) == share * w / total
    ensures share * w < TWO_64 ==> share * w <= total * FloorShare(share, w, total) + (total - 1)
  {
    Nonnegative(share, w);
    WrapBelow(share * w);
    FloorBounds(Wrap64(share * w), total);
  }

  lemma Nonnegative(a: nat, b: nat)
    ensures a * b >= 0
  {
  }

  lemma WrapBelow(p: nat)
    ensures Wrap64(p) <= p
    ensures p < TWO_64 ==> Wrap64(p) == p
  {
  }

  lemma Distribute(a: int, b: int, c: int)
    ensures a * (b + c) == a * b + a * c
  {
  }

  predicate ProductsFit(ws: seq<ValidatorWeight>, share: uint64) {
    forall w :: w in ws ==> share * w.weight < TWO_64
  }

  /** Without wrap the floors fall short by less than one unit per payout. */
  lemma {:induction false} FloorsCloseToShare(ws: seq<ValidatorWeight>, share: uint64, total: uint64)
    requires total > 0 && ProductsFit(ws, share)
    ensures share * SumWeights(ws) <= total * Paid(Floors(ws, share, total)) + (total - 1) * |ws|
  {
    if ws != [] {
      var k := |ws| - 1;
      assert ws[k] in ws;
      FloorsCloseToShare(ws[..k], share, total);
      FloorsUnfold(ws, share, total);
      FloorShareBounds(share, ws[k].weight, total);
      hide *;
      CloseStep(share, total, SumWeights(ws[..k]), Paid(Floors(ws[..k], share, total)), k, ws[k].weight,
                FloorShare(share, ws[k].weight, total));
    }
  }

  lemma CloseStep(share: int, total: int, weights: int, paid: int, k: int, w: int, amount: int)
    requires share * weights <= total * paid + (total - 1) * k
    requires share * w <= total * amount + (total - 1)
    ensures share * (weights + w) <= total * (paid + amount) + (total - 1) * (k + 1)
  {
    Distribute(share, weights, w);
    Distribute(total, paid, amount);
    Distribute(total - 1, k, 1);
  }

  lemma {:induction false} PaidAfterBump(ps: seq<ValidatorPayout>, n: nat)
    requires forall p :: p in ps ==> n > 0 ==> p.amount + 1 < TWO_64
    ensures Paid(Bump(ps, n)) == Paid(ps) + Min(n, |ps|)
  {
    hide Wrap64;
    if ps != [] {
      var k := |ps| - 1;
      PaidAfterBump(ps[..k], n);
      assert Bump(ps, n)[..k] == Bump(ps[..k], n);
      assert ps[k] in ps;
      BumpedAmount(ps[k].amount, n);
    }
  }

  lemma {:induction false} AmountWithinPaid(ps: seq<ValidatorPayout>, p: ValidatorPayout)
    requires p in ps
    ensures p.amount <= Paid(ps)
  {
    var k := |ps| - 1;
    if p != ps[k] {
      AmountWithinPaid(ps[..k], p);
    }
  }

  lemma CancelFactor(a: int, b: int, c: int)
    requires c > 0 && c * a <= c * b
    ensures a <= b
  {
  }

  lemma {:induction false} FlooredWithinShare(ws: seq<ValidatorWeight>, share: uint64)
    requires 0 < SumWeights(ws) < TWO_64
    ensures TotalWeight(ws) == SumWeights(ws) && Paid(FloorsOf(ws, share)) <= share
  {
    hide FloorShare, Weighted, SumWeights;
    WrapOfUint64(SumWeights(ws));
    FloorsWithinShare(Weighted(ws), share, SumWeights(ws));
    CancelFactor(Paid(FloorsOf(ws, share)), share, SumWeights(ws));
  }

  // ---------- Every unit, whatever wraps ----------

  lemma {:induction false} FloorsByOne(ws: seq<ValidatorWeight>, share: uint64)
    ensures Wrap64(Paid(Floors(ws, share, 1))) == Wrap64(share * SumWeights(ws))
  {
    hide Wrap64, FloorShare;
    if ws != [] {
      var k := |ws| - 1;
      FloorsByOne(ws[..k], share);
      FloorsUnfold(ws, share, 1);
      FloorByOne(share, ws[k].weight);
      hide *;
      ByOneStep(share, SumWeights(ws[..k]), Paid(Floors(ws[..k], share, 1)), ws[k].weight,
          FloorShare(share, ws[k].weight, 1));
    }
  }

  lemma ByOneStep(share: int, weights: int, paid: int, w: int, amount: uint64)
    requires Wrap64(paid) == Wrap64(share * weights) && amount == Wrap64(share * w)
    ensures Wrap64(paid + amount) == Wrap64(share * (weights + w))
  {
    hide Wrap64;
    Distribute(share, weights, w);
    WrappedSum(paid, amount, share * weights, share * w);
  }

  lemma FloorByOne(share: uint64, w: uint64)
    ensures FloorShare(share, w, 1) == Wrap64(share * w)
  {
  }

  lemma WrappedSum(a: int, b: uint64, c: int, d: int)
    requires Wrap64(a) == Wrap64(c) && b == Wrap64(d)
    ensures Wrap64(a + b) == Wrap64(c + d)
  {
    hide Wrap64;
    WrapTwice(a, b);
    WrapTwice(d, Wrap64(c));
    WrapTwice(c, d);
  }

  lemma WrappedProduct(share: uint64, sum: nat)
    requires Wrap64(sum) == 1
    ensures Wrap64(share * sum) == share
  {
    var q := sum / TWO_64;
    assert sum == q * TWO_64 + 1;
    Distribute(share, q * TWO_64, 1);
    assert share * (q * TWO_64) == (share * q) * TWO_64;
    assert share * sum == (share * q) * TWO_64 + share;
  }

  /** A total weight of one leaves nothing to hand out: the floors then add up to the share modulo 2^64. */
  lemma UnitTotalLeavesNothing(ws: seq<ValidatorWeight>, share: uint64)
    requires TotalWeight(ws) == 1
    ensures Wrap64(share - Paid(FloorsOf(ws, share))) == 0
  {
    FloorsByOne(Weighted(ws), share);
    WrappedProduct(share, SumWeights(ws));
    hide SumWeights, Weighted, Floors, Paid, Wrap64;
    NothingLeft(share, Paid(FloorsOf(ws, share)));
  }

  lemma NothingLeft(share: uint64, floored: nat)
    requires Wrap64(floored) == share
    ensures Wrap64(share - floored) == 0
  {
    WholeWraps(0, -(floored / TWO_64));
  }

  lemma FloorsBelowHalf(ws: seq<ValidatorWeight>, share: uint64, total: uint64, p: ValidatorPayout)
    requires total > 1 && p in Floors(ws, share, total)
    ensures p.amount <= TWO_63
  {
    var floors := Floors(ws, share, total);
    var i :| 0 <= i < |floors| && floors[i] == p;
    FloorsAt(ws, share, total, i);
    HalfAtMost(Wrap64(share * ws[i].weight), total);
  }

  lemma HalfAtMost(x: uint64, total: uint64)
    requires total > 1
    ensures x / total <= TWO_63
  {
    FloorBounds(x, total);
    CountTimes(x / total, 2, total);
  }

  /** The hand-out itself never wraps an amount. */
  lemma NoBumpWraps(ws: seq<ValidatorWeight>, share: uint64)
    requires TotalWeight(ws) > 0
    ensures var floors := FloorsOf(ws, share);
            forall p :: p in floors && Wrap64(share - Paid(floors)) > 0 ==> p.amount + 1 < TWO_64
  {
    hide Wrap64, Weighted, Floors, Paid, SumWeights;
    var floors := FloorsOf(ws, share);
    if TotalWeight(ws) == 1 {
      UnitTotalLeavesNothing(ws, share);
    } else {
      forall p | p in floors ensures p.amount <= TWO_63 {
        FloorsBelowHalf(Weighted(ws), share, TotalWeight(ws), p);
      }
    }
  }

  /**
   * The account of every unit, for all weights and shares, whatever wraps: the floors are paid, and one unit more to as
   * many validators as the remainder on 64 bits reaches. The share is met exactly when it lies between the floors and
   * the floors plus one unit each; more is paid exactly when the floors alone exceed it, which needs a sum of weights
   * of at least 2^64.
   */
  lemma PaidAccounting(ws: seq<ValidatorWeight>, share: uint64)
    ensures if TotalWeight(ws) == 0 || share == 0 then Payouts(ws, share) == [] else
            var floored, paid := Paid(FloorsOf(ws, share)), Paid(Payouts(ws, share));
            && paid == floored + Min(Wrap64(share - floored), |Weighted(ws)|)
            && (paid <= share <==> floored <= share)
            && (paid == share <==> floored <= share <= floored + |Weighted(ws)|)
            && (SumWeights(ws) < TWO_64 ==> floored <= share)
  {
    hide Weighted, SumWeights, Floors, Bump, Paid, FloorsOf;
    if TotalWeight(ws) != 0 && share != 0 {
      PaidPayouts(ws, share);
      if SumWeights(ws) < TWO_64 {
        WrapOfUint64(SumWeights(ws));
        FlooredWithinShare(ws, share);
      }
      hide *;
      WithinShareIff(share, Paid(FloorsOf(ws, share)), |Weighted(ws)|);
    }
  }

  lemma PaidPayouts(ws: seq<ValidatorWeight>, share: uint64)
    requires TotalWeight(ws) > 0 && share > 0
    ensures Paid(Payouts(ws, share))
            == Paid(FloorsOf(ws, share)) + Min(Wrap64(share - Paid(FloorsOf(ws, share))), |Weighted(ws)|)
  {
    hide Weighted, SumWeights, Floors, Bump, Paid, Wrap64, FloorsOf, TotalWeight;
    NoBumpWraps(ws, share);
    PaidAfterBump(FloorsOf(ws, share), Wrap64(share - Paid(FloorsOf(ws, share))));
  }

  lemma WithinShareIff(share: uint64, floored: nat, count: nat)
    requires share > 0
    ensures var paid := floored + Min(Wrap64(share - floored), count);
            && (paid <= share <==> floored <= share)
            && (paid == share <==> floored <= share <= floored + count)
  {
    if floored <= share {
      WrapOfUint64(share - floored);
    }
    hide Wrap64;
  }

  lemma PayoutsAreBumpedFloors(ws: seq<ValidatorWeight>, share: uint64)
    requires share > 0 && 0 < SumWeights(ws) < TWO_64
    ensures TotalWeight(ws) == SumWeights(ws) && Paid(FloorsOf(ws, share)) <= share
    ensures Payouts(ws, share) == Bump(FloorsOf(ws, share), share - Paid(FloorsOf(ws, share)))
  {
    hide FloorShare, Weighted, SumWeights, Wrap64, FloorsOf, Bump, TotalWeight;
    FlooredWithinShare(ws, share);
    WrapOfUint64(share - Paid(FloorsOf(ws, share)));
  }

  lemma NoFloorOverflows(floors: seq<ValidatorPayout>, share: uint64)
    requires Paid(floors) <= share
    ensures forall p :: p in floors ==> share - Paid(floors) > 0 ==> p.amount + 1 < TWO_64
  {
    forall p | p in floors ensures share - Paid(floors) > 0 ==> p.amount + 1 < TWO_64 {
      AmountWithinPaid(floors, p);
    }
  }

  // ---------- Two departures ----------

  /** A pool node of weight 2^63, by way of its stake and the multiplier. */
  const POOL_CONFIG := WeightConfig(map[0 := TWO_63 / 2, 1 := TWO_63 - 1, 2 := 2], 2)

  function Staker(addr: Bytes, stakeClass: int): ValidatorScore {
    ValidatorScore(addr, stakeClass, 0, 0, stakeClass == 0)
  }

  lemma WeightOfStaker(addr: Bytes)
    ensures WeightOf(POOL_CONFIG, Staker(addr, 0)) == ValidatorWeight(addr, TWO_63)
    ensures WeightOf(POOL_CONFIG, Staker(addr, 1)) == ValidatorWeight(addr, TWO_63 - 1)
    ensures WeightOf(POOL_CONFIG, Staker(addr, 2)) == ValidatorWeight(addr, 2)
  {
  }

  /** A wrapped product can leave part of the share unpaid: here one unit of two. */
  lemma WrappedProductUnderpays(addr: Bytes)
    ensures var ws := WeightsOf(POOL_CONFIG, [Staker(addr, 0)]);
            SumWeights(ws) == TWO_63 && SplitMint(2).network == 2 && Paid(Payouts(ws, 2)) == 1
  {
    WeightOfStaker(addr);
    OneValidator(POOL_CONFIG, Staker(addr, 0));
    UnderpaidWeight(ValidatorWeight(addr, TWO_63));
  }

  lemma OneValidator(cfg: WeightConfig, v: ValidatorScore)
    ensures WeightsOf(cfg, [v]) == [WeightOf(cfg, v)]
  {
    hide WeightOf;
    assert [v][..0] == [];
  }

  lemma UnderpaidWeight(w: ValidatorWeight)
    requires w.weight == TWO_63
    ensures SumWeights([w]) == TWO_63 && SplitMint(2).network == 2 && Paid(Payouts([w], 2)) == 1
  {
    OneWeight(w);
    OneFloor(w);
    TwoToTheNetwork();
    hide Payouts, Floors, Weighted, SumWeights, Paid, Wrap64, FloorShare, SplitMint;
    PaidAccounting([w], 2);
    assert FloorsOf([w], 2) == Floors([w], 2, TWO_63);
  }

  lemma OneWeight(w: ValidatorWeight)
    requires w.weight > 0
    ensures SumWeights([w]) == w.weight && Weighted([w]) == [w] && TotalWeight([w]) == w.weight
  {
    assert [w][..0] == [];
    assert SumWeights([w]) == w.weight && Weighted([w]) == [w];
    WrapOfUint64(w.weight);
  }

  lemma OneFloor(w: ValidatorWeight)
    requires w.weight == TWO_63
    ensures Paid(Floors([w], 2, TWO_63)) == 0
  {
    var f := ValidatorPayout(w.address, 0);
    assert [w][..0] == [] && [f][..0] == [];
    assert FloorShare(2, TWO_63, TWO_63) == 0;
    assert Floors([w], 2, TWO_63) == [f];
  }

  lemma TwoToTheNetwork()
    ensures SplitMint(2).network == 2
  {
  }

  /** A wrapped sum of weights pays more than there is: three validators turn one unit into 2^64 + 1. */
  lemma WrappedSumOverpays(a: Bytes, b: Bytes, c: Bytes)
    ensures var ws := WeightsOf(POOL_CONFIG, [Staker(a, 0), Staker(b, 1), Staker(c, 2)]);
            SumWeights(ws) == TWO_64 + 1 && Paid(Payouts(ws, 1)) == TWO_64 + 1
  {
    WeightOfStaker(a);
    WeightOfStaker(b);
    WeightOfStaker(c);
    ThreeValidators(POOL_CONFIG, Staker(a, 0), Staker(b, 1), Staker(c, 2));
    hide Payouts, Paid, SumWeights, WeightsOf, WeightOf, Staker;
    OverpaidWeights(ValidatorWeight(a, TWO_63), ValidatorWeight(b, TWO_63 - 1), ValidatorWeight(c, 2));
  }

  lemma ThreeValidators(cfg: WeightConfig, u: ValidatorScore, v: ValidatorScore, w: ValidatorScore)
    ensures WeightsOf(cfg, [u, v, w]) == [WeightOf(cfg, u), WeightOf(cfg, v), WeightOf(cfg, w)]
  {
    hide WeightOf;
    assert [u, v, w][..2] == [u, v] && [u, v][..1] == [u] && [u][..0] == [];
    OneValidator(cfg, u);
    assert WeightsOf(cfg, [u, v]) == [WeightOf(cfg, u), WeightOf(cfg, v)];
  }

  lemma OverpaidWeights(x: ValidatorWeight, y: ValidatorWeight, z: ValidatorWeight)
    requires x.weight > 0 && y.weight > 0 && z.weight > 0 && x.weight + y.weight + z.weight == TWO_64 + 1
    ensures SumWeights([x, y, z]) == TWO_64 + 1 && Paid(Payouts([x, y, z], 1)) == TWO_64 + 1
  {
    ThreeWeights(x, y, z);
    ThreeFloors(x, y, z);
    OneAboveWraps();
    hide Payouts, Floors, Weighted, SumWeights, Paid, Wrap64, FloorShare;
    PaidAccounting([x, y, z], 1);
    assert TotalWeight([x, y, z]) == 1;
    assert FloorsOf([x, y, z], 1) == Floors([x, y, z], 1, 1);
  }

  lemma OneAboveWraps()
    ensures Wrap64(TWO_64 + 1) == 1 && Wrap64(1 - (TWO_64 + 1)) == 0
  {
  }

  lemma ThreeWeights(x: ValidatorWeight, y: ValidatorWeight, z: ValidatorWeight)
    requires x.weight > 0 && y.weight > 0 && z.weight > 0
    ensures SumWeights([x, y, z]) == x.weight + y.weight + z.weight && Weighted([x, y, z]) == [x, y, z]
  {
    OneMoreWeight([], x);
    OneMoreWeight([x], y);
    OneMoreWeight([x, y], z);
    NothingToPay(0, 1);
    assert SumWeights([]) == 0;
    hide SumWeights, Weighted;
    assert [] + [x] == [x] && [x] + [y] == [x, y] && [x, y] + [z] == [x, y, z];
  }

  lemma OneMoreWeight(ws: seq<ValidatorWeight>, w: ValidatorWeight)
    requires w.weight > 0
    ensures SumWeights(ws + [w]) == SumWeights(ws) + w.weight && Weighted(ws + [w]) == Weighted(ws) + [w]
  {
    assert (ws + [w])[..|ws|] == ws;
  }

  lemma ThreeFloors(x: ValidatorWeight, y: ValidatorWeight, z: ValidatorWeight)
    ensures Paid(Floors([x, y, z], 1, 1)) == x.weight + y.weight + z.weight
  {
    var p, q, r := ValidatorPayout(x.address, x.weight), ValidatorPayout(y.address, y.weight),
        ValidatorPayout(z.address, z.weight);
    UnitFloor(x.weight);
    UnitFloor(y.weight);
    UnitFloor(z.weight);
    hide FloorShare;
    assert [x, y, z][..2] == [x, y] && [x, y][..1] == [x] && [x][..0] == [];
    assert Floors([x], 1, 1) == [p];
    assert Floors([x, y], 1, 1) == [p, q];
    assert Floors([x, y, z], 1, 1) == [p, q, r];
    assert [p, q, r][..2] == [p, q] && [p, q][..1] == [p] && [p][..0] == [];
    assert Paid([p]) == p.amount;
    assert Paid([p, q]) == p.amount + q.amount;
  }

  lemma UnitFloor(w: uint64)
    ensures FloorShare(1, w, 1) == w
  {
  }

  lemma {:induction false} FewExtras(ws: seq<ValidatorWeight>, share: uint64)
    requires share > 0 && 0 < SumWeights(ws) < TWO_64 && ProductsFit(ws, share)
    ensures 0 <= share - Paid(FloorsOf(ws, share)) < |Weighted(ws)|
  {
    var total, floored, count := SumWeights(ws), Paid(FloorsOf(ws, share)), |Weighted(ws)|;
    FlooredWithinShare(ws, share);
    FloorsCloseToShare(Weighted(ws), share, total);
    assert count > 0;
    ShortfallBelowCount(share, floored, total, count);
  }

  lemma ShortfallBelowCount(share: int, floored: int, total: int, count: int)
    requires total > 0 && count > 0 && share * total <= total * floored + (total - 1) * count
    ensures share - floored < count
  {
    Distribute(total, floored, share - floored);
    Distribute(count, total, -1);
    if share - floored >= count {
      CountTimes(total, count, share - floored);
    }
  }

  lemma CountTimes(t: int, a: int, b: int)
    requires t >= 0 && a <= b
    ensures t * a <= t * b
  {
  }

  /**
   * Exact allocation: when no product and no sum wraps, the payouts add up to the share, each weighted validator
   * gets the floor of its proportional part or one more, and those with one more are a proper prefix.
   */
  lemma ExactAllocation(ws: seq<ValidatorWeight>, share: uint64)
    requires share > 0 && 0 < SumWeights(ws) < TWO_64 && ProductsFit(ws, share)
    ensures var paying, payouts := Weighted(ws), Payouts(ws, share);
            var extra := share - Paid(FloorsOf(ws, share));
            && Paid(payouts) == share
            && |payouts| == |paying| && 0 <= extra < |paying|
            && forall i :: 0 <= i < |paying| ==>
                 && payouts[i].address == paying[i].address
                 && payouts[i].amount == share * paying[i].weight / SumWeights(ws) + if i < extra then 1 else 0
  {
    hide Payouts, FloorsOf, FloorShare, Weighted, Paid, Bump, SumWeights;
    FewExtras(ws, share);
    PaidAccounting(ws, share);
    PayoutsAreBumpedFloors(ws, share);
    forall i | 0 <= i < |Weighted(ws)|
      ensures var p, w := Payouts(ws, share)[i], Weighted(ws)[i];
              p.address == w.address
              && p.amount == share * w.weight / SumWeights(ws) + if i < share - Paid(FloorsOf(ws, share)) then 1 else 0
    {
      AllocationAt(ws, share, i);
      FloorShareBounds(share, Weighted(ws)[i].weight, SumWeights(ws));
      assert Weighted(ws)[i] in Weighted(ws);
    }
  }

  /** How many of the weights are not zero. */
  function Paying(ws: seq<ValidatorWeight>): nat {
    if ws == [] then 0 else Paying(ws[..|ws| - 1]) + if ws[|ws| - 1].weight == 0 then 0 else 1
  }

  lemma {:induction false} PayingCounts(ws: seq<ValidatorWeight>)
    ensures |Weighted(ws)| == Paying(ws)
  {
    if ws != [] {
      PayingCounts(ws[..|ws| - 1]);
    }
  }

  lemma {:induction false} WeightedUnfolds(ws: seq<ValidatorWeight>)
    requires ws != []
    ensures var k := |ws| - 1;
            Weighted(ws) == Weighted(ws[..k]) + if ws[k].weight == 0 then [] else [ws[k]]
  {
    hide SumWeights;
  }

  lemma {:induction false} WeightedAt(ws: seq<ValidatorWeight>, i: nat)
    requires i < |ws| && ws[i].weight != 0
    ensures Paying(ws[..i]) < |Weighted(ws)| && Weighted(ws)[Paying(ws[..i])] == ws[i]
  {
    hide Weighted;
    var k := |ws| - 1;
    WeightedUnfolds(ws);
    if i == k {
      PayingCounts(ws[..k]);
    } else {
      WeightedAt(ws[..k], i);
      assert ws[..k][..i] == ws[..i];
    }
  }

  lemma {:induction false} WeightsAt(cfg: WeightConfig, vs: seq<ValidatorScore>, i: nat)
    requires i < |vs|
    ensures WeightsOf(cfg, vs)[i] == WeightOf(cfg, vs[i])
  {
    hide WeightOf;
    if i < |vs| - 1 {
      WeightsAt(cfg, vs[..|vs| - 1], i);
    }
  }

  /** Validator v with weight w, where k validators with a weight stand before it, has payout k. */
  predicate PaidAt(payouts: seq<ValidatorPayout>, k: nat, v: ValidatorScore, w: uint64, share: uint64, total: nat,
                   extra: nat)
    requires total > 0
  {
    && k < |payouts| && payouts[k].address == v.address
    && payouts[k].amount == share * w / total + if k < extra then 1 else 0
  }

  /**
   * Without wrap each validator with a weight is paid once, under its own address and in the given order: its
   * proportional part rounded down, and one unit more for the first of them until the share is used up.
   */
  lemma ValidatorsArePaid(cfg: WeightConfig, vs: seq<ValidatorScore>, share: uint64) returns (extra: nat)
    requires share > 0
    requires var ws := WeightsOf(cfg, vs); 0 < SumWeights(ws) < TWO_64 && ProductsFit(ws, share)
    ensures var ws := WeightsOf(cfg, vs);
            && extra < |Payouts(ws, share)| == Paying(ws) && Paid(Payouts(ws, share)) == share
            && forall i :: 0 <= i < |vs| && WeightOf(cfg, vs[i]).weight != 0 ==>
                 PaidAt(Payouts(ws, share), Paying(ws[..i]), vs[i], WeightOf(cfg, vs[i]).weight, share, SumWeights(ws),
                        extra)
  {
    hide Weighted, FloorsOf, Payouts, SumWeights, WeightsOf, WeightOf, Paid, Paying, ProductsFit;
    var ws := WeightsOf(cfg, vs);
    PayoutsAreBumpedFloors(ws, share);
    extra := share - Paid(FloorsOf(ws, share));
    ExactAllocation(ws, share);
    PayingCounts(ws);
    forall i | 0 <= i < |vs| && WeightOf(cfg, vs[i]).weight != 0
      ensures PaidAt(Payouts(ws, share), Paying(ws[..i]), vs[i], WeightOf(cfg, vs[i]).weight, share, SumWeights(ws),
                     extra)
    {
      WeightsAt(cfg, vs, i);
      WeightedAt(ws, i);
      AddressOfWeight(cfg, vs[i]);
    }
  }

  lemma AddressOfWeight(cfg: WeightConfig, v: ValidatorScore)
    ensures WeightOf(cfg, v).address == v.address
  {
  }

  lemma AllocationAt(ws: seq<ValidatorWeight>, share: uint64, i: nat)
    requires share > 0 && 0 < SumWeights(ws) < TWO_64
    requires i < |Weighted(ws)| && TotalWeight(ws) == SumWeights(ws) && Paid(FloorsOf(ws, share)) <= share
    ensures var extra, w := share - Paid(FloorsOf(ws, share)), Weighted(ws)[i];
            var p := Bump(FloorsOf(ws, share), extra)[i];
            && p.address == w.address
            && p.amount == FloorShare(share, w.weight, SumWeights(ws)) + if i < extra then 1 else 0
  {
    hide Wrap64, Weighted, FloorShare, Floors, Paid, SumWeights, TotalWeight, Bump;
    var floors := FloorsOf(ws, share);
    NoFloorOverflows(floors, share);
    assert floors[i] in floors;
    BumpedFloorAt(Weighted(ws), share, SumWeights(ws), share - Paid(floors), i);
  }

  lemma BumpedFloorAt(ws: seq<ValidatorWeight>, share: uint64, total: uint64, extra: nat, i: nat)
    requires total > 0 && i < |ws| && (extra > 0 ==> Floors(ws, share, total)[i].amount + 1 < TWO_64)
    ensures var p := Bump(Floors(ws, share, total), extra)[i];
            && p.address == ws[i].address
            && p.amount == FloorShare(share, ws[i].weight, total) + if i < extra then 1 else 0
  {
    hide Wrap64, FloorShare, Floors, Bump;
    FloorsAt(ws, share, total, i);
    BumpedAmount(Floors(ws, share, total)[i].amount, extra);
  }

  lemma BumpedAmount(amount: uint64, left: nat)
    requires left > 0 ==> amount + 1 < TWO_64
    ensures left > 0 ==> Wrap64(amount + 1) == amount + 1
  {
  }

  /** Without wrap in the weights' sum and the products, nothing of the share is left and nothing is added. */
  ghost predicate PaidInFull(ws: seq<ValidatorWeight>, share: uint64, payouts: seq<ValidatorPayout>) {
    0 < SumWeights(ws) < TWO_64 && ProductsFit(ws, share) ==> Paid(payouts) == share
  }

  lemma ShareIsPaid(ws: seq<ValidatorWeight>, share: uint64)
    ensures PaidInFull(ws, share, Payouts(ws, share))
  {
    hide SumWeights, ProductsFit, FloorsOf, Weighted, Wrap64;
    if 0 < SumWeights(ws) < TWO_64 && ProductsFit(ws, share) && share > 0 {
      ExactAllocation(ws, share);
    }
  }

  // ---------- Compute ----------

  datatype RewardBucket = RewardBucket(total: uint64, validatorShare: uint64, foundationShare: uint64,
      exchangeShare: uint64)

  datatype EpochRewardSummary = EpochRewardSummary(
    height: uint64, epoch: uint64, totalEmission: uint64,
    validatorShare: uint64, foundationShare: uint64, exchangeShare: uint64)

  /**
   * The shares add up to the total; foundation and exchange get a tenth each, as 64 bits give it, and the validators
   * the rest: 80 percent and the rounding while ten times the total fits.
   */
  ghost predicate BucketLaw(b: RewardBucket) {
    && b.validatorShare + b.foundationShare + b.exchangeShare == b.total
    && b.foundationShare == b.exchangeShare == Wrap64(10 * b.total) / 100
    && (10 * b.total < TWO_64 ==>
          b.foundationShare == b.exchangeShare == b.total / 10 && b.validatorShare == b.total - 2 * (b.total / 10))
  }

  /** The two emission curves are floating point; they enter as arbitrary functions of the height. */
  datatype RewardEngine = RewardEngine(
    emissionAt: uint64 -> uint64, blockMintAt: uint64 -> uint64, epochBlocks: uint64, weights: WeightConfig)
  {
    function CurrentEpoch(height: uint64): uint64 {
      if epochBlocks != 0 then height / epochBlocks else EpochOf(height)
    }

    method Compute(height: uint64, validators: seq<ValidatorScore>)
      returns (bucket: RewardBucket, payouts: seq<ValidatorPayout>, summary: EpochRewardSummary)
      ensures bucket.total == if emissionAt(height) != 0 then emissionAt(height) else blockMintAt(height)
      ensures BucketLaw(bucket)
      ensures payouts == Payouts(WeightsOf(weights, validators), bucket.validatorShare)
      ensures PaidInFull(WeightsOf(weights, validators), bucket.validatorShare, payouts)
      ensures summary.height == height && summary.totalEmission == bucket.total
      ensures summary.epoch == if epochBlocks != 0 then height / epochBlocks else height / 100
      ensures summary.validatorShare == bucket.validatorShare
      ensures summary.foundationShare == bucket.foundationShare && summary.exchangeShare == bucket.exchangeShare
    {
      hide BucketLaw, PaidInFull, WeightsOf, Payouts;
      var emission := emissionAt(height);
      if emission == 0 {
        emission := blockMintAt(height);
      }
      bucket := FillBucket(emission);
      summary := EpochRewardSummary(height, CurrentEpoch(height), emission,
                                    bucket.validatorShare, bucket.foundationShare, bucket.exchangeShare);
      payouts := PayShare(weights, validators, bucket.validatorShare);
    }
  }

  method FillBucket(emission: uint64) returns (bucket: RewardBucket)
    ensures bucket.total == emission
    ensures BucketLaw(bucket)
  {
    hide SplitMint, Wrap64;
    var split := SplitMint(emission);
    TenthsOf(emission);
    bucket := RewardBucket(emission, split.network, split.foundation, split.exchange);
  }

  /** The weight loop and the two payout loops. */
  method PayShare(cfg: WeightConfig, validators: seq<ValidatorScore>, share: uint64)
      returns (payouts: seq<ValidatorPayout>)
    ensures payouts == Payouts(WeightsOf(cfg, validators), share)
    ensures PaidInFull(WeightsOf(cfg, validators), share, payouts)
  {
    hide Wrap64, WeightsOf, Floors, Weighted, Paid, SumWeights, Bump, PaidInFull;
    var ws, totalWeight := Weigh(cfg, validators);
    ShareIsPaid(ws, share);
    payouts := [];
    if totalWeight == 0 || share == 0 {
      return;
    }
    var remaining;
    payouts, remaining := PayFloors(ws, share, totalWeight);
    payouts := HandOut(payouts, remaining);
  }

  /** The weight loop. */
  method Weigh(cfg: WeightConfig, validators: seq<ValidatorScore>)
    returns (ws: seq<ValidatorWeight>, totalWeight: uint64)
    ensures ws == WeightsOf(cfg, validators) && totalWeight == Wrap64(SumWeights(ws))
  {
    hide Wrap64, WeightOf;
    WrapOfUint64(0);
    ws, totalWeight := [], 0;
    for i := 0 to |validators|
      invariant ws == WeightsOf(cfg, validators[..i])
      invariant totalWeight == Wrap64(SumWeights(ws))
    {
      assert validators[..i + 1][..i] == validators[..i];
      var w := WeightOf(cfg, validators[i]);
      assert (ws + [w])[..|ws|] == ws;
      WrapTwice(SumWeights(ws), w.weight);
      ws := ws + [w];
      totalWeight := Wrap64(totalWeight + w.weight);
    }
    assert validators[..|validators|] == validators;
  }

  /** The first payout loop: floors, the zero weights skipped. */
  method PayFloors(ws: seq<ValidatorWeight>, share: uint64, totalWeight: uint64)
    returns (payouts: seq<ValidatorPayout>, remaining: uint64)
    requires totalWeight > 0
    ensures payouts == Floors(Weighted(ws), share, totalWeight)
    ensures remaining == Wrap64(share - Paid(payouts))
  {
    hide *;
    payouts, remaining := [], share;
    WrapOfUint64(share);
    NothingToPay(share, totalWeight);
    for i := 0 to |ws|
      invariant payouts == Floors(Weighted(ws[..i]), share, totalWeight)
      invariant remaining == Wrap64(share - Paid(payouts))
    {
      WeightedExtend(ws, i);
      if ws[i].weight != 0 {
        var amount := FloorShare(share, ws[i].weight, totalWeight);
        var p := ValidatorPayout(ws[i].address, amount);
        PaidExtend(payouts, p, share);
        FloorsExtend(Weighted(ws[..i]), ws[i], share, totalWeight);
        remaining := Wrap64(remaining - amount);
        payouts := payouts + [p];
      }
    }
    assert ws[..|ws|] == ws;
  }

  lemma NothingToPay(share: uint64, total: uint64)
    requires total > 0
    ensures Weighted([]) == [] && Floors([], share, total) == [] && Paid([]) == 0
  {
  }

  lemma WeightedExtend(ws: seq<ValidatorWeight>, i: nat)
    requires i < |ws|
    ensures Weighted(ws[..i + 1]) == if ws[i].weight == 0 then Weighted(ws[..i]) else Weighted(ws[..i]) + [ws[i]]
  {
    assert ws[..i + 1][..i] == ws[..i];
  }

  lemma PaidExtend(payouts: seq<ValidatorPayout>, p: ValidatorPayout, share: uint64)
    ensures Wrap64(Wrap64(share - Paid(payouts)) - p.amount) == Wrap64(share - Paid(payouts + [p]))
  {
    assert (payouts + [p])[..|payouts|] == payouts;
    WrapTwice(share - Paid(payouts), -(p.amount as int));
  }

  lemma FloorsExtend(ws: seq<ValidatorWeight>, w: ValidatorWeight, share: uint64, total: uint64)
    requires total > 0
    ensures Floors(ws + [w], share, total)
            == Floors(ws, share, total) + [ValidatorPayout(w.address, FloorShare(share, w.weight, total))]
  {
    assert (ws + [w])[..|ws|] == ws;
  }

  /** The second loop: one unit each from the front until nothing remains. */
  method HandOut(floors: seq<ValidatorPayout>, remainder: uint64) returns (payouts: seq<ValidatorPayout>)
    ensures payouts == Bump(floors, remainder)
  {
    payouts := floors;
    var remaining := remainder;
    var i := 0;
    while remaining > 0 && i < |payouts|
      invariant 0 <= i <= |payouts| == |floors|
      invariant i <= remainder && remaining == remainder - i
      invariant forall j :: 0 <= j < i ==> payouts[j] == Bump(floors, remainder)[j]
      invariant forall j :: i <= j < |floors| ==> payouts[j] == floors[j]
    {
      payouts := payouts[i := payouts[i].(amount := Wrap64(payouts[i].amount + 1))];
      remaining := remaining - 1;
      i := i + 1;
    }
  }
}
