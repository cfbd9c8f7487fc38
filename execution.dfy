/** The execution simulator: `exec_ask` and `exec_bid` walk an ordered list of
    levels and take from each level, greedily, as much as is still needed. */
module Execution {
  import opened OrderBook

  /** Where a walk stands: the quantity filled so far and the value (cost for a
      buy, revenue for a sell) accumulated so far. */
  datatype Fill = Fill(filled: real, value: real)

  /** Python's two-argument `min`: the first argument unless the second is smaller. */
  function Min(a: real, b: real): (m: real)
    ensures m <= a && m <= b
    ensures m == a || m == b
  {
    if b < a then b else a
  }

  /** What the walk takes from `level` once `filled` has been bought: nothing once
      the target is reached (the loop breaks), otherwise the level's amount or
      what is still needed, whichever is smaller. */
  function Take(filled: real, level: Level, target: real): real
  {
    if filled >= target then 0.0 else Min(level.amount, target - filled)
  }

  /** The greedy walk over `levels` in list order: the specification of both
      `exec_ask` and `exec_bid`. The value is the sum of `price * take` over the
      levels, each take computed from what the earlier levels filled. */
  function Walk(levels: seq<Level>, target: real): Fill
  {
    if levels == [] then Fill(0.0, 0.0)
    else Step(Walk(levels[..|levels| - 1], target), levels[|levels| - 1], target)
  }

  /** One iteration of the loop body: take from `level` and pay `price * take`. */
  function Step(before: Fill, level: Level, target: real): Fill
  {
    var take := Take(before.filled, level, target);
    Fill(before.filled + take, before.value + level.price * take)
  }

  /** The quantity the walk takes from level `i`. */
  function TakeAt(levels: seq<Level>, target: real, i: nat): real
    requires i < |levels|
  {
    Take(Walk(levels[..i], target).filled, levels[i], target)
  }

  lemma PrefixOfPrefix(levels: seq<Level>, k: nat)
    requires 0 < k <= |levels|
    ensures levels[..k][..k - 1] == levels[..k - 1]
    ensures levels[..k][k - 1] == levels[k - 1]
  {
  }

  /** Once the target is reached no further level changes the walk: this is
      what makes the early `break` harmless. */
  lemma {:induction false} Saturated(levels: seq<Level>, target: real, j: nat, k: nat)
    requires j <= k <= |levels|
    requires Walk(levels[..j], target).filled >= target
    ensures Walk(levels[..k], target) == Walk(levels[..j], target)
    decreases k
  {
    if k > j {
      Saturated(levels, target, j, k - 1);
      PrefixOfPrefix(levels, k);
    }
  }

  /** The walk never fills more than a non-negative target. */
  lemma {:induction false} FilledAtMostTarget(levels: seq<Level>, target: real)
    requires target >= 0.0
    ensures Walk(levels, target).filled <= target
  {
    if levels != [] {
      FilledAtMostTarget(levels[..|levels| - 1], target);
    }
  }

  /** With a target of zero or less (or no levels at all) nothing is bought and
      nothing is paid: the very first check breaks out of the loop. */
  lemma {:induction false} NothingToFill(levels: seq<Level>, target: real)
    requires target <= 0.0 || levels == []
    ensures Walk(levels, target) == Fill(0.0, 0.0)
    ensures forall i :: 0 <= i < |levels| ==> TakeAt(levels, target, i) == 0.0
  {
    if levels != [] {
      forall i | 0 <= i < |levels|
        ensures TakeAt(levels, target, i) == 0.0
      {
        Saturated(levels, target, 0, i);
      }
      Saturated(levels, target, 0, |levels|);
      assert levels[..|levels|] == levels;
      assert levels[..0] == [];
    }
  }

  /** Price priority: a level contributes a positive quantity only if every
      earlier level was taken in full. */
  lemma LevelsTakenInOrder(levels: seq<Level>, target: real, i: nat, j: nat)
    requires j < i < |levels|
    requires TakeAt(levels, target, i) > 0.0
    ensures TakeAt(levels, target, j) == levels[j].amount
  {
    var fj := Walk(levels[..j], target).filled;
    if fj >= target {
      Saturated(levels, target, j, i);
    } else if levels[j].amount != Min(levels[j].amount, target - fj) {
      PrefixOfPrefix(levels, j + 1);
      Saturated(levels, target, j + 1, i);
    }
  }

  /** Liquidity: with non-negative amounts the walk fills exactly the target when
      the levels offer at least that much, and otherwise everything they offer
      (a partial fill). */
  lemma {:induction false} FilledIsAvailableUpToTarget(levels: seq<Level>, target: real)
    requires NonNegativeAmounts(levels)
    requires target >= 0.0
    ensures Walk(levels, target).filled == Min(target, TotalAmount(levels))
    ensures Walk(levels, target).filled == target <==> TotalAmount(levels) >= target
    ensures TotalAmount(levels) < target ==> Walk(levels, target).filled == TotalAmount(levels)
  {
    if levels != [] {
      var init := levels[..|levels| - 1];
      assert NonNegativeAmounts(init) by {
        forall i | 0 <= i < |init| ensures init[i].amount >= 0.0 {
          assert init[i] == levels[i];
        }
      }
      FilledIsAvailableUpToTarget(init, target);
      assert levels[|levels| - 1].amount >= 0.0;
    }
  }

  /** With non-negative amounts the take from the level after `init` grows with
      the target. */
  lemma TakeMonotone(init: seq<Level>, level: Level, t1: real, t2: real)
    requires NonNegativeAmounts(init) && level.amount >= 0.0
    requires 0.0 <= t1 <= t2
    ensures 0.0 <= Take(Walk(init, t1).filled, level, t1) <= Take(Walk(init, t2).filled, level, t2)
  {
    FilledIsAvailableUpToTarget(init, t1);
    FilledIsAvailableUpToTarget(init, t2);
  }

  lemma ProductNonNegative(p: real, d: real)
    requires p >= 0.0 && d >= 0.0
    ensures p * d >= 0.0
  {
  }

  lemma AccumulateMonotone(v1: real, v2: real, price: real, a: real, b: real)
    requires v1 <= v2 && price >= 0.0 && a <= b
    ensures v1 + price * a <= v2 + price * b
  {
    var d := b - a;
    ProductNonNegative(price, d);
    var pa, pb, pd := price * a, price * b, price * d;
    assert pb == pa + pd;
    assert pa <= pb;
  }

  /** A step that takes more at a non-negative price adds at least as much. */
  lemma StepMonotone(f1: Fill, f2: Fill, level: Level, t1: real, t2: real)
    requires f1.value <= f2.value && level.price >= 0.0
    requires Take(f1.filled, level, t1) <= Take(f2.filled, level, t2)
    ensures Step(f1, level, t1).value <= Step(f2, level, t2).value
  {
    AccumulateMonotone(f1.value, f2.value, level.price, Take(f1.filled, level, t1), Take(f2.filled, level, t2));
  }

  lemma DropLastNonNegative(levels: seq<Level>)
    requires levels != []
    requires NonNegativeAmounts(levels) && NonNegativePrices(levels)
    ensures NonNegativeAmounts(levels[..|levels| - 1]) && NonNegativePrices(levels[..|levels| - 1])
    ensures levels[|levels| - 1].amount >= 0.0 && levels[|levels| - 1].price >= 0.0
  {
    var init := levels[..|levels| - 1];
    forall i | 0 <= i < |init| ensures init[i].amount >= 0.0 && init[i].price >= 0.0 {
      assert init[i] == levels[i];
    }
  }

  /** Asking for more never fills less. */
  lemma {:induction false} MonotoneFilled(levels: seq<Level>, t1: real, t2: real)
    requires NonNegativeAmounts(levels)
    requires 0.0 <= t1 <= t2
    ensures Walk(levels, t1).filled <= Walk(levels, t2).filled
  {
    FilledIsAvailableUpToTarget(levels, t1);
    FilledIsAvailableUpToTarget(levels, t2);
  }

  /** With non-negative prices, asking for more never costs (or earns) less. */
  lemma {:induction false} MonotoneValue(levels: seq<Level>, t1: real, t2: real)
    requires NonNegativeAmounts(levels) && NonNegativePrices(levels)
    requires 0.0 <= t1 <= t2
    ensures Walk(levels, t1).value <= Walk(levels, t2).value
  {
    if levels != [] {
      var init, level := levels[..|levels| - 1], levels[|levels| - 1];
      DropLastNonNegative(levels);
      MonotoneValue(init, t1, t2);
      TakeMonotone(init, level, t1, t2);
      StepMonotone(Walk(init, t1), Walk(init, t2), level, t1, t2);
    }
  }

  /** Buying 4 against asks (100, 2) and (101, 3) fills 4 for 100*2 + 101*2. */
  lemma BuyExample()
    ensures Walk([Level(100.0, 2.0), Level(101.0, 3.0)], 4.0) == Fill(4.0, 402.0)
  {
  }

  /** Selling 5 against a single bid (99, 1) is a partial fill of 1 for 99. */
  lemma PartialSellExample()
    ensures Walk([Level(99.0, 1.0)], 5.0) == Fill(1.0, 99.0)
  {
  }

  /** `exec_ask`: the cost of buying `targetBtc` by walking `asks` in order. */
  method ExecAsk(asks: seq<Level>, targetBtc: real) returns (totalCost: real)
    ensures totalCost == Walk(asks, targetBtc).value
  {
    totalCost := 0.0;
    var totalBtc := 0.0;
    for i := 0 to |asks|
      invariant Walk(asks[..i], targetBtc) == Fill(totalBtc, totalCost)
    {
      if totalBtc >= targetBtc {
        Saturated(asks, targetBtc, i, |asks|);
        assert asks[..|asks|] == asks;
        break;
      }
      var level := asks[i];
      var neededBtc := targetBtc - totalBtc;
      var btcToBuy := Min(level.amount, neededBtc);
      var cost := level.price * btcToBuy;
      totalBtc := totalBtc + btcToBuy;
      totalCost := totalCost + cost;
      PrefixOfPrefix(asks, i + 1);
    }
    assert asks[..|asks|] == asks;
  }

  /** `exec_bid`: the revenue of selling `targetBtc` by walking `bids` in order;
      the same walk as `exec_ask` under other names. */
  method ExecBid(bids: seq<Level>, targetBtc: real) returns (totalRevenue: real)
    ensures totalRevenue == Walk(bids, targetBtc).value
  {
    totalRevenue := 0.0;
    var totalBtc := 0.0;
    for i := 0 to |bids|
      invariant Walk(bids[..i], targetBtc) == Fill(totalBtc, totalRevenue)
    {
      if totalBtc >= targetBtc {
        Saturated(bids, targetBtc, i, |bids|);
        assert bids[..|bids|] == bids;
        break;
      }
      var level := bids[i];
      var neededBtc := targetBtc - totalBtc;
      var btcToSell := Min(level.amount, neededBtc);
      var revenue := level.price * btcToSell;
      totalBtc := totalBtc + btcToSell;
      totalRevenue := totalRevenue + revenue;
      PrefixOfPrefix(bids, i + 1);
    }
    assert bids[..|bids|] == bids;
  }
}
