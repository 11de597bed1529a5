/** The arithmetic of filling capped slots in order of price, with no names and no maps in it. */
module Knapsack {

  function Take(need: int, cap: nat): nat {
    if need <= 0 then 0 else if need > cap then cap else need
  }

  /** What each slot receives when the slots are visited in order. */
  function Shares(need: int, caps: seq<nat>): (r: seq<nat>)
    ensures |r| == |caps|
    decreases |caps|
  {
    if caps == [] then []
    else [Take(need, caps[0])] + Shares(need - Take(need, caps[0]), caps[1..])
  }

  function Sum(a: seq<nat>): nat {
    if a == [] then 0 else a[0] + Sum(a[1..])
  }

  /** What n nodes of one price cost together. */
  function Charge(n: nat, price: real): real {
    if n == 0 then 0.0 else price + Charge(n - 1, price)
  }

  function Spend(a: seq<nat>, prices: seq<real>): real
    requires |a| == |prices|
    decreases |a|
  {
    if a == [] then 0.0 else Charge(a[0], prices[0]) + Spend(a[1..], prices[1..])
  }

  ghost predicate Fits(a: seq<nat>, caps: seq<nat>) {
    |a| == |caps| && forall i :: 0 <= i < |a| ==> a[i] <= caps[i]
  }

  /** Prices ascend, from the floor upwards. */
  ghost predicate Ascending(prices: seq<real>, floor: real)
    decreases |prices|
  {
    prices != [] ==> floor <= prices[0] && Ascending(prices[1..], prices[0])
  }

  lemma {:induction false} SharesFit(need: int, caps: seq<nat>)
    ensures Fits(Shares(need, caps), caps)
    decreases |caps|
  {
    if caps != [] {
      SharesFit(need - Take(need, caps[0]), caps[1..]);
    }
  }

  lemma {:induction false} SharesSum(need: int, caps: seq<nat>)
    ensures Sum(Shares(need, caps)) == Take(need, Sum(caps))
    decreases |caps|
  {
    if caps != [] {
      var n := Take(need, caps[0]);
      SharesSum(need - n, caps[1..]);
      assert Shares(need, caps)[1..] == Shares(need - n, caps[1..]);
    }
  }

  lemma {:induction false} NoNeedNoShares(need: int, caps: seq<nat>)
    requires need <= 0
    ensures forall i :: 0 <= i < |caps| ==> Shares(need, caps)[i] == 0
    decreases |caps|
  {
    if caps != [] {
      NoNeedNoShares(need, caps[1..]);
    }
  }

  lemma {:induction false} ZerosCostNothing(a: seq<nat>, prices: seq<real>)
    requires |a| == |prices| && forall i :: 0 <= i < |a| ==> a[i] == 0
    ensures Sum(a) == 0 && Spend(a, prices) == 0.0
    decreases |a|
  {
    if a != [] {
      ZerosCostNothing(a[1..], prices[1..]);
    }
  }

  lemma {:induction false} ChargeAdds(m: nat, n: nat, price: real)
    ensures Charge(m + n, price) == Charge(m, price) + Charge(n, price)
  {
    if m > 0 {
      ChargeAdds(m - 1, n, price);
    }
  }

  lemma {:induction false} ChargeMonotone(n: nat, low: real, high: real)
    requires low <= high
    ensures Charge(n, low) <= Charge(n, high)
  {
    if n > 0 {
      ChargeMonotone(n - 1, low, high);
    }
  }

  /** A charge is the product of count and price. */
  lemma {:induction false} ChargeIsProduct(n: nat, price: real)
    ensures Charge(n, price) == n as real * price
  {
    if n > 0 {
      ChargeIsProduct(n - 1, price);
    }
  }

  /**
   * The exchange argument: every node a rival hands out beyond the greedy count costs it at least
   * the floor price, and otherwise the rival is no cheaper.
   */
  lemma {:induction false} Exchange(need: int, caps: seq<nat>, prices: seq<real>, rival: seq<nat>, floor: real)
    requires |caps| == |prices| && Ascending(prices, floor) && Fits(rival, caps)
    requires Sum(rival) >= Sum(Shares(need, caps))
    ensures Spend(rival, prices)
            >= Spend(Shares(need, caps), prices) + Charge(Sum(rival) - Sum(Shares(need, caps)), floor)
    decreases |caps|
  {
    if caps != [] {
      var price, n, a := prices[0], Take(need, caps[0]), rival[0];
      var rest := Shares(need - n, caps[1..]);
      assert Shares(need, caps)[1..] == rest;
      if a > n {
        // The slot had room left, so the need is exhausted and the later slots get nothing.
        NoNeedNoShares(need - n, caps[1..]);
        ZerosCostNothing(rest, prices[1..]);
      }
      Exchange(need - n, caps[1..], prices[1..], rival[1..], price);
      var z, h := Sum(rival[1..]), Sum(rest);
      ExchangeHead(price, floor, a, n, z, h, Spend(rival[1..], prices[1..]), Spend(rest, prices[1..]));
    }
  }

  lemma ExchangeHead(price: real, floor: real, a: nat, n: nat, z: nat, h: nat, zCost: real, hCost: real)
    requires floor <= price && z >= h && a + z >= n + h
    requires zCost >= hCost + Charge(z - h, price)
    ensures Charge(a, price) + zCost >= Charge(n, price) + hCost + Charge(a + z - n - h, floor)
  {
    var extra := a + z - n - h;
    ChargeAdds(a, z - h, price);
    ChargeAdds(n, extra, price);
    ChargeMonotone(extra, floor, price);
  }

  /** No way to fill the slots with as many nodes is cheaper than filling them in order. */
  lemma GreedyIsCheapest(need: int, caps: seq<nat>, prices: seq<real>, rival: seq<nat>, floor: real)
    requires |caps| == |prices| && Ascending(prices, floor)
    requires Fits(rival, caps) && Sum(rival) == Sum(Shares(need, caps))
    ensures Spend(Shares(need, caps), prices) <= Spend(rival, prices)
  {
    Exchange(need, caps, prices, rival, floor);
  }

  /** What a slot receives depends only on the room before it. */
  lemma {:induction false} ShareAt(need: int, caps: seq<nat>, i: nat)
    requires i < |caps|
    ensures Shares(need, caps)[i] == Take(need - Sum(caps[..i]), caps[i])
    decreases |caps|
  {
    if i > 0 {
      ShareAt(need - Take(need, caps[0]), caps[1..], i - 1);
      assert caps[..i][1..] == caps[1..][..i - 1];
    }
  }

  /** A larger need never takes anything away from a slot. */
  lemma LargerNeedKeepsShares(a: int, b: int, caps: seq<nat>, i: nat)
    requires a <= b && i < |caps|
    ensures Shares(a, caps)[i] <= Shares(b, caps)[i]
  {
    ShareAt(a, caps, i);
    ShareAt(b, caps, i);
  }

  function Minus(caps: seq<nat>, taken: seq<nat>): (r: seq<nat>)
    requires Fits(taken, caps)
    ensures |r| == |caps|
  {
    seq(|caps|, i requires 0 <= i < |caps| => caps[i] - taken[i])
  }

  lemma {:induction false} SumOfPrefix(need: int, caps: seq<nat>, i: nat)
    requires i <= |caps|
    ensures Sum(Shares(need, caps)[..i]) == Take(need, Sum(caps[..i]))
    decreases i
  {
    if i > 0 {
      var n := Take(need, caps[0]);
      assert Shares(need, caps)[..i][1..] == Shares(need - n, caps[1..])[..i - 1];
      assert caps[..i][1..] == caps[1..][..i - 1];
      SumOfPrefix(need - n, caps[1..], i - 1);
    }
  }

  lemma {:induction false} SumMinus(caps: seq<nat>, taken: seq<nat>, i: nat)
    requires Fits(taken, caps) && i <= |caps|
    ensures Sum(Minus(caps, taken)[..i]) == Sum(caps[..i]) - Sum(taken[..i])
    decreases i
  {
    if i > 0 {
      SumMinus(caps[1..], taken[1..], i - 1);
      assert Minus(caps, taken)[..i][1..] == Minus(caps[1..], taken[1..])[..i - 1];
      assert caps[..i][1..] == caps[1..][..i - 1] && taken[..i][1..] == taken[1..][..i - 1];
    }
  }

  /** Filling for a, then filling the remaining room for b, is filling for a + b. */
  lemma SharesCompose(a: nat, b: nat, caps: seq<nat>, i: nat)
    requires i < |caps|
    ensures Fits(Shares(a, caps), caps)
    ensures Shares(a, caps)[i] + Shares(b, Minus(caps, Shares(a, caps)))[i] == Shares(a + b, caps)[i]
  {
    SharesFit(a, caps);
    var rest := Minus(caps, Shares(a, caps));
    ShareAt(a, caps, i);
    ShareAt(b, rest, i);
    ShareAt(a + b, caps, i);
    SumMinus(caps, Shares(a, caps), i);
    SumOfPrefix(a, caps, i);
  }

  lemma {:induction false} SumMonotone(caps: seq<nat>, i: nat, j: nat)
    requires i <= j <= |caps|
    ensures Sum(caps[..i]) <= Sum(caps[..j])
    decreases i
  {
    if i > 0 {
      SumMonotone(caps[1..], i - 1, j - 1);
      assert caps[..i][1..] == caps[1..][..i - 1] && caps[..j][1..] == caps[1..][..j - 1];
    }
  }

  lemma {:induction false} SumSnoc(caps: seq<nat>, i: nat)
    requires i < |caps|
    ensures Sum(caps[..i + 1]) == Sum(caps[..i]) + caps[i]
    decreases i
  {
    if i > 0 {
      SumSnoc(caps[1..], i - 1);
      assert caps[..i][1..] == caps[1..][..i - 1] && caps[..i + 1][1..] == caps[1..][..i];
    }
  }

  /** A need of at least the room up to a slot fills the slot. */
  lemma SharesSaturate(need: int, caps: seq<nat>, k: nat, i: nat)
    requires i <= k < |caps| && need >= Sum(caps[..k + 1])
    ensures Shares(need, caps)[i] == caps[i]
  {
    ShareAt(need, caps, i);
    SumSnoc(caps, i);
    SumMonotone(caps, i + 1, k + 1);
  }

  /** With need for one node more than the room before slot k, slot k gets one and later slots get none. */
  lemma OneForTheFirst(need: int, caps: seq<nat>, k: nat, l: nat)
    requires k < l < |caps| && caps[k] > 0 && need == Sum(caps[..k]) + 1
    ensures Shares(need, caps)[k] == 1 && Shares(need, caps)[l] == 0
  {
    ShareAt(need, caps, k);
    ShareAt(need, caps, l);
    SumSnoc(caps, k);
    SumMonotone(caps, k + 1, l);
  }

  /** A single node goes to the first slot with room. */
  lemma {:induction false} SingleNode(caps: seq<nat>, k: nat)
    requires k < |caps| && caps[k] > 0 && forall i :: 0 <= i < k ==> caps[i] == 0
    ensures Shares(1, caps)[k] == 1
    decreases |caps|
  {
    if k > 0 {
      SingleNode(caps[1..], k - 1);
    }
  }
}
