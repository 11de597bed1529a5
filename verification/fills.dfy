/** Plans compared: which pools a tie can affect, and filling in two steps against filling in one. */
module FillComposition {
  import opened Greedy
  import opened Knapsack
  import opened Seqs

  // ---------- Permutations ----------

  lemma SameMembers(a: seq<PoolView>, b: seq<PoolView>)
    requires multiset(a) == multiset(b)
    ensures forall v :: v in a <==> v in b
  {
    assert forall v :: v in a <==> v in multiset(a);
    assert forall v :: v in b <==> v in multiset(b);
  }

  lemma PlaceOf(v: PoolView, pools: seq<PoolView>, order: seq<PoolView>) returns (k: nat)
    requires multiset(order) == multiset(pools) && v in pools
    ensures k < |order| && order[k] == v
  {
    SameMembers(order, pools);
    k :| 0 <= k < |order| && order[k] == v;
  }

  /** Some outcome of the sort exists. */
  lemma {:induction false} SortExists(pools: seq<PoolView>) returns (order: seq<PoolView>)
    ensures SortOf(order, pools)
    decreases |pools|
  {
    if pools == [] {
      order := [];
    } else {
      CheapestExists(pools);
      var i: nat :| i < |pools| && Cheapest(pools, i);
      var rest := RemoveAt(pools, i);
      var tail := SortExists(rest);
      order := [pools[i]] + tail;
      RemoveAtMultiset(pools, i);
      SameMembers(tail, rest);
      forall k | 0 <= k < |tail| ensures Cost(pools[i]) <= Cost(tail[k]) {
        assert tail[k] in rest;
        var l :| 0 <= l < |pools| && pools[l] == tail[k];
      }
    }
  }

  // ---------- What a tie can affect ----------

  /** Every other pool of this cost is full. */
  ghost predicate Untied(v: PoolView, pools: seq<PoolView>) {
    forall w :: w in pools && w != v && Cost(w) == Cost(v) ==> EffectiveCap(w) == 0
  }

  /** The room in the pools below a price. */
  function CapBelow(pools: seq<PoolView>, price: real): nat {
    if pools == [] then 0 else CapBelow(pools[1..], price) + if Cost(pools[0]) < price then EffectiveCap(pools[0]) else 0
  }

  lemma {:induction false} CapBelowSplit(a: seq<PoolView>, b: seq<PoolView>, price: real)
    ensures CapBelow(a + b, price) == CapBelow(a, price) + CapBelow(b, price)
    decreases |a|
  {
    if a == [] {
      assert a + b == b;
    } else {
      CapBelowSplit(a[1..], b, price);
      assert (a + b)[1..] == a[1..] + b;
    }
  }

  lemma {:induction false} CapBelowOfPermutation(a: seq<PoolView>, b: seq<PoolView>, price: real)
    requires multiset(a) == multiset(b)
    ensures CapBelow(a, price) == CapBelow(b, price)
    decreases |a|
  {
    if a == [] {
      assert |multiset(b)| == |b|;
    } else {
      var j := HeadIn(a, b);
      CapBelowOfPermutation(a[1..], RemoveAt(b, j), price);
      CapBelowSplit(b[..j], b[j + 1..], price);
      CapBelowSplit(b[..j], b[j..], price);
      assert b == b[..j] + b[j..];
      assert b[j..][1..] == b[j + 1..];
    }
  }

  /** Pools no cheaper than the price have no room below it. */
  lemma {:induction false} NoneBelow(pools: seq<PoolView>, price: real)
    requires forall i :: 0 <= i < |pools| ==> price <= Cost(pools[i])
    ensures CapBelow(pools, price) == 0
    decreases |pools|
  {
    if pools != [] {
      NoneBelow(pools[1..], price);
    }
  }

  /** If every pool is cheaper or full, all room is below the price. */
  lemma {:induction false} AllBelowPrice(pools: seq<PoolView>, price: real)
    requires forall i :: 0 <= i < |pools| ==> Cost(pools[i]) < price || EffectiveCap(pools[i]) == 0
    ensures CapBelow(pools, price) == Sum(Caps(pools))
    decreases |pools|
  {
    if pools != [] {
      AllBelowPrice(pools[1..], price);
      assert Caps(pools)[1..] == Caps(pools[1..]);
    }
  }

  /** The room before an untied pool is the room below its price. */
  lemma RoomBefore(order: seq<PoolView>, k: nat, price: real)
    requires SortedByCost(order) && Distinct(order) && k < |order| && Untied(order[k], order) && price == Cost(order[k])
    ensures Sum(Caps(order)[..k]) == CapBelow(order, price)
  {
    assert forall i :: 0 <= i < k ==> Cost(order[i]) < price || EffectiveCap(order[i]) == 0;
    RoomSplit(order, k, price);
  }

  lemma RoomSplit(order: seq<PoolView>, k: nat, price: real)
    requires k <= |order|
    requires forall i :: 0 <= i < k ==> Cost(order[i]) < price || EffectiveCap(order[i]) == 0
    requires forall i :: k <= i < |order| ==> price <= Cost(order[i])
    ensures Sum(Caps(order)[..k]) == CapBelow(order, price)
  {
    AllBelowPrice(order[..k], price);
    NoneBelow(order[k..], price);
    CapBelowSplit(order[..k], order[k..], price);
    assert order == order[..k] + order[k..];
    assert Caps(order)[..k] == Caps(order[..k]);
  }

  lemma OrderOf(plan: seq<PlanEntry>, need: int, pools: seq<PoolView>) returns (order: seq<PoolView>)
    requires Distinct(pools) && IsPlan(plan, need, pools)
    ensures SortOf(order, pools) && Distinct(order) && plan == Allocate(need, order)
  {
    order :| SortOf(order, pools) && plan == Allocate(need, order);
    DistinctPermutation(pools, order);
  }

  /** Every plan gives an untied pool the same: what the cheaper pools leave, up to its cap. */
  lemma UntiedShare(plan: seq<PlanEntry>, need: int, pools: seq<PoolView>, v: PoolView)
    requires Distinct(pools) && IsPlan(plan, need, pools) && v in pools && Untied(v, pools)
    ensures At(Granted(plan), v.name) == Take(need - CapBelow(pools, Cost(v)), EffectiveCap(v))
  {
    var order := OrderOf(plan, need, pools);
    var k := PlaceOf(v, pools, order);
    SameMembers(order, pools);
    ShareInOrder(order, need, k);
    CapBelowOfPermutation(order, pools, Cost(v));
  }

  lemma ShareInOrder(order: seq<PoolView>, need: int, k: nat)
    requires SortedByCost(order) && Distinct(order) && k < |order| && Untied(order[k], order)
    ensures At(Granted(Allocate(need, order)), order[k].name)
         == Take(need - CapBelow(order, Cost(order[k])), EffectiveCap(order[k]))
  {
    GrantedIsShare(need, order, k);
    ShareAt(need, Caps(order), k);
    RoomBefore(order, k, Cost(order[k]));
  }

  /** The share of a pool is the same in all plans for a need. */
  ghost predicate TieProof(v: PoolView, pools: seq<PoolView>) {
    forall need: nat, plan: seq<PlanEntry>, rival: seq<PlanEntry> ::
      IsPlan(plan, need, pools) && IsPlan(rival, need, pools) ==> At(Granted(plan), v.name) == At(Granted(rival), v.name)
  }

  lemma SwapSorts(order: seq<PoolView>, pools: seq<PoolView>, k: nat, l: nat)
    requires SortOf(order, pools) && Distinct(order) && k < l < |order| && Cost(order[k]) == Cost(order[l])
    ensures var swapped := order[k := order[l]][l := order[k]];
            SortOf(swapped, pools) && Distinct(swapped)
  {
    var swapped := order[k := order[l]][l := order[k]];
    assert multiset(swapped) == multiset(order);
    DistinctPermutation(order, swapped);
    forall i, j | 0 <= i < j < |order| ensures Cost(swapped[i]) <= Cost(swapped[j]) {
      assert Cost(swapped[i]) == Cost(order[i]) && Cost(swapped[j]) == Cost(order[j]);
    }
  }

  lemma FirstGetsIt(order: seq<PoolView>, k: nat, l: nat, need: nat)
    requires Distinct(order) && k < l < |order| && EffectiveCap(order[k]) > 0
    requires need == Sum(Caps(order)[..k]) + 1
    ensures At(Granted(Allocate(need, order)), order[k].name) == 1
    ensures At(Granted(Allocate(need, order)), order[l].name) == 0
  {
    GrantedIsShare(need, order, k);
    GrantedIsShare(need, order, l);
    OneForTheFirst(need, Caps(order), k, l);
  }

  /** Of two tied pools with room, whichever the sort puts first gets the node. */
  lemma TiedDiffer(order: seq<PoolView>, pools: seq<PoolView>, k: nat, l: nat, v: PoolView)
    requires SortOf(order, pools) && Distinct(order) && k < l < |order| && Cost(order[k]) == Cost(order[l])
    requires EffectiveCap(order[k]) > 0 && EffectiveCap(order[l]) > 0 && (v == order[k] || v == order[l])
    ensures !TieProof(v, pools)
  {
    var swapped := order[k := order[l]][l := order[k]];
    var need: nat := Sum(Caps(order)[..k]) + 1;
    SwapSorts(order, pools, k, l);
    assert Caps(swapped)[..k] == Caps(order)[..k];
    FirstGetsIt(order, k, l, need);
    FirstGetsIt(swapped, k, l, need);
    Disagree(Allocate(need, order), Allocate(need, swapped), need, pools, v);
  }

  lemma Disagree(plan: seq<PlanEntry>, rival: seq<PlanEntry>, need: nat, pools: seq<PoolView>, v: PoolView)
    requires IsPlan(plan, need, pools) && IsPlan(rival, need, pools)
    requires At(Granted(plan), v.name) != At(Granted(rival), v.name)
    ensures !TieProof(v, pools)
  {
  }

  /** Ties can change what a pool gets if and only if the pool has room and ties with another that has. */
  lemma TieProofIff(v: PoolView, pools: seq<PoolView>)
    requires Distinct(pools) && v in pools
    ensures TieProof(v, pools) <==> EffectiveCap(v) == 0 || Untied(v, pools)
  {
    if EffectiveCap(v) > 0 && !Untied(v, pools) {
      var w :| w in pools && w != v && Cost(w) == Cost(v) && EffectiveCap(w) > 0;
      var order := SortExists(pools);
      DistinctPermutation(pools, order);
      var k := PlaceOf(v, pools, order);
      var l := PlaceOf(w, pools, order);
      TiedDiffer(order, pools, if k < l then k else l, if k < l then l else k, v);
    } else {
      forall need: nat, plan: seq<PlanEntry>, rival: seq<PlanEntry> | IsPlan(plan, need, pools) && IsPlan(rival, need, pools)
        ensures At(Granted(plan), v.name) == At(Granted(rival), v.name)
      {
        if EffectiveCap(v) == 0 {
          FullGetsNothing(plan, need, pools, v);
          FullGetsNothing(rival, need, pools, v);
        } else {
          UntiedShare(plan, need, pools, v);
          UntiedShare(rival, need, pools, v);
        }
      }
    }
  }

  lemma FullGetsNothing(plan: seq<PlanEntry>, need: int, pools: seq<PoolView>, v: PoolView)
    requires Distinct(pools) && IsPlan(plan, need, pools) && v in pools && EffectiveCap(v) == 0
    ensures At(Granted(plan), v.name) == 0
  {
    var order := OrderOf(plan, need, pools);
    var k := PlaceOf(v, pools, order);
    GrantedIsShare(need, order, k);
    ShareAt(need, Caps(order), k);
  }

  /** A larger need never takes a node away from a pool that ties cannot affect. */
  lemma LargerNeedKeepsPools(small: seq<PlanEntry>, large: seq<PlanEntry>, a: nat, b: nat, pools: seq<PoolView>, v: PoolView)
    requires Distinct(pools) && v in pools && TieProof(v, pools) && a <= b
    requires IsPlan(small, a, pools) && IsPlan(large, b, pools)
    ensures At(Granted(small), v.name) <= At(Granted(large), v.name)
  {
    TieProofIff(v, pools);
    if EffectiveCap(v) == 0 {
      FullGetsNothing(small, a, pools, v);
    } else {
      UntiedShare(small, a, pools, v);
      UntiedShare(large, b, pools, v);
    }
  }

  // ---------- Raised pools ----------

  function Raise(v: PoolView, x: Allocation): PoolView {
    v.(currentNodes := v.currentNodes + At(x, v.name))
  }

  /** The pools once each holds what the allocation gave it. */
  function Raised(pools: seq<PoolView>, x: Allocation): (r: seq<PoolView>)
    ensures |r| == |pools|
  {
    seq(|pools|, i requires 0 <= i < |pools| => Raise(pools[i], x))
  }

  lemma RaisedCons(a: seq<PoolView>, x: Allocation)
    requires a != []
    ensures Raised(a, x) == [Raise(a[0], x)] + Raised(a[1..], x)
  {
  }

  lemma RaisedRemove(b: seq<PoolView>, x: Allocation, j: nat)
    requires j < |b|
    ensures RemoveAt(Raised(b, x), j) == Raised(RemoveAt(b, j), x)
  {
  }

  lemma {:induction false} RaisedPermutation(a: seq<PoolView>, b: seq<PoolView>, x: Allocation)
    requires multiset(a) == multiset(b)
    ensures multiset(Raised(a, x)) == multiset(Raised(b, x))
    decreases |a|
  {
    if a == [] {
      assert |multiset(b)| == |b|;
    } else {
      var j := HeadIn(a, b);
      RaisedPermutation(a[1..], RemoveAt(b, j), x);
      RaisedCons(a, x);
      RaisedRemove(b, x, j);
      RemoveAtMultiset(Raised(b, x), j);
    }
  }

  /** The order of the first step, raised, is an order that the second step's sort may produce. */
  lemma RaisedOrder(order: seq<PoolView>, pools: seq<PoolView>, x: Allocation)
    requires SortOf(order, pools) && Distinct(order)
    ensures SortOf(Raised(order, x), Raised(pools, x)) && Distinct(Raised(order, x))
  {
    RaisedPermutation(order, pools, x);
    forall i, j | 0 <= i < j < |order| ensures Cost(Raised(order, x)[i]) <= Cost(Raised(order, x)[j]) {
      assert Cost(order[i]) <= Cost(order[j]);
    }
  }

  lemma UntiedRaised(v: PoolView, pools: seq<PoolView>, x: Allocation)
    requires Distinct(pools) && v in pools && Untied(v, pools)
    ensures Raise(v, x) in Raised(pools, x) && Untied(Raise(v, x), Raised(pools, x))
  {
    var i :| 0 <= i < |pools| && pools[i] == v;
    assert Raised(pools, x)[i] == Raise(v, x);
    forall w | w in Raised(pools, x) && w != Raise(v, x) && Cost(w) == Cost(Raise(v, x)) ensures EffectiveCap(w) == 0 {
      var j :| 0 <= j < |pools| && Raised(pools, x)[j] == w;
      assert pools[j] in pools && pools[j] != v && Cost(pools[j]) == Cost(v);
    }
  }

  // ---------- Bills ----------

  /** Raising the pools changes neither what an allocation hands out nor what it costs. */
  lemma {:induction false} BillOfRaised(y: Allocation, pools: seq<PoolView>, x: Allocation)
    ensures Total(y, Raised(pools, x)).nodes == Total(y, pools).nodes
    ensures Total(y, Raised(pools, x)).cost == Total(y, pools).cost
    decreases |pools|
  {
    if pools != [] {
      assert Raised(pools, x)[1..] == Raised(pools[1..], x);
      BillOfRaised(y, pools[1..], x);
      assert Cost(Raised(pools, x)[0]) == Cost(pools[0]);
    }
  }

  lemma {:induction false} SpendAdds(a: seq<nat>, b: seq<nat>, c: seq<nat>, prices: seq<real>)
    requires |a| == |b| == |c| == |prices| && forall i :: 0 <= i < |a| ==> a[i] + b[i] == c[i]
    ensures Sum(a) + Sum(b) == Sum(c) && Spend(a, prices) + Spend(b, prices) == Spend(c, prices)
    decreases |a|
  {
    if a != [] {
      SpendAdds(a[1..], b[1..], c[1..], prices[1..]);
      ChargeAdds(a[0], b[0], prices[0]);
    }
  }

  /** Allocations that add up pool by pool have bills that add up. */
  lemma BillsAdd(x: Allocation, y: Allocation, z: Allocation, pools: seq<PoolView>)
    requires forall i :: 0 <= i < |pools| ==> At(x, pools[i].name) + At(y, pools[i].name) == At(z, pools[i].name)
    ensures Total(x, pools).nodes + Total(y, pools).nodes == Total(z, pools).nodes
    ensures Total(x, pools).cost + Total(y, pools).cost == Total(z, pools).cost
  {
    SpendAdds(Amounts(x, pools), Amounts(y, pools), Amounts(z, pools), Costs(pools));
    TotalIsAligned(x, pools);
    TotalIsAligned(y, pools);
    TotalIsAligned(z, pools);
  }

  // ---------- Two steps against one ----------

  ghost predicate AllUncut(pools: seq<PoolView>) {
    forall v :: v in pools ==> Uncut(v)
  }

  lemma RaisedByShares(a: nat, order: seq<PoolView>)
    requires Distinct(order)
    ensures Raised(order, Granted(Allocate(a, order))) == RaiseAll(order, Received(a, order))
  {
    var raised := Raised(order, Granted(Allocate(a, order)));
    forall k | 0 <= k < |order| ensures raised[k] == RaiseAll(order, Received(a, order))[k] {
      GrantedIsShare(a, order, k);
    }
  }

  /** When both steps visit the pools in one order, each pool gets in two steps what it gets in one. */
  lemma StepsAdd(a: nat, b: nat, sum: nat, order: seq<PoolView>, i: nat)
    requires Distinct(order) && AllUncut(order) && i < |order| && sum == a + b
    ensures var first := Granted(Allocate(a, order));
            At(first, order[i].name) + At(Granted(Allocate(b, Raised(order, first))), order[i].name)
            == At(Granted(Allocate(sum, order)), order[i].name)
  {
    ReceivedAdds(a, b, sum, order, i);
    GrantedIsShare(a, order, i);
    SecondShare(a, b, order, i);
    GrantedIsShare(sum, order, i);
  }

  lemma ReceivedAdds(a: nat, b: nat, sum: nat, order: seq<PoolView>, i: nat)
    requires AllUncut(order) && i < |order| && sum == a + b
    ensures Received(a, order)[i] + Received(b, RaiseAll(order, Received(a, order)))[i] == Received(sum, order)[i]
  {
    UncutComposes(a, b, order);
  }

  lemma SecondShare(a: nat, b: nat, order: seq<PoolView>, i: nat)
    requires Distinct(order) && i < |order|
    ensures var raised := Raised(order, Granted(Allocate(a, order)));
            At(Granted(Allocate(b, raised)), order[i].name) == Received(b, RaiseAll(order, Received(a, order)))[i]
  {
    RaisedByShares(a, order);
    GrantedIsShare(b, RaiseAll(order, Received(a, order)), i);
  }

  /** Three plans in one order: first, second and both steps at once. */
  lemma InOneOrder(first: seq<PlanEntry>, a: nat, b: nat, sum: nat, pools: seq<PoolView>)
    returns (order: seq<PoolView>, second: seq<PlanEntry>, both: seq<PlanEntry>)
    requires Distinct(pools) && AllUncut(pools) && sum == a + b && IsPlan(first, a, pools)
    ensures IsPlan(second, b, Raised(pools, Granted(first))) && Distinct(Raised(pools, Granted(first)))
    ensures IsPlan(both, sum, pools)
    ensures multiset(order) == multiset(pools)
    ensures forall i :: 0 <= i < |order| ==>
              At(Granted(first), order[i].name) + At(Granted(second), order[i].name) == At(Granted(both), order[i].name)
  {
    order := OrderOf(first, a, pools);
    SameMembers(order, pools);
    RaisedOrder(order, pools, Granted(first));
    DistinctPermutation(Raised(order, Granted(first)), Raised(pools, Granted(first)));
    second, both := Allocate(b, Raised(order, Granted(first))), Allocate(sum, order);
    forall i | 0 <= i < |order|
      ensures At(Granted(first), order[i].name) + At(Granted(second), order[i].name) == At(Granted(both), order[i].name)
    {
      StepsAdd(a, b, sum, order, i);
    }
  }

  /**
   * When no availability report cuts a pool's headroom, a plan for a followed by a plan for b hands out
   * as many nodes at the same cost as a plan for a + b, however the three sorts break ties.
   */
  lemma PlansCompose(first: seq<PlanEntry>, second: seq<PlanEntry>, both: seq<PlanEntry>, a: nat, b: nat,
                     sum: nat, pools: seq<PoolView>)
    requires Distinct(pools) && AllUncut(pools) && sum == a + b
    requires IsPlan(first, a, pools) && IsPlan(second, b, Raised(pools, Granted(first))) && IsPlan(both, sum, pools)
    ensures var x, y, z := Granted(first), Granted(second), Granted(both);
            && Total(x, pools).nodes + Total(y, pools).nodes == Total(z, pools).nodes
            && Total(x, pools).cost + Total(y, pools).cost == Total(z, pools).cost
  {
    var x := Granted(first);
    var order, second', both' := InOneOrder(first, a, b, sum, pools);
    TiesDoNotMatter(second, second', b, Raised(pools, x));
    TiesDoNotMatter(both, both', sum, pools);
    BillOfRaised(Granted(second), pools, x);
    BillOfRaised(Granted(second'), pools, x);
    BillsAdd(x, Granted(second'), Granted(both'), order);
    TotalOfPermutation(x, order, pools);
    TotalOfPermutation(Granted(second'), order, pools);
    TotalOfPermutation(Granted(both'), order, pools);
  }

  /** And every pool that ties cannot affect gets in two steps what it gets in one. */
  lemma PlansComposePerPool(first: seq<PlanEntry>, second: seq<PlanEntry>, both: seq<PlanEntry>,
                            a: nat, b: nat, sum: nat, pools: seq<PoolView>, v: PoolView)
    requires Distinct(pools) && AllUncut(pools) && v in pools && TieProof(v, pools) && sum == a + b
    requires IsPlan(first, a, pools) && IsPlan(second, b, Raised(pools, Granted(first))) && IsPlan(both, sum, pools)
    ensures At(Granted(first), v.name) + At(Granted(second), v.name) == At(Granted(both), v.name)
  {
    var order, second', both' := InOneOrder(first, a, b, sum, pools);
    var k := PlaceOf(v, pools, order);
    RaisedIsTieProof(v, pools, Granted(first));
  }

  lemma RaisedIsTieProof(v: PoolView, pools: seq<PoolView>, x: Allocation)
    requires Distinct(pools) && v in pools && TieProof(v, pools)
    ensures Raise(v, x) in Raised(pools, x) && TieProof(Raise(v, x), Raised(pools, x))
  {
    TieProofIff(v, pools);
    var i :| 0 <= i < |pools| && pools[i] == v;
    assert Raised(pools, x)[i] == Raise(v, x);
    if EffectiveCap(v) > 0 {
      UntiedRaised(v, pools, x);
    }
    TieProofIff(Raise(v, x), Raised(pools, x));
  }
}
