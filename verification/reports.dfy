/** What a plan gives each pool, in terms of the pools' own figures: limits, reports, priorities and prices. */
module Reports {
  import opened Knapsack
  import opened Greedy

  /** n nodes fit under the pool's maximum, and into the reported availability if there is a report. */
  predicate MayReceive(p: PoolView, n: nat) {
    && (n == 0 || p.currentNodes + n <= p.maxNodes)
    && (p.available > 0 ==> n <= p.available)
  }

  /** n nodes fit and one more would not. */
  predicate Full(p: PoolView, n: nat) {
    MayReceive(p, n) && !MayReceive(p, n + 1)
  }

  lemma CapIsGreatest(p: PoolView, n: nat)
    ensures MayReceive(p, n) <==> n <= EffectiveCap(p)
  {
  }

  /** An allocation is feasible if and only if it respects the pools' figures. */
  lemma FeasibleIff(x: Allocation, pools: seq<PoolView>)
    ensures Feasible(x, pools) <==> forall i :: 0 <= i < |pools| ==> MayReceive(pools[i], At(x, pools[i].name))
  {
    forall i | 0 <= i < |pools|
      ensures MayReceive(pools[i], At(x, pools[i].name)) <==> At(x, pools[i].name) <= EffectiveCap(pools[i])
    {
      CapIsGreatest(pools[i], At(x, pools[i].name));
    }
  }

  /** Where a pool stands in the order, and what it gets there. */
  lemma PlaceOf(plan: seq<PlanEntry>, need: nat, pools: seq<PoolView>, order: seq<PoolView>, i: nat) returns (k: nat)
    requires i < |pools| && SortOf(order, pools) && Distinct(order) && plan == Allocate(need, order)
    ensures k < |order| && order[k] == pools[i]
    ensures At(Granted(plan), pools[i].name) == Shares(need, Caps(order))[k]
  {
    assert pools[i] in multiset(order);
    k :| 0 <= k < |order| && order[k] == pools[i];
    GrantedIsShare(need, order, k);
  }

  /**
   * Every pool gets no more nodes than its maximum and its report allow, all pools together no more than
   * needed, and if they get less than needed then every pool is full.
   */
  lemma PlanRespectsReports(plan: seq<PlanEntry>, need: nat, pools: seq<PoolView>)
    requires Distinct(pools) && IsPlan(plan, need, pools)
    ensures forall i :: 0 <= i < |pools| ==> MayReceive(pools[i], At(Granted(plan), pools[i].name))
    ensures Total(Granted(plan), pools).nodes <= need
    ensures Total(Granted(plan), pools).nodes < need ==>
              forall i :: 0 <= i < |pools| ==> Full(pools[i], At(Granted(plan), pools[i].name))
  {
    FillCount(plan, need, pools);
    FeasibleIff(Granted(plan), pools);
    if Total(Granted(plan), pools).nodes < need {
      forall i | 0 <= i < |pools| ensures Full(pools[i], At(Granted(plan), pools[i].name)) {
        ShortPlanFills(plan, need, pools, i);
      }
    }
  }

  lemma CapIsFull(p: PoolView)
    ensures Full(p, EffectiveCap(p))
  {
    CapIsGreatest(p, EffectiveCap(p));
    CapIsGreatest(p, EffectiveCap(p) + 1);
  }

  /** When not all the need is met, every slot is filled. */
  lemma ShortFillsAll(need: nat, caps: seq<nat>, k: nat)
    requires Sum(Shares(need, caps)) < need && k < |caps|
    ensures Shares(need, caps)[k] == caps[k]
  {
    var last := |caps| - 1;
    SharesSum(need, caps);
    assert caps[..last + 1] == caps;
    SharesSaturate(need, caps, last, k);
  }

  lemma ShortPlanFills(plan: seq<PlanEntry>, need: nat, pools: seq<PoolView>, i: nat)
    requires Distinct(pools) && IsPlan(plan, need, pools) && i < |pools|
    requires Total(Granted(plan), pools).nodes < need
    ensures Full(pools[i], At(Granted(plan), pools[i].name))
  {
    var order := PlanInOrder(plan, need, pools);
    var k := PlaceOf(plan, need, pools, order, i);
    TotalIsAligned(Granted(plan), order);
    ShortFillsAll(need, Caps(order), k);
    CapIsFull(pools[i]);
  }

  /** What is dearer comes later, and gets nothing before what is cheaper is filled. */
  lemma CheaperIsFilled(need: nat, order: seq<PoolView>, a: nat, b: nat)
    requires SortedByCost(order) && a < |order| && b < |order| && Cost(order[a]) < Cost(order[b])
    requires Shares(need, Caps(order))[b] > 0
    ensures Shares(need, Caps(order))[a] == Caps(order)[a]
  {
    assert a < b;
    FilledBefore(need, Caps(order), a, b);
  }

  lemma FilledBefore(need: nat, caps: seq<nat>, a: nat, b: nat)
    requires a < b < |caps| && Shares(need, caps)[b] > 0
    ensures Shares(need, caps)[a] == caps[a]
  {
    ShareAt(need, caps, b);
    SumMonotone(caps, a + 1, b);
    SharesSaturate(need, caps, a, a);
  }

  /** A pool of smaller priority plus penalised price is full before a dearer one gets anything. */
  lemma CheaperIsFullFirst(plan: seq<PlanEntry>, need: nat, pools: seq<PoolView>, i: nat, j: nat)
    requires Distinct(pools) && IsPlan(plan, need, pools) && i < |pools| && j < |pools|
    requires pools[i].priority as real + pools[i].hourlyUSD * pools[i].icePenalty
           < pools[j].priority as real + pools[j].hourlyUSD * pools[j].icePenalty
    requires At(Granted(plan), pools[j].name) > 0
    ensures Full(pools[i], At(Granted(plan), pools[i].name))
  {
    assert Cost(pools[i]) < Cost(pools[j]);
    var order := PlanInOrder(plan, need, pools);
    var a := PlaceOf(plan, need, pools, order, i);
    var b := PlaceOf(plan, need, pools, order, j);
    CheaperIsFilled(need, order, a, b);
    CapIsFull(pools[i]);
  }
}
