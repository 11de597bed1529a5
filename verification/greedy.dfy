/** The greedy scheduler: which pool gets how many nodes (pkg/scheduler/greedy/greedy.go). */
module Greedy {
  import opened Knapsack
  import opened Seqs

  datatype PoolView = PoolView(name: string, priority: int, hourlyUSD: real, icePenalty: real,
                               maxNodes: int, currentNodes: int, available: int)

  datatype PlanEntry = PlanEntry(poolName: string, nodeCount: int)

  /** An allocation says how many nodes each pool, by name, receives. */
  type Allocation = map<string, nat>

  // ---------- The source's arithmetic ----------

  /** The sort key: the sum of priority and penalised price, not the pair. */
  function Cost(p: PoolView): real {
    p.priority as real + p.hourlyUSD * p.icePenalty
  }

  function Headroom(p: PoolView): nat {
    if p.maxNodes <= p.currentNodes then 0 else p.maxNodes - p.currentNodes
  }

  /** Headroom cut by the observed availability; an availability of 0 (or less) means "no cap". */
  function EffectiveCap(p: PoolView): nat {
    if 0 < p.available < Headroom(p) then p.available else Headroom(p)
  }

  function Grant(need: int, p: PoolView): nat {
    Take(need, EffectiveCap(p))
  }

  /** What the loop hands out when it visits the pools in the given order. */
  function Allocate(need: int, order: seq<PoolView>): seq<PlanEntry>
    decreases |order|
  {
    if need <= 0 || order == [] then []
    else
      var n := Grant(need, order[0]);
      (if n == 0 then [] else [PlanEntry(order[0].name, n)]) + Allocate(need - n, order[1..])
  }

  // ---------- Vocabulary of the properties ----------

  ghost predicate Distinct(pools: seq<PoolView>) {
    forall i, j :: 0 <= i < j < |pools| ==> pools[i].name != pools[j].name
  }

  ghost predicate SortedByCost(order: seq<PoolView>) {
    forall i, j :: 0 <= i < j < |order| ==> Cost(order[i]) <= Cost(order[j])
  }

  /** Any outcome an unstable sort of the pools may have. */
  ghost predicate SortOf(order: seq<PoolView>, pools: seq<PoolView>) {
    multiset(order) == multiset(pools) && SortedByCost(order)
  }

  function At(x: Allocation, name: string): nat {
    if name in x then x[name] else 0
  }

  /** The allocation a plan stands for: entries of one pool add up. */
  function Granted(plan: seq<PlanEntry>): Allocation {
    if plan == [] then map[]
    else
      var rest := Granted(plan[1..]);
      var n := plan[0].nodeCount;
      rest[plan[0].poolName := At(rest, plan[0].poolName) + if n < 0 then 0 else n]
  }

  function Caps(pools: seq<PoolView>): (r: seq<nat>)
    ensures |r| == |pools|
  {
    seq(|pools|, i requires 0 <= i < |pools| => EffectiveCap(pools[i]))
  }

  function Costs(pools: seq<PoolView>): (r: seq<real>)
    ensures |r| == |pools|
  {
    seq(|pools|, i requires 0 <= i < |pools| => Cost(pools[i]))
  }

  /** The amounts an allocation gives the pools, in their order. */
  function Amounts(x: Allocation, pools: seq<PoolView>): (r: seq<nat>)
    ensures |r| == |pools|
  {
    seq(|pools|, i requires 0 <= i < |pools| => At(x, pools[i].name))
  }

  /** Nodes handed out, nodes that could be handed out, and the cost of the former. */
  datatype Bill = Bill(nodes: int, cap: int, cost: real) {
    function Plus(b: Bill): Bill {
      Bill(nodes + b.nodes, cap + b.cap, cost + b.cost)
    }
  }

  function Item(x: Allocation, p: PoolView): Bill {
    Bill(At(x, p.name), EffectiveCap(p), At(x, p.name) as real * Cost(p))
  }

  function Total(x: Allocation, pools: seq<PoolView>): Bill
    decreases |pools|
  {
    if pools == [] then Bill(0, 0, 0.0) else Item(x, pools[0]).Plus(Total(x, pools[1..]))
  }

  ghost predicate Feasible(x: Allocation, pools: seq<PoolView>) {
    forall i :: 0 <= i < |pools| ==> At(x, pools[i].name) <= EffectiveCap(pools[i])
  }

  /** A plan that some outcome of the sort produces. */
  ghost predicate IsPlan(plan: seq<PlanEntry>, need: int, pools: seq<PoolView>) {
    exists order :: SortOf(order, pools) && plan == Allocate(need, order)
  }

  // ---------- The method ----------

  ghost predicate Cheapest(pools: seq<PoolView>, i: nat) {
    i < |pools| && forall j :: 0 <= j < |pools| ==> Cost(pools[i]) <= Cost(pools[j])
  }

  ghost predicate AllBelow(sorted: seq<PoolView>, rest: seq<PoolView>) {
    forall i, j :: 0 <= i < |sorted| && 0 <= j < |rest| ==> Cost(sorted[i]) <= Cost(rest[j])
  }

  lemma CheapestExists(pools: seq<PoolView>)
    requires pools != []
    ensures exists i: nat :: i < |pools| && Cheapest(pools, i)
  {
    var costs := seq(|pools|, k requires 0 <= k < |pools| => Cost(pools[k]));
    var i := LeastIndex(costs);
    forall j | 0 <= j < |pools| ensures Cost(pools[i]) <= Cost(pools[j]) {
      assert costs[i] <= costs[j];
    }
    assert Cheapest(pools, i);
  }

  lemma CheapestNext(sorted: seq<PoolView>, rest: seq<PoolView>, i: nat)
    requires SortedByCost(sorted) && AllBelow(sorted, rest) && Cheapest(rest, i)
    ensures SortedByCost(sorted + [rest[i]]) && AllBelow(sorted + [rest[i]], RemoveAt(rest, i))
  {
  }

  /** An unstable sort: among pools of equal cost any may come next. */
  method SortByCost(pools: seq<PoolView>) returns (sorted: seq<PoolView>)
    ensures SortOf(sorted, pools)
  {
    var rest := pools;
    sorted := [];
    while rest != []
      invariant multiset(sorted) + multiset(rest) == multiset(pools)
      invariant SortedByCost(sorted)
      invariant AllBelow(sorted, rest)
      decreases |rest|
    {
      CheapestExists(rest);
      var i: nat :| i < |rest| && forall j :: 0 <= j < |rest| ==> Cost(rest[i]) <= Cost(rest[j]);
      RemoveAtMultiset(rest, i);
      CheapestNext(sorted, rest, i);
      sorted := sorted + [rest[i]];
      rest := RemoveAt(rest, i);
    }
  }

  lemma AllocateHead(need: int, order: seq<PoolView>)
    requires need > 0 && order != []
    ensures Grant(need, order[0]) == 0 ==> Allocate(need, order) == Allocate(need, order[1..])
    ensures var n := Grant(need, order[0]);
            n > 0 ==> Allocate(need, order) == [PlanEntry(order[0].name, n)] + Allocate(need - n, order[1..])
  {
    var rest := Allocate(need, order[1..]);
    assert [] + rest == rest;
  }

  lemma AllocateStep(plan: seq<PlanEntry>, need: int, order: seq<PoolView>, k: nat)
    requires need > 0 && k < |order|
    ensures var n := Grant(need, order[k]);
            plan + Allocate(need, order[k..])
            == (if n == 0 then plan else plan + [PlanEntry(order[k].name, n)]) + Allocate(need - n, order[k + 1..])
  {
    var n := Grant(need, order[k]);
    AllocateHead(need, order[k..]);
    assert order[k..][1..] == order[k + 1..];
    Concat3(plan, [PlanEntry(order[k].name, n)], Allocate(need - n, order[k + 1..]));
  }

  /** The loop of Fill, over the sorted pools. */
  method FillInOrder(need: int, sorted: seq<PoolView>) returns (plan: seq<PlanEntry>)
    ensures plan == Allocate(need, sorted)
  {
    plan := [];
    var remaining := need;
    for k := 0 to |sorted|
      invariant plan + Allocate(remaining, sorted[k..]) == Allocate(need, sorted)
    {
      if remaining <= 0 {
        assert Allocate(remaining, sorted[k..]) == [];
        break;
      }
      var pool := sorted[k];
      AllocateStep(plan, remaining, sorted, k);
      var capacity := pool.maxNodes - pool.currentNodes;
      if capacity <= 0 {
        continue;
      }
      if pool.available > 0 && pool.available < capacity {
        capacity := pool.available;
      }
      var n := remaining;
      if n > capacity {
        n := capacity;
      }
      if n <= 0 {
        continue;
      }
      plan := plan + [PlanEntry(pool.name, n)];
      remaining := remaining - n;
    }
  }

  method Fill(need: int, pools: seq<PoolView>) returns (plan: seq<PlanEntry>)
    ensures IsPlan(plan, need, pools)
  {
    var sorted := SortByCost(pools);
    plan := FillInOrder(need, sorted);
  }

  // ---------- Sums do not depend on the order ----------

  lemma {:induction false} TotalSplit(x: Allocation, a: seq<PoolView>, b: seq<PoolView>)
    ensures Total(x, a + b) == Total(x, a).Plus(Total(x, b))
    decreases |a|
  {
    if a == [] {
      assert a + b == b;
    } else {
      TotalSplit(x, a[1..], b);
      assert (a + b)[1..] == a[1..] + b;
    }
  }

  lemma {:induction false} TotalOfPermutation(x: Allocation, a: seq<PoolView>, b: seq<PoolView>)
    requires multiset(a) == multiset(b)
    ensures Total(x, a) == Total(x, b)
    decreases |a|
  {
    if a == [] {
      assert |multiset(b)| == |b|;
    } else {
      var j := HeadIn(a, b);
      TotalOfPermutation(x, a[1..], RemoveAt(b, j));
      TotalSplit(x, b[..j], b[j + 1..]);
      TotalSplit(x, b[..j], b[j..]);
      assert b == b[..j] + b[j..];
      assert b[j..][1..] == b[j + 1..];
    }
  }

  lemma {:induction false} DistinctPermutation(a: seq<PoolView>, b: seq<PoolView>)
    requires multiset(a) == multiset(b) && Distinct(a)
    ensures Distinct(b)
    decreases |a|
  {
    if a == [] {
      assert |multiset(b)| == |b|;
    } else {
      var j := HeadIn(a, b);
      var rest := RemoveAt(b, j);
      DistinctPermutation(a[1..], rest);
      forall k | 0 <= k < |rest| ensures rest[k].name != b[j].name {
        assert rest[k] in multiset(a[1..]);
        var l :| 0 <= l < |a[1..]| && a[1..][l] == rest[k];
        assert a[l + 1].name != a[0].name;
      }
      forall i, k | 0 <= i < k < |b| ensures b[i].name != b[k].name {
        assert i < j ==> rest[i] == b[i];
        assert i > j ==> rest[i - 1] == b[i];
        assert k < j ==> rest[k] == b[k];
        assert k > j ==> rest[k - 1] == b[k];
      }
    }
  }

  lemma FeasiblePermutation(x: Allocation, a: seq<PoolView>, b: seq<PoolView>)
    requires multiset(a) == multiset(b) && Feasible(x, a)
    ensures Feasible(x, b)
  {
    forall i | 0 <= i < |b| ensures At(x, b[i].name) <= EffectiveCap(b[i]) {
      assert b[i] in multiset(a);
    }
  }

  // ---------- What each pool receives ----------

  /** What each visited pool receives: the share of its cap. */
  function Received(need: int, order: seq<PoolView>): (r: seq<nat>)
    ensures |r| == |order|
  {
    Shares(need, Caps(order))
  }

  lemma ReceivedHead(need: int, order: seq<PoolView>)
    requires order != []
    ensures var n := Grant(need, order[0]);
            Received(need, order) == [n] + Received(need - n, order[1..])
  {
    assert Caps(order)[1..] == Caps(order[1..]);
  }

  /** The first visited pool receives its grant; the plan for the others is the rest. */
  lemma GrantedHead(need: int, order: seq<PoolView>, name: string)
    requires need > 0 && order != []
    ensures var n := Grant(need, order[0]);
            At(Granted(Allocate(need, order)), name)
            == At(Granted(Allocate(need - n, order[1..])), name) + if order[0].name == name then n else 0
  {
    var n := Grant(need, order[0]);
    AllocateHead(need, order);
  }

  lemma {:induction false} GrantedOutside(need: int, order: seq<PoolView>, name: string)
    requires forall i :: 0 <= i < |order| ==> order[i].name != name
    ensures At(Granted(Allocate(need, order)), name) == 0
    decreases |order|
  {
    if need > 0 && order != [] {
      GrantedHead(need, order, name);
      GrantedOutside(need - Grant(need, order[0]), order[1..], name);
    }
  }

  /** A plan gives each pool exactly the share of its cap. */
  lemma {:induction false} GrantedIsShare(need: int, order: seq<PoolView>, i: nat)
    requires Distinct(order) && i < |order|
    ensures At(Granted(Allocate(need, order)), order[i].name) == Received(need, order)[i]
    decreases |order|
  {
    if need <= 0 {
      NoNeedNoShares(need, Caps(order));
      assert Allocate(need, order) == [];
    } else {
      var n, tail := Grant(need, order[0]), order[1..];
      GrantedHead(need, order, order[i].name);
      ReceivedHead(need, order);
      if i == 0 {
        GrantedOutside(need - n, tail, order[0].name);
      } else {
        assert order[i] == tail[i - 1] && order[0].name != order[i].name;
        assert Distinct(tail);
        GrantedIsShare(need - n, tail, i - 1);
      }
    }
  }

  lemma {:induction false} TotalIsAligned(x: Allocation, pools: seq<PoolView>)
    ensures Total(x, pools)
            == Bill(Sum(Amounts(x, pools)), Sum(Caps(pools)), Spend(Amounts(x, pools), Costs(pools)))
    decreases |pools|
  {
    if pools != [] {
      assert Amounts(x, pools)[1..] == Amounts(x, pools[1..]);
      assert Caps(pools)[1..] == Caps(pools[1..]);
      assert Costs(pools)[1..] == Costs(pools[1..]);
      ChargeIsProduct(At(x, pools[0].name), Cost(pools[0]));
      TotalIsAligned(x, pools[1..]);
    }
  }

  /** Any plan, seen from some order its sort may have produced. */
  lemma PlanInOrder(plan: seq<PlanEntry>, need: int, pools: seq<PoolView>) returns (order: seq<PoolView>)
    requires Distinct(pools) && IsPlan(plan, need, pools)
    ensures SortOf(order, pools) && Distinct(order) && plan == Allocate(need, order)
    ensures Amounts(Granted(plan), order) == Received(need, order)
    ensures Total(Granted(plan), pools) == Total(Granted(plan), order)
  {
    order :| SortOf(order, pools) && plan == Allocate(need, order);
    DistinctPermutation(pools, order);
    forall i | 0 <= i < |order| ensures Amounts(Granted(plan), order)[i] == Received(need, order)[i] {
      GrantedIsShare(need, order, i);
    }
    TotalOfPermutation(Granted(plan), pools, order);
  }

  function TotalCap(pools: seq<PoolView>): nat {
    Sum(Caps(pools))
  }

  /** Fill hands out min(need, capacity) nodes, within every pool's cap, whatever the sort did with ties. */
  lemma FillCount(plan: seq<PlanEntry>, need: nat, pools: seq<PoolView>)
    requires Distinct(pools) && IsPlan(plan, need, pools)
    ensures Feasible(Granted(plan), pools)
    ensures Total(Granted(plan), pools).nodes == if need <= TotalCap(pools) then need else TotalCap(pools)
  {
    var order := PlanInOrder(plan, need, pools);
    SharesFit(need, Caps(order));
    forall i | 0 <= i < |order| ensures At(Granted(plan), order[i].name) <= EffectiveCap(order[i]) {
      assert Amounts(Granted(plan), order)[i] <= Caps(order)[i];
    }
    FeasiblePermutation(Granted(plan), order, pools);
    SharesSum(need, Caps(order));
    TotalIsAligned(Granted(plan), order);
    TotalIsAligned(Granted(plan), pools);
  }

  // ---------- Optimality ----------

  lemma {:induction false} SortedAscends(order: seq<PoolView>, floor: real)
    requires SortedByCost(order)
    requires order != [] ==> floor <= Cost(order[0])
    ensures Ascending(Costs(order), floor)
    decreases |order|
  {
    if order != [] {
      var tail := order[1..];
      assert Costs(order)[1..] == Costs(tail);
      assert tail != [] ==> tail[0] == order[1];
      SortedAscends(tail, Cost(order[0]));
    }
  }

  /** No allocation of as many nodes within the caps is cheaper than the plan. */
  lemma FillIsCheapest(plan: seq<PlanEntry>, need: nat, pools: seq<PoolView>, x: Allocation)
    requires Distinct(pools) && IsPlan(plan, need, pools)
    requires Feasible(x, pools) && Total(x, pools).nodes == Total(Granted(plan), pools).nodes
    ensures Total(Granted(plan), pools).cost <= Total(x, pools).cost
  {
    var order := PlanInOrder(plan, need, pools);
    FeasiblePermutation(x, pools, order);
    TotalOfPermutation(x, pools, order);
    TotalIsAligned(x, order);
    TotalIsAligned(Granted(plan), order);
    var floor := if order == [] then 0.0 else Cost(order[0]);
    SortedAscends(order, floor);
    GreedyIsCheapest(need, Caps(order), Costs(order), Amounts(x, order), floor);
  }

  /** Neither the count nor the cost depends on how the sort breaks ties. */
  lemma TiesDoNotMatter(plan: seq<PlanEntry>, rival: seq<PlanEntry>, need: nat, pools: seq<PoolView>)
    requires Distinct(pools) && IsPlan(plan, need, pools) && IsPlan(rival, need, pools)
    ensures Total(Granted(plan), pools) == Total(Granted(rival), pools)
  {
    FillCount(plan, need, pools);
    FillCount(rival, need, pools);
    FillIsCheapest(plan, need, pools, Granted(rival));
    FillIsCheapest(rival, need, pools, Granted(plan));
    TotalIsAligned(Granted(plan), pools);
    TotalIsAligned(Granted(rival), pools);
  }

  // ---------- Composition ----------

  /** The pools after each received its share. */
  function RaiseAll(order: seq<PoolView>, shares: seq<nat>): (r: seq<PoolView>)
    requires |order| == |shares|
    ensures |r| == |order|
  {
    seq(|order|, i requires 0 <= i < |order| => order[i].(currentNodes := order[i].currentNodes + shares[i]))
  }

  /** The availability report does not cut the pool's headroom. */
  predicate Uncut(p: PoolView) {
    p.available <= 0 || Headroom(p) <= p.available
  }

  /** Filling for a and then for b gives every pool what filling for a + b gives it. */
  ghost predicate Composes(a: nat, b: nat, order: seq<PoolView>) {
    var first := Received(a, order);
    var second := Received(b, RaiseAll(order, first));
    forall i :: 0 <= i < |order| ==> first[i] + second[i] == Received(a + b, order)[i]
  }

  lemma UncutComposes(a: nat, b: nat, order: seq<PoolView>)
    requires forall i :: 0 <= i < |order| ==> Uncut(order[i])
    ensures Composes(a, b, order)
  {
    SharesFit(a, Caps(order));
    assert Caps(RaiseAll(order, Received(a, order))) == Minus(Caps(order), Received(a, order));
    forall i | 0 <= i < |order|
      ensures Received(a, order)[i] + Received(b, RaiseAll(order, Received(a, order)))[i] == Received(a + b, order)[i]
    {
      SharesCompose(a, b, Caps(order), i);
    }
  }

  /** With need for exactly the capacity up to the cut pool, one more node goes there instead of further on. */
  lemma CutBreaks(order: seq<PoolView>, k: nat) returns (a: nat)
    requires k < |order| && !Uncut(order[k])
    requires forall i :: 0 <= i < k ==> Uncut(order[i])
    ensures !Composes(a, 1, order)
  {
    a := Sum(Caps(order)[..k + 1]);
    SharesSaturate(a, Caps(order), k, k);
    SharesSaturate(a + 1, Caps(order), k, k);
    var raised := RaiseAll(order, Received(a, order));
    forall i | 0 <= i < k ensures Caps(raised)[i] == 0 {
      SharesSaturate(a, Caps(order), k, i);
    }
    SingleNode(Caps(raised), k);
    assert Received(a, order)[k] + Received(1, raised)[k] != Received(a + 1, order)[k];
  }

  lemma {:induction false} FirstCut(order: seq<PoolView>, i: nat) returns (k: nat)
    requires i < |order| && !Uncut(order[i])
    ensures k < |order| && !Uncut(order[k]) && forall j :: 0 <= j < k ==> Uncut(order[j])
    decreases i
  {
    if j: nat :| j < i && !Uncut(order[j]) {
      k := FirstCut(order, j);
    } else {
      k := i;
    }
  }

  /** Filling composes for all needs if and only if no availability report cuts a pool's headroom. */
  lemma FillComposesIff(order: seq<PoolView>)
    ensures (forall a: nat, b: nat :: Composes(a, b, order)) <==> (forall i :: 0 <= i < |order| ==> Uncut(order[i]))
  {
    if i: nat :| i < |order| && !Uncut(order[i]) {
      var k := FirstCut(order, i);
      var a := CutBreaks(order, k);
    } else {
      forall a: nat, b: nat ensures Composes(a, b, order) {
        UncutComposes(a, b, order);
      }
    }
  }
}
