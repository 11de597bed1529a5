/** What a buffer reconcile promises: the target is never crossed, limits hold, and a pass without faults settles. */
module BufferProperties {
  import opened Cluster
  import opened Greedy
  import opened BufferController
  import opened Seqs
  import Knapsack

  // ---------- Views and plans ----------

  lemma {:induction false} ViewsAreViews(pools: map<string, Pool>, refs: seq<string>, now: Instant, i: nat)
    requires i < |BuildViews(pools, refs, now)|
    ensures var v := BuildViews(pools, refs, now)[i];
            v.name in refs && v.name in pools && v == ViewOf(v.name, pools[v.name], now)
    decreases |refs|
  {
    var head := if refs[0] in pools then [ViewOf(refs[0], pools[refs[0]], now)] else [];
    assert BuildViews(pools, refs, now) == head + BuildViews(pools, refs[1..], now);
    if i >= |head| {
      ViewsAreViews(pools, refs[1..], now, i - |head|);
    }
  }

  lemma {:induction false} ViewsAreDistinct(pools: map<string, Pool>, refs: seq<string>, now: Instant)
    requires NoDuplicates(refs)
    ensures Distinct(BuildViews(pools, refs, now))
    decreases |refs|
  {
    if refs != [] {
      var views, rest := BuildViews(pools, refs, now), BuildViews(pools, refs[1..], now);
      ViewsAreDistinct(pools, refs[1..], now);
      if refs[0] in pools {
        assert views == [ViewOf(refs[0], pools[refs[0]], now)] + rest;
        forall j | 0 <= j < |rest| ensures rest[j].name != refs[0] {
          ViewsAreViews(pools, refs[1..], now, j);
        }
      } else {
        assert views == rest;
      }
    }
  }

  function Entries(plan: seq<PlanEntry>): int {
    if plan == [] then 0 else plan[0].nodeCount + Entries(plan[1..])
  }

  /** The entry is positive and within the cap of a pool of the order. */
  ghost predicate Backed(e: PlanEntry, order: seq<PoolView>) {
    exists k :: 0 <= k < |order| && order[k].name == e.poolName && 1 <= e.nodeCount <= EffectiveCap(order[k])
  }

  /** Entries name distinct pools of the order, and each is positive and within its pool's cap. */
  ghost predicate Sound(plan: seq<PlanEntry>, order: seq<PoolView>) {
    && (forall i, j :: 0 <= i < j < |plan| ==> plan[i].poolName != plan[j].poolName)
    && (forall i :: 0 <= i < |plan| ==> Backed(plan[i], order))
  }

  lemma BackedAmong(e: PlanEntry, some: seq<PoolView>, order: seq<PoolView>)
    requires Backed(e, some) && forall v :: v in some ==> v in order
    ensures Backed(e, order)
  {
    var k :| 0 <= k < |some| && some[k].name == e.poolName && 1 <= e.nodeCount <= EffectiveCap(some[k]);
    assert some[k] in order;
    var l :| 0 <= l < |order| && order[l] == some[k];
    assert order[l].name == e.poolName;
  }

  lemma SoundTail(plan: seq<PlanEntry>, order: seq<PoolView>)
    requires order != [] && Sound(plan, order[1..])
    ensures Sound(plan, order)
  {
    forall i | 0 <= i < |plan| ensures Backed(plan[i], order) {
      BackedAmong(plan[i], order[1..], order);
    }
  }

  lemma SoundCons(e: PlanEntry, rest: seq<PlanEntry>, order: seq<PoolView>)
    requires order != [] && Distinct(order) && Sound(rest, order[1..])
    requires e.poolName == order[0].name && 1 <= e.nodeCount <= EffectiveCap(order[0])
    ensures Sound([e] + rest, order)
  {
    SoundTail(rest, order);
    forall j | 0 <= j < |rest| ensures rest[j].poolName != e.poolName {
      assert Backed(rest[j], order[1..]);
      var k :| 0 <= k < |order[1..]| && order[1..][k].name == rest[j].poolName;
      assert order[k + 1].name != order[0].name;
    }
    assert Backed(e, order) by {
      assert order[0].name == e.poolName;
    }
    var plan := [e] + rest;
    assert forall i :: 1 <= i < |plan| ==> plan[i] == rest[i - 1];
  }

  lemma {:induction false} AllocateIsSound(need: int, order: seq<PoolView>)
    requires Distinct(order)
    ensures Sound(Allocate(need, order), order)
    decreases |order|
  {
    if need > 0 && order != [] {
      var n, tail := Grant(need, order[0]), order[1..];
      var left := need - n;
      AllocateIsSound(left, tail);
      AllocateSplit(need, n, left, order);
      SoundStep(n, Allocate(left, tail), order);
    }
  }

  lemma AllocateSplit(need: int, n: nat, left: int, order: seq<PoolView>)
    requires need > 0 && order != [] && n == Grant(need, order[0]) && left == need - n
    ensures var rest := Allocate(left, order[1..]);
            Allocate(need, order) == if n == 0 then rest else [PlanEntry(order[0].name, n)] + rest
  {
    AllocateHead(need, order);
  }

  lemma SoundStep(n: nat, rest: seq<PlanEntry>, order: seq<PoolView>)
    requires order != [] && Distinct(order) && Sound(rest, order[1..]) && n <= EffectiveCap(order[0])
    ensures Sound(if n == 0 then rest else [PlanEntry(order[0].name, n)] + rest, order)
  {
    if n == 0 {
      SoundTail(rest, order);
    } else {
      SoundCons(PlanEntry(order[0].name, n), rest, order);
    }
  }

  lemma {:induction false} AllocateEntries(need: int, order: seq<PoolView>)
    ensures Entries(Allocate(need, order)) == Knapsack.Take(need, TotalCap(order))
    decreases |order|
  {
    if need > 0 && order != [] {
      var n, tail := Grant(need, order[0]), order[1..];
      var left := need - n;
      TotalCapCons(order);
      AllocateEntries(left, tail);
      AllocateSplit(need, n, left, order);
    }
  }

  lemma TotalCapCons(order: seq<PoolView>)
    requires order != []
    ensures TotalCap(order) == EffectiveCap(order[0]) + TotalCap(order[1..])
  {
    assert Caps(order)[1..] == Caps(order[1..]);
  }

  lemma CapOfPermutation(a: seq<PoolView>, b: seq<PoolView>)
    requires multiset(a) == multiset(b)
    ensures TotalCap(a) == TotalCap(b)
  {
    TotalOfPermutation(map[], a, b);
    TotalIsAligned(map[], a);
    TotalIsAligned(map[], b);
  }

  lemma {:induction false} AllocateIsPositive(need: int, order: seq<PoolView>)
    ensures forall i :: 0 <= i < |Allocate(need, order)| ==> Allocate(need, order)[i].nodeCount >= 0
    decreases |order|
  {
    if need > 0 && order != [] {
      AllocateIsPositive(need - Grant(need, order[0]), order[1..]);
    }
  }

  /** Every plan is sound for the pools it was made for and hands out min(need, capacity). */
  lemma PlanIsSound(plan: seq<PlanEntry>, need: int, pools: seq<PoolView>)
    requires Distinct(pools) && IsPlan(plan, need, pools)
    ensures Sound(plan, pools) && Entries(plan) == Knapsack.Take(need, TotalCap(pools))
  {
    var order := PlanInOrder(plan, need, pools);
    AllocateIsSound(need, order);
    AllocateEntries(need, order);
    CapOfPermutation(order, pools);
    forall v | v in order ensures v in pools {
      assert v in multiset(order) && multiset(order) == multiset(pools);
    }
    forall i | 0 <= i < |plan| ensures Backed(plan[i], pools) {
      BackedAmong(plan[i], order, pools);
    }
  }

  lemma PlanIsPositive(s: State, p: Policy, env: BufferEnv, plan: seq<PlanEntry>)
    requires PlannedFor(s, p, env, plan) && Need(s, p, env) > 0
    ensures forall i :: 0 <= i < |plan| ==> plan[i].nodeCount >= 0
  {
    var need := Need(s, p, env);
    var order: seq<PoolView> :| SortOf(order, Views(s, p, env)) && plan == Allocate(need, order);
    AllocateIsPositive(need, order);
  }

  // ---------- What was read ----------

  ghost predicate AllRead(refs: seq<string>, got: nat -> bool) {
    forall k :: 0 <= k < |refs| ==> got(k)
  }

  lemma {:induction false} AnsweredAll(refs: seq<string>, got: nat -> bool)
    requires AllRead(refs, got)
    ensures Answered(refs, got) == refs
    decreases |refs|
  {
    if refs != [] {
      AnsweredAll(refs[..|refs| - 1], got);
    }
  }

  /** What is answered was referred to, and is distinct if the references are. */
  lemma {:induction false} AnsweredAmong(refs: seq<string>, got: nat -> bool)
    ensures forall i :: 0 <= i < |Answered(refs, got)| ==> Answered(refs, got)[i] in refs
    ensures NoDuplicates(refs) ==> NoDuplicates(Answered(refs, got))
    decreases |refs|
  {
    if refs != [] {
      var init := refs[..|refs| - 1];
      AnsweredAmong(init, got);
      assert NoDuplicates(refs) ==> NoDuplicates(init) && refs[|refs| - 1] !in init;
    }
  }

  ghost predicate NaturalWarm(pools: map<string, Pool>) {
    forall n :: n in pools ==> pools[n].counts.Warm() >= 0
  }

  /** With natural counters, no more is seen than there is. */
  lemma {:induction false} SeenAtMost(pools: map<string, Pool>, refs: seq<string>, got: nat -> bool)
    requires NaturalWarm(pools)
    ensures CountWarm(pools, Answered(refs, got)) <= CountWarm(pools, refs)
    decreases |refs|
  {
    if refs != [] {
      var init, last := refs[..|refs| - 1], refs[|refs| - 1];
      var seen := Answered(init, got);
      SeenAtMost(pools, init, got);
      assert refs == init + [last] && WarmOf(pools, last) >= 0;
      CountWarmSnoc(pools, init, last);
      if got(|refs| - 1) {
        CountWarmSnoc(pools, seen, last);
        assert Answered(refs, got) == seen + [last];
      } else {
        assert Answered(refs, got) == seen + [] == seen;
      }
    }
  }

  // ---------- The warm count under updates ----------

  lemma {:induction false} WarmElsewhere(pools: map<string, Pool>, refs: seq<string>, name: string, p: Pool)
    requires name !in refs
    ensures CountWarm(pools[name := p], refs) == CountWarm(pools, refs)
    decreases |refs|
  {
    if refs != [] {
      WarmElsewhere(pools, refs[1..], name, p);
    }
  }

  lemma {:induction false} WarmAfterUpdate(pools: map<string, Pool>, refs: seq<string>, name: string, p: Pool)
    requires NoDuplicates(refs) && name in refs
    ensures CountWarm(pools[name := p], refs) == CountWarm(pools, refs) + p.counts.Warm() - WarmOf(pools, name)
    decreases |refs|
  {
    if refs[0] == name {
      WarmElsewhere(pools, refs[1..], name, p);
    } else {
      WarmAfterUpdate(pools, refs[1..], name, p);
    }
  }

  // ---------- Provisioning ----------

  /** All launches from the i-th on succeed. */
  ghost predicate LaunchesSucceed(i: nat, count: int, launch: nat -> Launch) {
    forall k: nat :: i <= k < count ==> launch(k).Launched?
  }

  /** The records of the instances that the launch loop starts, from the i-th on. */
  function RecordsOf(name: string, i: nat, count: int, launch: nat -> Launch): seq<NodeRecord>
    decreases count - i
  {
    if i >= count || !launch(i).Launched? then []
    else
      var h := launch(i).handle;
      [NodeRecord(h.providerID, h.nodeName, Provisioning, h.launchedAt, name)] + RecordsOf(name, i + 1, count, launch)
  }

  lemma {:induction false} RecordsOfAll(name: string, i: nat, count: int, launch: nat -> Launch)
    requires i <= count
    ensures var started := RecordsOf(name, i, count, launch);
            && |started| <= count - i && (|started| == count - i <==> LaunchesSucceed(i, count, launch))
            && (forall j :: 0 <= j < |started| ==> started[j].state == Provisioning)
    decreases count - i
  {
    if i < count {
      if launch(i).Launched? {
        RecordsOfAll(name, i + 1, count, launch);
      } else {
        assert !LaunchesSucceed(i, count, launch);
      }
    }
  }

  /** The working copy gains a record per started instance, and the loop ends well iff all launches succeed. */
  lemma {:induction false} LaunchOutcome(p: Pool, name: string, i: nat, count: int, launch: nat -> Launch)
    requires i <= count
    ensures var (q, outcome) := LaunchFrom(p, name, i, count, launch);
            && (outcome == Done <==> LaunchesSucceed(i, count, launch))
            && q.spec == p.spec && q.observed == p.observed
            && q.records == p.records + RecordsOf(name, i, count, launch)
            && q.counts == p.counts.(provisioning := p.counts.provisioning + |RecordsOf(name, i, count, launch)|)
    decreases count - i
  {
    if i < count {
      if launch(i).Launched? {
        LaunchOutcome(Recorded(p, name, launch(i).handle), name, i + 1, count, launch);
      } else {
        assert !LaunchesSucceed(i, count, launch);
      }
    }
  }

  /** Nothing stands in the way of provisioning this many nodes in the pool. */
  ghost predicate Smooth(s: State, name: string, count: int, f: PoolFaults) {
    && name in s.pools && f.getOk && SpendAllowed(s.pools[name], count) && !AlreadyJoined(s, name, count, f)
    && f.providerOk && f.quoteOk && LaunchesSucceed(0, count, f.launch) && f.updateOk
  }

  /** A pool gains all the nodes or none, and nothing else changes; the reported outcome tells which. */
  lemma ProvisionEffect(s: State, name: string, count: int, f: PoolFaults)
    requires count >= 0
    ensures !Smooth(s, name, count, f) ==> ProvisionPool(s, name, count, f) == s
    ensures Smooth(s, name, count, f) ==>
              var t := ProvisionPool(s, name, count, f);
              && name in t.pools && t == WithPool(s, name, t.pools[name])
              && t.pools[name].counts == s.pools[name].counts.(provisioning := s.pools[name].counts.provisioning + count)
              && t.pools[name].spec == s.pools[name].spec && t.pools[name].observed == s.pools[name].observed
              && t.pools[name].records == s.pools[name].records + RecordsOf(name, 0, count, f.launch)
    ensures ProvisionOutcome(s, name, count, f) == Done
        <==> Smooth(s, name, count, f)
             || (name in s.pools && f.getOk && SpendAllowed(s.pools[name], count) && AlreadyJoined(s, name, count, f))
  {
    if name in s.pools {
      RecordsOfAll(name, 0, count, f.launch);
      LaunchOutcome(s.pools[name], name, 0, count, f.launch);
      var (p, outcome) := LaunchFrom(s.pools[name], name, 0, count, f.launch);
      assert WithPool(s, name, p).pools[name] == p;
    }
  }

  /** The pools the plan names are distinct, referenced, and stored. */
  ghost predicate Refers(plan: seq<PlanEntry>, refs: seq<string>) {
    && (forall i, j :: 0 <= i < j < |plan| ==> plan[i].poolName != plan[j].poolName)
    && (forall i :: 0 <= i < |plan| ==> plan[i].poolName in refs && plan[i].nodeCount >= 1)
  }

  ghost predicate AllSmooth(s: State, plan: seq<PlanEntry>, env: BufferEnv) {
    forall i :: 0 <= i < |plan| ==> Smooth(s, plan[i].poolName, plan[i].nodeCount, env.pool(plan[i].poolName))
  }

  /** The nodes planned for the pools that go smoothly. */
  ghost function SmoothEntries(s: State, plan: seq<PlanEntry>, env: BufferEnv): int
    decreases |plan|
  {
    if plan == [] then 0
    else
      var e := plan[0];
      SmoothEntries(s, plan[1..], env)
      + if Smooth(s, e.poolName, e.nodeCount, env.pool(e.poolName)) then e.nodeCount else 0
  }

  /** Provisioning one pool does not change what stands in the way of the others. */
  lemma {:induction false} SmoothElsewhere(s: State, t: State, plan: seq<PlanEntry>, env: BufferEnv)
    requires t.nodes == s.nodes
    requires forall i :: 0 <= i < |plan| ==> (plan[i].poolName in s.pools <==> plan[i].poolName in t.pools)
    requires forall i :: 0 <= i < |plan| && plan[i].poolName in s.pools ==>
               s.pools[plan[i].poolName] == t.pools[plan[i].poolName]
    ensures SmoothEntries(s, plan, env) == SmoothEntries(t, plan, env)
    decreases |plan|
  {
    if plan != [] {
      assert forall i :: 0 <= i < |plan[1..]| ==> plan[1..][i] == plan[i + 1];
      SmoothElsewhere(s, t, plan[1..], env);
    }
  }

  /** The warm count rises by exactly the nodes planned for the pools that go smoothly. */
  lemma {:induction false} ProvisionAllGains(s: State, refs: seq<string>, plan: seq<PlanEntry>, env: BufferEnv)
    requires NoDuplicates(refs) && Refers(plan, refs)
    ensures CountWarm(ProvisionAll(s, plan, env).pools, refs) == CountWarm(s.pools, refs) + SmoothEntries(s, plan, env)
    decreases |plan|
  {
    if plan != [] {
      var e := plan[0];
      var f := env.pool(e.poolName);
      var t := ProvisionPool(s, e.poolName, e.nodeCount, f);
      ProvisionEffect(s, e.poolName, e.nodeCount, f);
      if Smooth(s, e.poolName, e.nodeCount, f) {
        WarmAfterUpdate(s.pools, refs, e.poolName, t.pools[e.poolName]);
      }
      assert forall i :: 0 <= i < |plan[1..]| ==> plan[1..][i] == plan[i + 1];
      ProvisionAllGains(t, refs, plan[1..], env);
      SmoothElsewhere(s, t, plan[1..], env);
    }
  }

  /** That is at most what was planned, and all of it if and only if every pool goes smoothly. */
  lemma {:induction false} SmoothBounds(s: State, refs: seq<string>, plan: seq<PlanEntry>, env: BufferEnv)
    requires Refers(plan, refs)
    ensures 0 <= SmoothEntries(s, plan, env) <= Entries(plan)
    ensures SmoothEntries(s, plan, env) == Entries(plan) <==> AllSmooth(s, plan, env)
    decreases |plan|
  {
    if plan != [] {
      assert forall i :: 0 <= i < |plan[1..]| ==> plan[1..][i] == plan[i + 1];
      SmoothBounds(s, refs, plan[1..], env);
      assert AllSmooth(s, plan, env)
        <==> Smooth(s, plan[0].poolName, plan[0].nodeCount, env.pool(plan[0].poolName)) && AllSmooth(s, plan[1..], env);
    }
  }

  // ---------- Draining ----------

  /** Each unit of excess spent takes at most one node out of the buffered count, and nothing else. */
  ghost predicate Spent(d: Drain, e: Drain) {
    && e.pool.spec == d.pool.spec && e.pool.observed == d.pool.observed
    && e.pool.counts == d.pool.counts.(buffered := e.pool.counts.buffered)
    && 0 <= d.pool.counts.buffered - e.pool.counts.buffered <= d.excess - e.excess
  }

  lemma {:induction false} DrainSpends(d: Drain, name: string, i: nat, window: int, env: BufferEnv)
    requires d.excess >= 0
    ensures var e := DrainFrom(d, name, i, window, env);
            e.excess >= 0 && (!e.failed ==> Spent(d, e))
    decreases |d.pool.records| - i
  {
    if i >= |d.pool.records| || d.failed || d.excess <= 0 {
    } else if !Candidate(d.pool.records[i], window, env.now) {
      DrainSpends(d, name, i + 1, window, env);
    } else {
      var e := DrainAndRelease(d, name, i, window, env);
      if !e.failed {
        DrainSpends(e.(excess := e.excess - 1), name, i + 1, window, env);
      }
    }
  }

  lemma ScaleDownPoolBounds(s: State, refs: seq<string>, name: string, excess: int, window: int, env: BufferEnv)
    requires NoDuplicates(refs) && name in refs && excess >= 0
    ensures var r := ScaleDownPool(s, name, excess, window, env);
            && 0 <= r.excess
            && 0 <= CountWarm(s.pools, refs) - CountWarm(r.s.pools, refs) <= excess
            && (!r.failed ==> CountWarm(s.pools, refs) - CountWarm(r.s.pools, refs) <= excess - r.excess)
  {
    if name in s.pools {
      var d := Drain(s.pools[name], s.nodes, excess, false, s.releases);
      DrainSpends(d, name, 0, window, env);
      WarmAfterUpdate(s.pools, refs, name, DrainFrom(d, name, 0, window, env).pool);
    }
  }

  lemma {:induction false} ScaleDownBounds(s: State, refs: seq<string>, rest: seq<string>, excess: int,
                                           window: int, env: BufferEnv)
    requires NoDuplicates(refs) && excess >= 0 && forall i :: 0 <= i < |rest| ==> rest[i] in refs
    ensures var t := ScaleDown(s, rest, excess, window, env).s;
            0 <= CountWarm(s.pools, refs) - CountWarm(t.pools, refs) <= excess
    decreases |rest|
  {
    if rest != [] {
      ScaleDownPoolBounds(s, refs, rest[0], excess, window, env);
      var r := ScaleDownPool(s, rest[0], excess, window, env);
      if !r.failed {
        assert forall i :: 0 <= i < |rest[1..]| ==> rest[1..][i] == rest[i + 1];
        ScaleDownBounds(r.s, refs, rest[1..], r.excess, window, env);
      }
    }
  }

  // ---------- The target is never crossed ----------

  lemma PlanRefers(s: State, refs: seq<string>, now: Instant, need: int, plan: seq<PlanEntry>)
    requires NoDuplicates(refs) && IsPlan(plan, need, BuildViews(s.pools, refs, now))
    ensures Refers(plan, refs)
    ensures Entries(plan) == Knapsack.Take(need, TotalCap(BuildViews(s.pools, refs, now)))
    ensures forall i :: 0 <= i < |plan| ==>
              plan[i].poolName in s.pools
              && plan[i].nodeCount <= EffectiveCap(ViewOf(plan[i].poolName, s.pools[plan[i].poolName], now))
  {
    var views := BuildViews(s.pools, refs, now);
    ViewsAreDistinct(s.pools, refs, now);
    PlanIsSound(plan, need, views);
    forall i | 0 <= i < |plan|
      ensures plan[i].poolName in refs && plan[i].nodeCount >= 1 && plan[i].poolName in s.pools
      ensures plan[i].nodeCount <= EffectiveCap(ViewOf(plan[i].poolName, s.pools[plan[i].poolName], now))
    {
      var k :| 0 <= k < |views| && views[k].name == plan[i].poolName
            && 1 <= plan[i].nodeCount <= EffectiveCap(views[k]);
      ViewsAreViews(s.pools, refs, now, k);
    }
  }

  /** The plan of a reconcile, in terms of the policy's references. */
  lemma PlanOf(s: State, p: Policy, env: BufferEnv, plan: seq<PlanEntry>)
    requires NoDuplicates(p.pools) && PlannedFor(s, p, env, plan) && Need(s, p, env) > 0
    ensures Refers(plan, p.pools)
    ensures Entries(plan) == Knapsack.Take(Need(s, p, env), TotalCap(Views(s, p, env)))
  {
    AnsweredAmong(p.pools, env.gets.views);
    PlanRefers(s, Answered(p.pools, env.gets.views), env.now, Need(s, p, env), plan);
  }

  lemma ProvisioningRises(s: State, p: Policy, env: BufferEnv, plan: seq<PlanEntry>, need: int)
    requires NoDuplicates(p.pools) && PlannedFor(s, p, env, plan) && need == Need(s, p, env) > 0
    ensures var before, after := CountWarm(s.pools, p.pools), CountWarm(Rebalance(s, p, env, plan).pools, p.pools);
            after == before + SmoothEntries(s, plan, env) && before <= after <= before + need
  {
    PlanOf(s, p, env, plan);
    ProvisionAllGains(s, p.pools, plan, env);
    SmoothBounds(s, p.pools, plan, env);
  }

  lemma DrainingLowers(s: State, p: Policy, env: BufferEnv, plan: seq<PlanEntry>, excess: int)
    requires NoDuplicates(p.pools) && excess == -Need(s, p, env) > 0
    ensures var before, after := CountWarm(s.pools, p.pools), CountWarm(Rebalance(s, p, env, plan).pools, p.pools);
            before - excess <= after <= before
  {
    AnsweredAmong(p.pools, env.gets.scaleDown);
    ScaleDownBounds(s, p.pools, Answered(p.pools, env.gets.scaleDown), excess, Window(p.stabilization), env);
  }

  /** Whatever fails or is missing, the warm count moves by at most the gap that was seen, in its direction. */
  lemma MovesByTheGap(s: State, p: Policy, env: BufferEnv, plan: seq<PlanEntry>)
    requires NoDuplicates(p.pools) && PlannedFor(s, p, env, plan)
    ensures var before, after, need :=
              CountWarm(s.pools, p.pools), CountWarm(Rebalance(s, p, env, plan).pools, p.pools), Need(s, p, env);
            before <= after <= before + need || before + need <= after <= before
  {
    var need := Need(s, p, env);
    if need > 0 {
      ProvisioningRises(s, p, env, plan, need);
    } else if need < 0 {
      DrainingLowers(s, p, env, plan, -need);
    }
  }

  /**
   * When every referenced pool is read by the count, a reconcile moves the warm count towards the target
   * and never past it, whatever else fails or is missing.
   */
  lemma NeverCrossesTarget(s: State, name: string, env: BufferEnv, plan: seq<PlanEntry>)
    requires name in s.policies && NoDuplicates(s.policies[name].pools) && Planned(s, name, env, plan)
    requires AllRead(s.policies[name].pools, env.gets.count)
    ensures var p := s.policies[name];
            var before, desired := CountWarm(s.pools, p.pools), DesiredWarm(p);
            var after := CountWarm(ReconcilePolicy(s, name, env, plan).pools, p.pools);
            && (before <= desired ==> before <= after <= desired)
            && (desired <= before ==> desired <= after <= before)
  {
    AnsweredAll(s.policies[name].pools, env.gets.count);
    MovesByTheGap(s, s.policies[name], env, plan);
  }

  /**
   * When some pools cannot be read, their warm nodes are not seen, and the target can be passed from below
   * by at most as many nodes as were not seen. From above it is never passed.
   */
  lemma PassesByTheUnseen(s: State, name: string, env: BufferEnv, plan: seq<PlanEntry>)
    requires name in s.policies && NoDuplicates(s.policies[name].pools) && Planned(s, name, env, plan)
    requires NaturalWarm(s.pools)
    ensures var p := s.policies[name];
            var before, seen, desired := CountWarm(s.pools, p.pools), SeenWarm(s, p, env), DesiredWarm(p);
            var after := CountWarm(ReconcilePolicy(s, name, env, plan).pools, p.pools);
            && seen <= before
            && (seen <= desired ==> before <= after <= desired + (before - seen))
            && (desired <= seen ==> desired <= after <= before)
  {
    MovesByTheGap(s, s.policies[name], env, plan);
    SeenAtMost(s.pools, s.policies[name].pools, env.gets.count);
  }

  /**
   * When the pools seen are below the target, one pass reaches it if and only if the nodes planned for the
   * pools that go smoothly make up the difference. When all pools were seen, that is so if and only if
   * the pools that could be viewed have the capacity and every planned pool goes smoothly.
   */
  lemma ReachesTargetIff(s: State, name: string, env: BufferEnv, plan: seq<PlanEntry>)
    requires name in s.policies && NoDuplicates(s.policies[name].pools) && Planned(s, name, env, plan)
    requires SeenWarm(s, s.policies[name], env) < DesiredWarm(s.policies[name])
    ensures var p := s.policies[name];
            var before, desired := CountWarm(s.pools, p.pools), DesiredWarm(p);
            var after := CountWarm(ReconcilePolicy(s, name, env, plan).pools, p.pools);
            && (after == desired <==> SmoothEntries(s, plan, env) == desired - before)
            && (AllRead(p.pools, env.gets.count) ==>
                  (after == desired <==> desired - before <= TotalCap(Views(s, p, env)) && AllSmooth(s, plan, env)))
  {
    var p := s.policies[name];
    PlanOf(s, p, env, plan);
    ProvisionAllGains(s, p.pools, plan, env);
    SmoothBounds(s, p.pools, plan, env);
    if AllRead(p.pools, env.gets.count) {
      AnsweredAll(p.pools, env.gets.count);
    }
  }

  /** Nothing but the policies' status differs. */
  ghost predicate OnlyStatus(t: State, u: State, name: string) {
    && name in t.policies && name in u.policies && u == t.(policies := u.policies)
    && u.policies[name].pools == t.policies[name].pools && DesiredWarm(u.policies[name]) == DesiredWarm(t.policies[name])
  }

  /** A pass keeps what the policy refers to and wants. */
  lemma PassKeepsPolicy(s: State, name: string, env: BufferEnv, plan: seq<PlanEntry>)
    requires name in s.policies
    ensures var t := ReconcilePolicy(s, name, env, plan);
            && name in t.policies && t.policies[name].pools == s.policies[name].pools
            && DesiredWarm(t.policies[name]) == DesiredWarm(s.policies[name])
  {
    RebalanceKeepsPolicies(s, s.policies[name], env, plan);
  }

  /**
   * Once a pass has reached the target, a next one whose count reads every pool changes no pool, no node
   * and no release.
   */
  lemma SecondPassIsIdle(s: State, name: string, env: BufferEnv, plan: seq<PlanEntry>, env': BufferEnv,
                         plan': seq<PlanEntry>)
    requires name in s.policies && AllRead(s.policies[name].pools, env'.gets.count)
    requires var p := s.policies[name];
             CountWarm(ReconcilePolicy(s, name, env, plan).pools, p.pools) == DesiredWarm(p)
    ensures var t := ReconcilePolicy(s, name, env, plan);
            OnlyStatus(t, ReconcilePolicy(t, name, env', plan'), name)
  {
    var t := ReconcilePolicy(s, name, env, plan);
    PassKeepsPolicy(s, name, env, plan);
    AtTargetIsIdle(t, name, env', plan');
  }

  lemma AtTargetIsIdle(t: State, name: string, env: BufferEnv, plan: seq<PlanEntry>)
    requires name in t.policies && AllRead(t.policies[name].pools, env.gets.count)
    requires CountWarm(t.pools, t.policies[name].pools) == DesiredWarm(t.policies[name])
    ensures OnlyStatus(t, ReconcilePolicy(t, name, env, plan), name)
  {
    AnsweredAll(t.policies[name].pools, env.gets.count);
  }

  lemma {:induction false} ProvisionAllKeepsPolicies(s: State, plan: seq<PlanEntry>, env: BufferEnv)
    ensures ProvisionAll(s, plan, env).policies == s.policies
    decreases |plan|
  {
    if plan != [] {
      ProvisionAllKeepsPolicies(ProvisionPool(s, plan[0].poolName, plan[0].nodeCount, env.pool(plan[0].poolName)), plan[1..], env);
    }
  }

  lemma {:induction false} ScaleDownKeepsPolicies(s: State, refs: seq<string>, excess: int, window: int, env: BufferEnv)
    ensures ScaleDown(s, refs, excess, window, env).s.policies == s.policies
    decreases |refs|
  {
    if refs != [] {
      var r := ScaleDownPool(s, refs[0], excess, window, env);
      if !r.failed {
        ScaleDownKeepsPolicies(r.s, refs[1..], r.excess, window, env);
      }
    }
  }

  lemma RebalanceKeepsPolicies(s: State, p: Policy, env: BufferEnv, plan: seq<PlanEntry>)
    ensures Rebalance(s, p, env, plan).policies == s.policies
  {
    ProvisionAllKeepsPolicies(s, plan, env);
    ScaleDownKeepsPolicies(s, Answered(p.pools, env.gets.scaleDown), -Need(s, p, env), Window(p.stabilization), env);
  }

  // ---------- Limits ----------

  /** The limits that hold after a step raised a pool's node count. */
  ghost predicate WithinLimits(before: Pool, after: Pool) {
    && after.counts.Total() <= (if before.counts.Total() > after.spec.limits.maxNodes
                                then before.counts.Total() else after.spec.limits.maxNodes)
    && (after.counts.Total() > before.counts.Total() && after.spec.limits.maxHourlyUSD > 0.0 ==>
          Price(after) * after.counts.Total() as real <= after.spec.limits.maxHourlyUSD)
  }

  /** Either the pool did not change its count upwards, or it stayed within its limits. */
  ghost predicate PoolStepOk(s: State, t: State) {
    s.pools.Keys == t.pools.Keys
    && forall n :: n in s.pools ==> t.pools[n].counts.Total() <= s.pools[n].counts.Total() || WithinLimits(s.pools[n], t.pools[n])
  }

  lemma ProvisionLimits(s: State, name: string, count: int, f: PoolFaults, now: Instant)
    requires name in s.pools && 1 <= count <= EffectiveCap(ViewOf(name, s.pools[name], now))
    ensures var t := ProvisionPool(s, name, count, f);
            name in t.pools && (t.pools[name] == s.pools[name] || WithinLimits(s.pools[name], t.pools[name]))
  {
    ProvisionEffect(s, name, count, f);
  }

  /** What provisioning does to a pool depends only on that pool and the nodes. */
  lemma ProvisionIsLocal(s: State, t: State, name: string, count: int, f: PoolFaults)
    requires name in s.pools && name in t.pools && s.pools[name] == t.pools[name] && s.nodes == t.nodes
    ensures name in ProvisionPool(s, name, count, f).pools && name in ProvisionPool(t, name, count, f).pools
    ensures ProvisionPool(s, name, count, f).pools[name] == ProvisionPool(t, name, count, f).pools[name]
  {
  }

  lemma ProvisionElsewhere(s: State, name: string, count: int, f: PoolFaults)
    ensures var t := ProvisionPool(s, name, count, f);
            t.nodes == s.nodes && t.pools.Keys == s.pools.Keys
            && forall n :: n in s.pools && n != name ==> t.pools[n] == s.pools[n]
  {
  }

  /** Each planned pool ends as if it alone had been provisioned; the others do not change. */
  lemma {:induction false} ProvisionAllAt(s: State, plan: seq<PlanEntry>, env: BufferEnv, n: string)
    requires forall i, j :: 0 <= i < j < |plan| ==> plan[i].poolName != plan[j].poolName
    requires n in s.pools
    ensures var t := ProvisionAll(s, plan, env);
            && t.pools.Keys == s.pools.Keys && t.nodes == s.nodes
            && (t.pools[n] == s.pools[n]
                || exists i :: 0 <= i < |plan| && plan[i].poolName == n
                            && n in ProvisionPool(s, n, plan[i].nodeCount, env.pool(n)).pools
                            && t.pools[n] == ProvisionPool(s, n, plan[i].nodeCount, env.pool(n)).pools[n])
    ensures (forall i :: 0 <= i < |plan| ==> plan[i].poolName != n) ==> ProvisionAll(s, plan, env).pools[n] == s.pools[n]
    decreases |plan|
  {
    if plan != [] {
      var e, rest := plan[0], plan[1..];
      var u := ProvisionPool(s, e.poolName, e.nodeCount, env.pool(e.poolName));
      ProvisionElsewhere(s, e.poolName, e.nodeCount, env.pool(e.poolName));
      ProvisionAllAt(u, rest, env, n);
      assert forall i :: 0 <= i < |rest| ==> rest[i] == plan[i + 1];
      if e.poolName == n {
        assert plan[0].poolName == n;
      } else if i :| 0 <= i < |rest| && rest[i].poolName == n {
        ProvisionIsLocal(s, u, n, rest[i].nodeCount, env.pool(n));
        var t := ProvisionAll(s, plan, env);
        if t.pools[n] != s.pools[n] {
          var j :| 0 <= j < |rest| && rest[j].poolName == n
                && t.pools[n] == ProvisionPool(u, n, rest[j].nodeCount, env.pool(n)).pools[n];
          assert i == j && plan[j + 1].poolName == n;
        }
      }
    }
  }

  lemma {:induction false} ProvisionAllKeys(s: State, plan: seq<PlanEntry>, env: BufferEnv)
    ensures ProvisionAll(s, plan, env).pools.Keys == s.pools.Keys
    decreases |plan|
  {
    if plan != [] {
      var e := plan[0];
      ProvisionElsewhere(s, e.poolName, e.nodeCount, env.pool(e.poolName));
      ProvisionAllKeys(ProvisionPool(s, e.poolName, e.nodeCount, env.pool(e.poolName)), plan[1..], env);
    }
  }

  lemma {:induction false} ScaleDownLowers(s: State, refs: seq<string>, excess: int, window: int, env: BufferEnv)
    requires excess >= 0
    ensures var t := ScaleDown(s, refs, excess, window, env).s;
            t.pools.Keys == s.pools.Keys
            && forall n :: n in s.pools ==> t.pools[n].counts.Total() <= s.pools[n].counts.Total()
    decreases |refs|
  {
    if refs != [] {
      if refs[0] in s.pools {
        DrainSpends(Drain(s.pools[refs[0]], s.nodes, excess, false, s.releases), refs[0], 0, window, env);
      }
      var r := ScaleDownPool(s, refs[0], excess, window, env);
      if !r.failed {
        ScaleDownLowers(r.s, refs[1..], r.excess, window, env);
      }
    }
  }

  /**
   * In any stored state, a buffer reconcile raises no pool above max(its count, MaxNodes), and where
   * it raises a pool with a spend ceiling, price times count stays within the ceiling.
   */
  lemma LimitsHold(s: State, name: string, env: BufferEnv, plan: seq<PlanEntry>)
    requires name in s.policies ==> NoDuplicates(s.policies[name].pools)
    requires Planned(s, name, env, plan)
    ensures PoolStepOk(s, ReconcilePolicy(s, name, env, plan))
  {
    if name in s.policies {
      var p := s.policies[name];
      var need := Need(s, p, env);
      if need > 0 {
        AnsweredAmong(p.pools, env.gets.views);
        PlanRefers(s, Answered(p.pools, env.gets.views), env.now, need, plan);
        forall n | n in s.pools
          ensures var t := ProvisionAll(s, plan, env);
                  n in t.pools && (t.pools[n] == s.pools[n] || WithinLimits(s.pools[n], t.pools[n]))
        {
          ProvisionAllAt(s, plan, env, n);
          forall i | 0 <= i < |plan| && plan[i].poolName == n
            ensures var t := ProvisionPool(s, n, plan[i].nodeCount, env.pool(n));
                    n in t.pools && (t.pools[n] == s.pools[n] || WithinLimits(s.pools[n], t.pools[n]))
          {
            ProvisionLimits(s, n, plan[i].nodeCount, env.pool(n), env.now);
          }
        }
        ProvisionAllKeys(s, plan, env);
      } else if need < 0 {
        ScaleDownLowers(s, Answered(p.pools, env.gets.scaleDown), -need, Window(p.stabilization), env);
      }
    }
  }

  /** If the count was raised and there is a ceiling, price times count is within it. */
  ghost predicate CeilingKept(before: Pool, after: Pool) {
    after.counts.Total() > before.counts.Total() && after.spec.limits.maxHourlyUSD > 0.0 ==>
      Price(after) * after.counts.Total() as real <= after.spec.limits.maxHourlyUSD
  }

  /** Provisioning lowers no count and keeps the ceiling. */
  ghost predicate RaisedWithin(before: Pool, after: Pool) {
    && after.spec == before.spec && after.observed == before.observed
    && before.counts.Total() <= after.counts.Total() && CeilingKept(before, after)
  }

  lemma {:induction false} ProvisionAllWithinCeiling(s: State, plan: seq<PlanEntry>, env: BufferEnv, n: string)
    requires n in s.pools && forall i :: 0 <= i < |plan| ==> plan[i].nodeCount >= 0
    ensures n in ProvisionAll(s, plan, env).pools && RaisedWithin(s.pools[n], ProvisionAll(s, plan, env).pools[n])
    decreases |plan|
  {
    if plan != [] {
      var e := plan[0];
      ProvisionEffect(s, e.poolName, e.nodeCount, env.pool(e.poolName));
      var t := ProvisionPool(s, e.poolName, e.nodeCount, env.pool(e.poolName));
      ProvisionAllWithinCeiling(t, plan[1..], env, n);
    }
  }

  /**
   * The spend ceiling needs no distinct references: it is checked against the stored pool before every
   * provisioning, so a raised pool stays within it whatever the policy refers to.
   */
  lemma CeilingHolds(s: State, name: string, env: BufferEnv, plan: seq<PlanEntry>, n: string)
    requires Planned(s, name, env, plan) && n in s.pools
    ensures var t := ReconcilePolicy(s, name, env, plan);
            n in t.pools && CeilingKept(s.pools[n], t.pools[n])
  {
    if name in s.policies {
      var p := s.policies[name];
      var need := Need(s, p, env);
      if need > 0 {
        PlanIsPositive(s, p, env, plan);
        ProvisionAllWithinCeiling(s, plan, env, n);
      } else if need < 0 {
        ScaleDownLowers(s, Answered(p.pools, env.gets.scaleDown), -need, Window(p.stabilization), env);
      }
    }
  }

  // ---------- Draining to the target ----------

  /** The candidates among the records i, ..., k - 1: each costs the pass one unit of excess. */
  function CandidatesBetween(recs: seq<NodeRecord>, i: nat, k: nat, window: int, now: Instant): (n: nat)
    requires i <= k <= |recs|
    ensures n <= k - i
    decreases k - i
  {
    if i == k then 0 else CandidatesBetween(recs, i + 1, k, window, now) + if Candidate(recs[i], window, now) then 1 else 0
  }

  lemma {:induction false} BetweenAgrees(a: seq<NodeRecord>, b: seq<NodeRecord>, i: nat, k: nat, window: int, now: Instant)
    requires i <= k <= |a| == |b| && forall j :: i <= j < k ==> a[j] == b[j]
    ensures CandidatesBetween(a, i, k, window, now) == CandidatesBetween(b, i, k, window, now)
    decreases k - i
  {
    if i < k {
      BetweenAgrees(a, b, i + 1, k, window, now);
    }
  }

  /** Record k is a candidate, and the candidates before it leave some excess. */
  ghost predicate PaidFor(recs: seq<NodeRecord>, i: nat, k: nat, excess: int, window: int, now: Instant) {
    i <= k < |recs| && Candidate(recs[k], window, now) && CandidatesBetween(recs, i, k, window, now) < excess
  }

  /** Draining the record takes its node out. */
  predicate Drainable(rec: NodeRecord, name: string, k: nat, names: set<string>, env: BufferEnv) {
    rec.nodeName != "" && rec.nodeName in names && env.drain(name, k) == NoFault
  }

  /** All records that the excess pays for are drained. */
  ghost predicate PoolSettles(recs: seq<NodeRecord>, name: string, i: nat, excess: int, names: set<string>, window: int,
                              env: BufferEnv) {
    forall k: nat :: PaidFor(recs, i, k, excess, window, env.now) ==> Drainable(recs[k], name, k, names, env)
  }

  function Less(excess: int, n: nat): int {
    if excess <= n then 0 else excess - n
  }

  /** What is left of the excess after a pool. */
  function Left(s: State, name: string, excess: int, window: int, now: Instant): int {
    if name in s.pools
    then Less(excess, CandidatesBetween(s.pools[name].records, 0, |s.pools[name].records|, window, now))
    else excess
  }

  /** Whether a first record settles, and the others with what it leaves. */
  lemma PoolSettlesHead(recs: seq<NodeRecord>, after: seq<NodeRecord>, name: string, i: nat, excess: int,
                        names: set<string>, window: int, env: BufferEnv)
    requires i < |recs| == |after| && excess > 0 && forall j :: i < j < |recs| ==> after[j] == recs[j]
    ensures var cost := if Candidate(recs[i], window, env.now) then 1 else 0;
            PoolSettles(recs, name, i, excess, names, window, env)
            <==> (cost == 1 ==> Drainable(recs[i], name, i, names, env))
                 && PoolSettles(after, name, i + 1, excess - cost, names, window, env)
  {
    var cost := if Candidate(recs[i], window, env.now) then 1 else 0;
    forall k | i < k < |recs|
      ensures PaidFor(recs, i, k, excess, window, env.now) <==> PaidFor(after, i + 1, k, excess - cost, window, env.now)
    {
      BetweenAgrees(recs, after, i + 1, k, window, env.now);
    }
    assert PaidFor(recs, i, i, excess, window, env.now) <==> cost == 1;
  }

  lemma OneDrained(d: Drain, name: string, i: nat, window: int, env: BufferEnv)
    requires i < |d.pool.records| && !d.failed
    ensures var m := DrainAndRelease(d, name, i, window, env);
            var drop := d.pool.counts.buffered - m.pool.counts.buffered;
            && (!m.failed && drop == 1 <==> Drainable(d.pool.records[i], name, i, d.nodes.Keys, env))
            && 0 <= drop <= 1 && m.excess == d.excess && m.nodes.Keys == d.nodes.Keys
            && forall j :: i < j < |d.pool.records| ==> m.pool.records[j] == d.pool.records[j]
  {
  }

  /** A drain spends its excess well and does not fail if and only if all it pays for is drained. */
  lemma {:induction false} DrainSettlesIff(d: Drain, name: string, i: nat, window: int, env: BufferEnv)
    requires d.excess >= 0 && !d.failed && i <= |d.pool.records|
    ensures var e := DrainFrom(d, name, i, window, env);
            && (!e.failed && d.pool.counts.buffered - e.pool.counts.buffered == d.excess - e.excess
                <==> PoolSettles(d.pool.records, name, i, d.excess, d.nodes.Keys, window, env))
            && (!e.failed ==>
                  && e.nodes.Keys == d.nodes.Keys
                  && e.excess == Less(d.excess, CandidatesBetween(d.pool.records, i, |d.pool.records|, window, env.now)))
    decreases |d.pool.records| - i
  {
    var recs := d.pool.records;
    if i < |recs| && d.excess > 0 {
      if !Candidate(recs[i], window, env.now) {
        PoolSettlesHead(recs, recs, name, i, d.excess, d.nodes.Keys, window, env);
        DrainSettlesIff(d, name, i + 1, window, env);
      } else {
        var m := DrainAndRelease(d, name, i, window, env);
        var next := m.(excess := m.excess - 1);
        OneDrained(d, name, i, window, env);
        PoolSettlesHead(recs, next.pool.records, name, i, d.excess, d.nodes.Keys, window, env);
        if !m.failed {
          BetweenAgrees(recs, next.pool.records, i + 1, |recs|, window, env.now);
          DrainSettlesIff(next, name, i + 1, window, env);
          DrainSpends(next, name, i + 1, window, env);
        }
      }
    }
  }

  /** The pools in turn settle until the excess is used up. */
  ghost predicate Settles(s: State, refs: seq<string>, excess: int, window: int, env: BufferEnv)
    decreases |refs|
  {
    excess <= 0
    || (refs != []
        && (refs[0] in s.pools ==>
              PoolSettles(s.pools[refs[0]].records, refs[0], 0, excess, s.nodes.Keys, window, env)
              && env.pool(refs[0]).updateOk)
        && Settles(s, refs[1..], Left(s, refs[0], excess, window, env.now), window, env))
  }

  /** The states agree on these pools and on which nodes there are. */
  ghost predicate Alike(s: State, t: State, refs: seq<string>) {
    && s.nodes.Keys == t.nodes.Keys
    && forall i :: 0 <= i < |refs| ==>
         (refs[i] in s.pools <==> refs[i] in t.pools) && (refs[i] in s.pools ==> s.pools[refs[i]] == t.pools[refs[i]])
  }

  lemma AlikeTail(s: State, t: State, refs: seq<string>)
    requires refs != [] && Alike(s, t, refs)
    ensures Alike(s, t, refs[1..])
  {
    assert forall i :: 0 <= i < |refs[1..]| ==> refs[1..][i] == refs[i + 1];
  }

  lemma {:induction false} SettlesAlike(s: State, t: State, refs: seq<string>, excess: int, window: int, env: BufferEnv)
    requires Alike(s, t, refs)
    ensures Settles(s, refs, excess, window, env) <==> Settles(t, refs, excess, window, env)
    decreases |refs|
  {
    if refs != [] {
      AlikeTail(s, t, refs);
      SettlesAlike(s, t, refs[1..], Left(s, refs[0], excess, window, env.now), window, env);
    }
  }

  /** One pool: it gives up all that is spent on it if and only if it settles; the later pools are as before. */
  lemma PoolPassSettlesIff(s: State, refs: seq<string>, name: string, excess: int, window: int, env: BufferEnv)
    requires NoDuplicates(refs) && name in refs && name in s.pools && excess > 0
    ensures var r := ScaleDownPool(s, name, excess, window, env);
            && (!r.failed && CountWarm(s.pools, refs) - CountWarm(r.s.pools, refs) == excess - r.excess
                <==> PoolSettles(s.pools[name].records, name, 0, excess, s.nodes.Keys, window, env)
                     && env.pool(name).updateOk)
            && (r.failed ==> CountWarm(r.s.pools, refs) == CountWarm(s.pools, refs))
            && (!r.failed ==> r.excess == Left(s, name, excess, window, env.now) && r.s.nodes.Keys == s.nodes.Keys)
  {
    var d := Drain(s.pools[name], s.nodes, excess, false, s.releases);
    DrainSettlesIff(d, name, 0, window, env);
    DrainSpends(d, name, 0, window, env);
    WarmAfterUpdate(s.pools, refs, name, DrainFrom(d, name, 0, window, env).pool);
  }

  lemma {:induction false} ScaleDownSettlesIff(s: State, refs: seq<string>, rest: seq<string>, excess: int,
                                               window: int, env: BufferEnv)
    requires NoDuplicates(refs) && NoDuplicates(rest) && forall i :: 0 <= i < |rest| ==> rest[i] in refs
    requires excess >= 0
    ensures CountWarm(s.pools, refs) - CountWarm(ScaleDown(s, rest, excess, window, env).s.pools, refs) == excess
        <==> Settles(s, rest, excess, window, env)
    decreases |rest|
  {
    ScaleDownBounds(s, refs, rest, excess, window, env);
    if excess > 0 && rest != [] {
      var name, tail := rest[0], rest[1..];
      var r := ScaleDownPool(s, name, excess, window, env);
      assert forall i :: 0 <= i < |tail| ==> tail[i] == rest[i + 1];
      ScaleDownPoolBounds(s, refs, name, excess, window, env);
      if name in s.pools {
        PoolPassSettlesIff(s, refs, name, excess, window, env);
      }
      if !r.failed {
        ScaleDownBounds(r.s, refs, tail, r.excess, window, env);
        ScaleDownSettlesIff(r.s, refs, tail, r.excess, window, env);
        SettlesAlike(s, r.s, tail, r.excess, window, env);
      }
    }
  }

  /** The pools settle that can be read, with the excess that was seen. */
  ghost predicate PassSettles(s: State, p: Policy, env: BufferEnv) {
    Settles(s, Answered(p.pools, env.gets.scaleDown), -Need(s, p, env), Window(p.stabilization), env)
  }

  lemma RebalanceSettlesIff(s: State, p: Policy, env: BufferEnv, plan: seq<PlanEntry>)
    requires NoDuplicates(p.pools) && Need(s, p, env) < 0
    ensures CountWarm(Rebalance(s, p, env, plan).pools, p.pools) == CountWarm(s.pools, p.pools) + Need(s, p, env)
        <==> PassSettles(s, p, env)
  {
    var excess := -Need(s, p, env);
    AnsweredAmong(p.pools, env.gets.scaleDown);
    ScaleDownSettlesIff(s, p.pools, Answered(p.pools, env.gets.scaleDown), excess, Window(p.stabilization), env);
  }

  /**
   * When the pools seen are above the target, one pass takes out the whole excess, and so reaches the target
   * if all pools were seen, if and only if the candidates suffice and every one that the excess pays
   * for is named, joined and drained without a fault, and no status update on the way fails.
   */
  lemma DrainsTheExcessIff(s: State, name: string, env: BufferEnv, plan: seq<PlanEntry>)
    requires name in s.policies && NoDuplicates(s.policies[name].pools)
    requires Need(s, s.policies[name], env) < 0
    ensures var p := s.policies[name];
            var before, after := CountWarm(s.pools, p.pools), CountWarm(ReconcilePolicy(s, name, env, plan).pools, p.pools);
            && (after == before + Need(s, p, env) <==> PassSettles(s, p, env))
            && (AllRead(p.pools, env.gets.count) ==> (after == DesiredWarm(p) <==> PassSettles(s, p, env)))
  {
    var p := s.policies[name];
    RebalanceSettlesIff(s, p, env, plan);
    if AllRead(p.pools, env.gets.count) {
      AnsweredAll(p.pools, env.gets.count);
    }
  }

  // ---------- A pass without faults ----------

  /** No drain of these pools' records and no status update fails. */
  ghost predicate Faultless(refs: seq<string>, env: BufferEnv) {
    forall i :: 0 <= i < |refs| ==> env.pool(refs[i]).updateOk && forall k: nat :: env.drain(refs[i], k) == NoFault
  }

  /** The nodes that the excess takes out of a pool: a candidate without a node costs excess all the same. */
  function Paid(recs: seq<NodeRecord>, i: nat, excess: int, names: set<string>, window: int, now: Instant): nat
    decreases |recs| - i
  {
    if i >= |recs| || excess <= 0 then 0
    else if !Candidate(recs[i], window, now) then Paid(recs, i + 1, excess, names, window, now)
    else
      Paid(recs, i + 1, excess - 1, names, window, now)
      + if recs[i].nodeName != "" && recs[i].nodeName in names then 1 else 0
  }

  function PaidAll(s: State, refs: seq<string>, excess: int, window: int, now: Instant): nat
    decreases |refs|
  {
    if refs == [] then 0
    else
      PaidAll(s, refs[1..], Left(s, refs[0], excess, window, now), window, now)
      + if refs[0] in s.pools then Paid(s.pools[refs[0]].records, 0, excess, s.nodes.Keys, window, now) else 0
  }

  lemma {:induction false} PaidAgrees(a: seq<NodeRecord>, b: seq<NodeRecord>, i: nat, excess: int, names: set<string>,
                                      window: int, now: Instant)
    requires |a| == |b| && forall j :: i <= j < |a| ==> a[j] == b[j]
    ensures Paid(a, i, excess, names, window, now) == Paid(b, i, excess, names, window, now)
    decreases |a| - i
  {
    if i < |a| {
      PaidAgrees(a, b, i + 1, excess, names, window, now);
      PaidAgrees(a, b, i + 1, excess - 1, names, window, now);
    }
  }

  lemma {:induction false} DrainPays(d: Drain, name: string, i: nat, window: int, env: BufferEnv)
    requires d.excess >= 0 && !d.failed && forall k: nat :: env.drain(name, k) == NoFault
    ensures var e := DrainFrom(d, name, i, window, env);
            && !e.failed && e.nodes.Keys == d.nodes.Keys
            && e.pool.counts.buffered
               == d.pool.counts.buffered - Paid(d.pool.records, i, d.excess, d.nodes.Keys, window, env.now)
    decreases |d.pool.records| - i
  {
    if i < |d.pool.records| && d.excess > 0 {
      if !Candidate(d.pool.records[i], window, env.now) {
        DrainPays(d, name, i + 1, window, env);
      } else {
        var m := DrainAndRelease(d, name, i, window, env);
        var next := m.(excess := m.excess - 1);
        PaidAgrees(d.pool.records, next.pool.records, i + 1, next.excess, d.nodes.Keys, window, env.now);
        DrainPays(next, name, i + 1, window, env);
      }
    }
  }

  lemma {:induction false} PaidAlike(s: State, t: State, refs: seq<string>, excess: int, window: int, now: Instant)
    requires Alike(s, t, refs)
    ensures PaidAll(s, refs, excess, window, now) == PaidAll(t, refs, excess, window, now)
    decreases |refs|
  {
    if refs != [] {
      AlikeTail(s, t, refs);
      PaidAlike(s, t, refs[1..], Left(s, refs[0], excess, window, now), window, now);
    }
  }

  lemma {:induction false} ScaleDownPays(s: State, refs: seq<string>, rest: seq<string>, excess: int, window: int,
                                         env: BufferEnv)
    requires NoDuplicates(refs) && NoDuplicates(rest) && forall i :: 0 <= i < |rest| ==> rest[i] in refs
    requires excess >= 0 && Faultless(rest, env)
    ensures CountWarm(ScaleDown(s, rest, excess, window, env).s.pools, refs)
         == CountWarm(s.pools, refs) - PaidAll(s, rest, excess, window, env.now)
    decreases |rest|
  {
    if rest != [] {
      var name, tail := rest[0], rest[1..];
      var r := ScaleDownPool(s, name, excess, window, env);
      assert forall i :: 0 <= i < |tail| ==> tail[i] == rest[i + 1];
      if name in s.pools {
        var d := Drain(s.pools[name], s.nodes, excess, false, s.releases);
        DrainPays(d, name, 0, window, env);
        DrainSpends(d, name, 0, window, env);
        DrainSettlesIff(d, name, 0, window, env);
        WarmAfterUpdate(s.pools, refs, name, DrainFrom(d, name, 0, window, env).pool);
      }
      ScaleDownPays(r.s, refs, tail, r.excess, window, env);
      PaidAlike(s, r.s, tail, r.excess, window, env.now);
    }
  }

  /** Above the target, a pass without faults takes out exactly the nodes that the excess pays for. */
  lemma DrainsTheExcess(s: State, name: string, env: BufferEnv, plan: seq<PlanEntry>)
    requires name in s.policies && NoDuplicates(s.policies[name].pools)
    requires SeenWarm(s, s.policies[name], env) > DesiredWarm(s.policies[name])
    requires Faultless(Answered(s.policies[name].pools, env.gets.scaleDown), env)
    ensures var p := s.policies[name];
            var refs, excess := Answered(p.pools, env.gets.scaleDown), SeenWarm(s, p, env) - DesiredWarm(p);
            CountWarm(ReconcilePolicy(s, name, env, plan).pools, p.pools)
            == CountWarm(s.pools, p.pools) - PaidAll(s, refs, excess, Window(p.stabilization), env.now)
  {
    var p := s.policies[name];
    AnsweredAmong(p.pools, env.gets.scaleDown);
    ScaleDownPays(s, p.pools, Answered(p.pools, env.gets.scaleDown), -Need(s, p, env), Window(p.stabilization), env);
  }

  /** When every candidate names a joined node, that is the excess, or all candidates if there are fewer. */
  lemma {:induction false} PaidOfJoined(recs: seq<NodeRecord>, i: nat, excess: int, names: set<string>, window: int,
                                        now: Instant)
    requires i <= |recs| && excess >= 0
    requires forall j :: i <= j < |recs| && Candidate(recs[j], window, now) ==>
               recs[j].nodeName != "" && recs[j].nodeName in names
    ensures var n := CandidatesBetween(recs, i, |recs|, window, now);
            Paid(recs, i, excess, names, window, now) == if n >= excess then excess else n
    decreases |recs| - i
  {
    if i < |recs| && excess > 0 {
      PaidOfJoined(recs, i + 1, if Candidate(recs[i], window, now) then excess - 1 else excess, names, window, now);
    }
  }

  // ---------- Launches that are forgotten ----------

  /**
   * Once the launch loop is entered, the stored pool holds the records of all started instances, and
   * counts them, if and only if none was started, or all were and the status update went through.
   */
  lemma LaunchesRecordedIff(s: State, name: string, count: int, f: PoolFaults)
    requires count >= 0 && name in s.pools && SpendAllowed(s.pools[name], count) && !AlreadyJoined(s, name, count, f)
    requires f.getOk && f.providerOk && f.quoteOk
    ensures var p, q := s.pools[name], ProvisionPool(s, name, count, f).pools[name];
            var started := RecordsOf(name, 0, count, f.launch);
            var known := started == [] || (|started| == count && f.updateOk);
            && (q.records == p.records + started <==> known)
            && (q.counts.provisioning == p.counts.provisioning + |started| <==> known)
  {
    RecordsOfAll(name, 0, count, f.launch);
    ProvisionEffect(s, name, count, f);
  }
}
