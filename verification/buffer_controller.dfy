/** The buffer controller: keep the warm count at its target by provisioning or draining. */
module BufferController {
  import opened Cluster
  import opened Greedy

  // ---------- What the outside world answers ----------

  datatype Handle = Handle(providerID: string, nodeName: string, launchedAt: Instant)

  datatype Launch = Launched(handle: Handle) | OutOfCapacity | LaunchFailed

  /** Answers met while one pool is provisioned; launch(i) answers the i-th Provision call. */
  datatype PoolFaults = PoolFaults(getOk: bool, listOk: bool, providerOk: bool, quoteOk: bool, launch: nat -> Launch,
                                   updateOk: bool)

  /** Which of a policy's references, by position, can be read: when counting, for the views, and so on. */
  datatype Gets = Gets(count: nat -> bool, views: nat -> bool, scaleDown: nat -> bool, recount: nat -> bool)

  /** Where, if anywhere, draining one record fails. */
  datatype DrainFault = NoFault | GetFails | CordonFails | ProviderFails | ReleaseFails

  /** drain(p, i) is the fate of the i-th record of pool p. */
  datatype BufferEnv = BufferEnv(now: Instant, gets: Gets, pool: string -> PoolFaults,
                                 drain: (string, nat) -> DrainFault, statusOk: bool)

  /** How provisioning a pool ended. */
  datatype Outcome = Done | Ice | Failed

  // ---------- Specification: measuring ----------

  /** The references that were read; every loop over the references passes over the others. */
  function Answered(refs: seq<string>, got: nat -> bool): seq<string> {
    if refs == [] then []
    else
      var last := |refs| - 1;
      Answered(refs[..last], got) + if got(last) then [refs[last]] else []
  }

  function WarmOf(pools: map<string, Pool>, name: string): int {
    if name in pools then pools[name].counts.Warm() else 0
  }

  function CountWarm(pools: map<string, Pool>, refs: seq<string>): int
    decreases |refs|
  {
    if refs == [] then 0 else WarmOf(pools, refs[0]) + CountWarm(pools, refs[1..])
  }

  function DesiredWarm(p: Policy): int {
    var t := p.target;
    if t.dynamicMode && t.hasDynamic then
      var base := t.minWarm + if p.demand > 0.0 && t.k > 0.0 then (t.k * p.demand).Floor else 0;
      if base > t.maxWarm then t.maxWarm else if base < t.minWarm then t.minWarm else base
    else if t.minWarm > 0 then t.minWarm
    else 0
  }

  function ViewOf(name: string, p: Pool, now: Instant): PoolView {
    PoolView(name, p.spec.priority, p.observed.hourlyUSD,
             if p.observed.lastICE > now - 15 * MINUTE then 2.0 else 1.0,
             p.spec.limits.maxNodes, p.counts.Total(), p.observed.available)
  }

  function BuildViews(pools: map<string, Pool>, refs: seq<string>, now: Instant): seq<PoolView>
    decreases |refs|
  {
    if refs == [] then []
    else (if refs[0] in pools then [ViewOf(refs[0], pools[refs[0]], now)] else []) + BuildViews(pools, refs[1..], now)
  }

  // ---------- Specification: provisioning ----------

  function Price(p: Pool): real {
    if p.observed.hourlyUSD <= 0.0 then 1.0 else p.observed.hourlyUSD
  }

  predicate SpendAllowed(p: Pool, add: int) {
    p.spec.limits.maxHourlyUSD <= 0.0
    || Price(p) * (p.counts.Total() + add) as real <= p.spec.limits.maxHourlyUSD
  }

  function Recorded(p: Pool, name: string, h: Handle): Pool {
    p.(records := p.records + [NodeRecord(h.providerID, h.nodeName, Provisioning, h.launchedAt, name)],
       counts := p.counts.(provisioning := p.counts.provisioning + 1))
  }

  /** The launches from the i-th on; they stop at the first failure. */
  function LaunchFrom(p: Pool, name: string, i: nat, count: int, launch: nat -> Launch): (Pool, Outcome)
    decreases count - i
  {
    if i >= count then (p, Done)
    else
      match launch(i)
      case Launched(h) => LaunchFrom(Recorded(p, name, h), name, i + 1, count, launch)
      case OutOfCapacity => (p, Ice)
      case LaunchFailed => (p, Failed)
  }

  predicate AlreadyJoined(s: State, name: string, count: int, f: PoolFaults)
    requires name in s.pools
  {
    s.pools[name].spec.isStatic && f.listOk && |Listed(s.nodes, name)| >= count
  }

  /** A pool is stored only after all its launches succeeded. */
  function ProvisionPool(s: State, name: string, count: int, f: PoolFaults): State {
    if name !in s.pools || !f.getOk || !SpendAllowed(s.pools[name], count) || AlreadyJoined(s, name, count, f)
       || !f.providerOk || !f.quoteOk then s
    else
      var (p, outcome) := LaunchFrom(s.pools[name], name, 0, count, f.launch);
      if outcome == Done && f.updateOk then WithPool(s, name, p) else s
  }

  /** How that ended: a static pool with enough nodes needs nothing, and every failure is reported. */
  function ProvisionOutcome(s: State, name: string, count: int, f: PoolFaults): Outcome {
    if name !in s.pools || !f.getOk || !SpendAllowed(s.pools[name], count) then Failed
    else if AlreadyJoined(s, name, count, f) then Done
    else if !f.providerOk || !f.quoteOk then Failed
    else
      var (_, outcome) := LaunchFrom(s.pools[name], name, 0, count, f.launch);
      if outcome != Done then outcome else if f.updateOk then Done else Failed
  }

  function ProvisionAll(s: State, plan: seq<PlanEntry>, env: BufferEnv): State
    decreases |plan|
  {
    if plan == [] then s
    else
      var e := plan[0];
      ProvisionAll(ProvisionPool(s, e.poolName, e.nodeCount, env.pool(e.poolName)), plan[1..], env)
  }

  // ---------- Specification: draining ----------

  /** A pool's working copy, the nodes, and the excess still to be drained. */
  datatype Drain = Drain(pool: Pool, nodes: map<string, Node>, excess: int, failed: bool, releases: seq<Release>)

  function Cordon(nodes: map<string, Node>, name: string): map<string, Node>
    requires name in nodes
  {
    nodes[name := nodes[name].(unschedulable := true)]
  }

  function Window(t: DurationText): int {
    match t
    case Written(d) => d
    case _ => 10 * MINUTE
  }

  predicate Candidate(rec: NodeRecord, window: int, now: Instant) {
    rec.state == Buffered && rec.launchedAt + window <= now
  }

  /** Cordon, drain and release one record. */
  function DrainAndRelease(d: Drain, name: string, i: nat, window: int, env: BufferEnv): (r: Drain)
    requires i < |d.pool.records|
    ensures |r.pool.records| == |d.pool.records|
  {
    var rec := d.pool.records[i];
    var fault := env.drain(name, i);
    if rec.nodeName == "" then d
    else if fault == GetFails then d.(failed := true)
    else if rec.nodeName !in d.nodes then d
    else if fault == CordonFails then d.(failed := true)
    else
      var c := d.(nodes := Cordon(d.nodes, rec.nodeName));
      if fault == ProviderFails then c.(failed := true)
      else
        var call := c.(releases := c.releases + [Release(name, i, rec.launchedAt, env.now, window)]);
        if fault == ReleaseFails then call.(failed := true)
        else call.(pool := d.pool.(records := d.pool.records[i := rec.(state := Released)],
                                   counts := d.pool.counts.(buffered := d.pool.counts.buffered - 1)))
  }

  /** The loop over the records; the excess is spent on every candidate, released or not. */
  function DrainFrom(d: Drain, name: string, i: nat, window: int, env: BufferEnv): (r: Drain)
    ensures |r.pool.records| == |d.pool.records|
    decreases |d.pool.records| - i
  {
    if i >= |d.pool.records| || d.failed || d.excess <= 0 then d
    else if !Candidate(d.pool.records[i], window, env.now) then DrainFrom(d, name, i + 1, window, env)
    else
      var e := DrainAndRelease(d, name, i, window, env);
      if e.failed then e else DrainFrom(e.(excess := e.excess - 1), name, i + 1, window, env)
  }

  datatype Scaled = Scaled(s: State, excess: int, failed: bool)

  function ScaleDownPool(s: State, name: string, excess: int, window: int, env: BufferEnv): Scaled {
    if name !in s.pools then Scaled(s, excess, false)
    else
      var d := DrainFrom(Drain(s.pools[name], s.nodes, excess, false, s.releases), name, 0, window, env);
      var t := s.(nodes := d.nodes, releases := d.releases);
      if d.failed || !env.pool(name).updateOk then Scaled(t, d.excess, true)
      else Scaled(WithPool(t, name, d.pool), d.excess, false)
  }

  function ScaleDown(s: State, refs: seq<string>, excess: int, window: int, env: BufferEnv): Scaled
    decreases |refs|
  {
    if refs == [] then Scaled(s, excess, false)
    else
      var r := ScaleDownPool(s, refs[0], excess, window, env);
      if r.failed then r else ScaleDown(r.s, refs[1..], r.excess, window, env)
  }

  // ---------- Specification: one reconcile ----------

  /** The warm count as far as the pools could be read. */
  function SeenWarm(s: State, p: Policy, env: BufferEnv): int {
    CountWarm(s.pools, Answered(p.pools, env.gets.count))
  }

  function Need(s: State, p: Policy, env: BufferEnv): int {
    DesiredWarm(p) - SeenWarm(s, p, env)
  }

  function Views(s: State, p: Policy, env: BufferEnv): seq<PoolView> {
    BuildViews(s.pools, Answered(p.pools, env.gets.views), env.now)
  }

  function Rebalance(s: State, p: Policy, env: BufferEnv, plan: seq<PlanEntry>): State {
    var need := Need(s, p, env);
    if need > 0 then ProvisionAll(s, plan, env)
    else if need < 0 then ScaleDown(s, Answered(p.pools, env.gets.scaleDown), -need, Window(p.stabilization), env).s
    else s
  }

  function ReconcilePolicy(s: State, name: string, env: BufferEnv, plan: seq<PlanEntry>): State {
    if name !in s.policies then s
    else
      var p := s.policies[name];
      var t := Rebalance(s, p, env, plan);
      if env.statusOk then
        var warm := CountWarm(t.pools, Answered(p.pools, env.gets.recount));
        t.(policies := t.policies[name := p.(currentWarm := warm)])
      else t
  }

  /** The plan is one that the scheduler may return for this need and these views. */
  ghost predicate PlannedFor(s: State, p: Policy, env: BufferEnv, plan: seq<PlanEntry>) {
    Need(s, p, env) > 0 ==> IsPlan(plan, Need(s, p, env), Views(s, p, env))
  }

  ghost predicate Planned(s: State, name: string, env: BufferEnv, plan: seq<PlanEntry>) {
    name in s.policies ==> PlannedFor(s, s.policies[name], env, plan)
  }

  // ---------- The controller ----------

  class Reconciler {
    const store: Store

    constructor (store: Store)
      ensures this.store == store
    {
      this.store := store;
    }

    method CountWarmGPUs(refs: seq<string>, got: nat -> bool) returns (total: int)
      ensures total == CountWarm(store.pools, Answered(refs, got))
    {
      total := 0;
      for k := 0 to |refs|
        invariant total == CountWarm(store.pools, Answered(refs[..k], got))
      {
        AnsweredSnoc(refs, got, k);
        CountWarmSnoc(store.pools, Answered(refs[..k], got), refs[k]);
        if !got(k) || refs[k] !in store.pools {
          continue;
        }
        var counts := store.pools[refs[k]].counts;
        total := total + counts.buffered + counts.provisioning;
      }
      assert refs[..|refs|] == refs;
    }

    method BuildPoolViews(refs: seq<string>, got: nat -> bool, now: Instant) returns (views: seq<PoolView>)
      ensures views == BuildViews(store.pools, Answered(refs, got), now)
    {
      views := [];
      for k := 0 to |refs|
        invariant views == BuildViews(store.pools, Answered(refs[..k], got), now)
      {
        AnsweredSnoc(refs, got, k);
        BuildViewsSnoc(store.pools, Answered(refs[..k], got), refs[k], now);
        if !got(k) || refs[k] !in store.pools {
          continue;
        }
        var pool := store.pools[refs[k]];
        var penalty := 1.0;
        if pool.observed.lastICE > now - 15 * MINUTE {
          penalty := 2.0;
        }
        views := views + [PoolView(refs[k], pool.spec.priority, pool.observed.hourlyUSD, penalty,
                                   pool.spec.limits.maxNodes,
                                   pool.counts.active + pool.counts.buffered + pool.counts.provisioning,
                                   pool.observed.available)];
      }
      assert refs[..|refs|] == refs;
    }

    method Provision(name: string, count: int, f: PoolFaults) returns (err: Outcome)
      modifies store
      ensures store.View() == ProvisionPool(old(store.View()), name, count, f)
      ensures err == ProvisionOutcome(old(store.View()), name, count, f)
    {
      if name !in store.pools || !f.getOk {
        return Failed;
      }
      var pool := store.pools[name];
      if !SpendAllowed(pool, count) {
        return Failed;
      }
      if pool.spec.isStatic && f.listOk && |Listed(store.nodes, name)| >= count {
        return Done;
      }
      if !f.providerOk || !f.quoteOk {
        return Failed;
      }
      var i := 0;
      while i < count
        invariant 0 <= i
        invariant LaunchFrom(pool, name, i, count, f.launch) == LaunchFrom(store.pools[name], name, 0, count, f.launch)
        invariant store.View() == old(store.View())
      {
        match f.launch(i) {
          case Launched(h) =>
            pool := pool.(records := pool.records + [NodeRecord(h.providerID, h.nodeName, Provisioning, h.launchedAt, name)],
                          counts := pool.counts.(provisioning := pool.counts.provisioning + 1));
          case OutOfCapacity => return Ice;
          case LaunchFailed => return Failed;
        }
        i := i + 1;
      }
      if !f.updateOk {
        return Failed;
      }
      store.pools := store.pools[name := pool];
      return Done;
    }

    /** Goes through the plan; a pool that fails, for lack of capacity or otherwise, is only logged. */
    method ProvisionPlan(entries: seq<PlanEntry>, env: BufferEnv)
      modifies store
      ensures store.View() == ProvisionAll(old(store.View()), entries, env)
    {
      for k := 0 to |entries|
        invariant ProvisionAll(store.View(), entries[k..], env) == ProvisionAll(old(store.View()), entries, env)
      {
        assert entries[k..][1..] == entries[k + 1..];
        var _ := Provision(entries[k].poolName, entries[k].nodeCount, env.pool(entries[k].poolName));
      }
    }

    /** Returns the pool's working copy after one record was drained. */
    method DrainOne(pool: Pool, name: string, i: nat, window: int, env: BufferEnv, ghost excess: int)
      returns (p: Pool, failed: bool)
      requires i < |pool.records|
      modifies store`nodes, store`releases
      ensures DrainAndRelease(Drain(pool, old(store.nodes), excess, false, old(store.releases)), name, i, window, env)
           == Drain(p, store.nodes, excess, failed, store.releases)
    {
      var rec := pool.records[i];
      p, failed := pool, false;
      if rec.nodeName == "" {
        return;
      }
      var fault := env.drain(name, i);
      if fault == GetFails {
        return pool, true;
      }
      if rec.nodeName !in store.nodes {
        return;
      }
      if fault == CordonFails {
        return pool, true;
      }
      store.nodes := store.nodes[rec.nodeName := store.nodes[rec.nodeName].(unschedulable := true)];
      if fault == ProviderFails {
        return pool, true;
      }
      store.releases := store.releases + [Release(name, i, rec.launchedAt, env.now, window)];
      if fault == ReleaseFails {
        return pool, true;
      }
      p := pool.(records := pool.records[i := rec.(state := Released)],
                 counts := pool.counts.(buffered := pool.counts.buffered - 1));
    }

    /** Drains one pool's records while excess remains; the working copy is stored at the end. */
    method ScaleDownOne(name: string, excess0: int, window: int, env: BufferEnv) returns (excess: int, failed: bool)
      modifies store
      ensures Scaled(store.View(), excess, failed) == ScaleDownPool(old(store.View()), name, excess0, window, env)
    {
      excess, failed := excess0, false;
      if name !in store.pools {
        return;
      }
      var pool := store.pools[name];
      ghost var start := Drain(pool, store.nodes, excess, false, store.releases);
      var i := 0;
      while i < |pool.records|
        invariant 0 <= i <= |pool.records|
        invariant store.pools == old(store.pools) && store.policies == old(store.policies)
        invariant store.joined == old(store.joined) && store.xidReleases == old(store.xidReleases)
        invariant DrainFrom(Drain(pool, store.nodes, excess, false, store.releases), name, i, window, env)
               == DrainFrom(start, name, 0, window, env)
        decreases |pool.records| - i
      {
        if excess <= 0 {
          break;
        }
        var rec := pool.records[i];
        if rec.state != Buffered || rec.launchedAt + window > env.now {
          i := i + 1;
          continue;
        }
        pool, failed := DrainOne(pool, name, i, window, env, excess);
        if failed {
          return;
        }
        excess := excess - 1;
        i := i + 1;
      }
      if !env.pool(name).updateOk {
        failed := true;
        return;
      }
      store.pools := store.pools[name := pool];
    }

    method ScaleDownAll(refs: seq<string>, excess0: int, window: int, env: BufferEnv) returns (excess: int, failed: bool)
      modifies store
      ensures Scaled(store.View(), excess, failed)
           == ScaleDown(old(store.View()), Answered(refs, env.gets.scaleDown), excess0, window, env)
    {
      excess, failed := excess0, false;
      ghost var start, got := store.View(), env.gets.scaleDown;
      for k := 0 to |refs|
        invariant !failed
        invariant Scaled(store.View(), excess, false) == ScaleDown(start, Answered(refs[..k], got), excess0, window, env)
      {
        AnsweredSnoc(refs, got, k);
        AnsweredSplit(refs, got, k + 1);
        if env.gets.scaleDown(k) {
          ScaleDownConcat(start, Answered(refs[..k], got), [refs[k]], excess0, window, env);
          ScaleDownOnly(store.View(), refs[k], excess, window, env);
          excess, failed := ScaleDownOne(refs[k], excess, window, env);
          if failed {
            ghost var rest :| Answered(refs, got) == Answered(refs[..k + 1], got) + rest;
            ScaleDownConcat(start, Answered(refs[..k + 1], got), rest, excess0, window, env);
            return;
          }
        }
      }
      assert refs[..|refs|] == refs;
    }

    /** Provisions or drains, whichever the warm count as far as it was read asks for. */
    method RebalancePolicy(policy: Policy, env: BufferEnv) returns (ghost plan: seq<PlanEntry>)
      modifies store
      ensures PlannedFor(old(store.View()), policy, env, plan)
      ensures store.View() == Rebalance(old(store.View()), policy, env, plan)
    {
      ghost var start := store.View();
      var current := CountWarmGPUs(policy.pools, env.gets.count);
      var need := DesiredWarm(policy) - current;
      assert need == Need(start, policy, env);
      plan := [];
      if need > 0 {
        var views := BuildPoolViews(policy.pools, env.gets.views, env.now);
        var entries := Fill(need, views);
        plan := entries;
        assert PlannedFor(start, policy, env, plan);
        ProvisionPlan(entries, env);
        assert store.View() == ProvisionAll(start, plan, env);
      } else if need < 0 {
        var excess, failed := ScaleDownAll(policy.pools, -need, Window(policy.stabilization), env);
        assert Scaled(store.View(), excess, failed).s == store.View();
      }
    }

    /** One reconcile of a buffer policy. */
    method Reconcile(name: string, env: BufferEnv) returns (ghost plan: seq<PlanEntry>)
      modifies store
      ensures Planned(old(store.View()), name, env, plan)
      ensures store.View() == ReconcilePolicy(old(store.View()), name, env, plan)
    {
      if name !in store.policies {
        return [];
      }
      var policy := store.policies[name];
      plan := RebalancePolicy(policy, env);
      var warm := CountWarmGPUs(policy.pools, env.gets.recount);
      if env.statusOk {
        store.policies := store.policies[name := policy.(currentWarm := warm)];
      }
    }
  }

  // ---------- The loops over the references ----------

  lemma AnsweredSnoc(refs: seq<string>, got: nat -> bool, k: nat)
    requires k < |refs|
    ensures Answered(refs[..k + 1], got) == if got(k) then Answered(refs[..k], got) + [refs[k]] else Answered(refs[..k], got)
  {
    assert refs[..k + 1][..k] == refs[..k];
  }

  /** What is answered of a prefix is a prefix of what is answered. */
  lemma {:induction false} AnsweredSplit(refs: seq<string>, got: nat -> bool, k: nat)
    requires k <= |refs|
    ensures exists rest :: Answered(refs, got) == Answered(refs[..k], got) + rest
    decreases |refs| - k
  {
    if k == |refs| {
      assert refs[..k] == refs && Answered(refs, got) == Answered(refs[..k], got) + [];
    } else {
      AnsweredSplit(refs, got, k + 1);
      AnsweredSnoc(refs, got, k);
      var more := if got(k) then [refs[k]] else [];
      var rest :| Answered(refs, got) == Answered(refs[..k + 1], got) + rest;
      assert Answered(refs, got) == Answered(refs[..k], got) + (more + rest);
    }
  }

  lemma {:induction false} CountWarmSnoc(pools: map<string, Pool>, refs: seq<string>, ref: string)
    ensures CountWarm(pools, refs + [ref]) == CountWarm(pools, refs) + WarmOf(pools, ref)
    decreases |refs|
  {
    if refs == [] {
      assert [] + [ref] == [ref] && [ref][1..] == [];
    } else {
      CountWarmSnoc(pools, refs[1..], ref);
      assert (refs + [ref])[1..] == refs[1..] + [ref];
    }
  }

  lemma {:induction false} BuildViewsSnoc(pools: map<string, Pool>, refs: seq<string>, ref: string, now: Instant)
    ensures BuildViews(pools, refs + [ref], now)
         == BuildViews(pools, refs, now) + if ref in pools then [ViewOf(ref, pools[ref], now)] else []
    decreases |refs|
  {
    if refs == [] {
      assert [] + [ref] == [ref] && [ref][1..] == [];
    } else {
      BuildViewsSnoc(pools, refs[1..], ref, now);
      assert (refs + [ref])[1..] == refs[1..] + [ref];
    }
  }

  lemma ScaleDownOnly(s: State, name: string, excess: int, window: int, env: BufferEnv)
    ensures ScaleDown(s, [name], excess, window, env) == ScaleDownPool(s, name, excess, window, env)
  {
    assert [name][1..] == [];
  }

  lemma {:induction false} ScaleDownConcat(s: State, a: seq<string>, b: seq<string>, excess: int, window: int,
                                           env: BufferEnv)
    ensures var r := ScaleDown(s, a, excess, window, env);
            ScaleDown(s, a + b, excess, window, env) == if r.failed then r else ScaleDown(r.s, b, r.excess, window, env)
    decreases |a|
  {
    if a == [] {
      assert a + b == b;
    } else {
      var r := ScaleDownPool(s, a[0], excess, window, env);
      assert (a + b)[1..] == a[1..] + b;
      if !r.failed {
        ScaleDownConcat(r.s, a[1..], b, r.excess, window, env);
      }
    }
  }
}
