/** The three controllers and the cluster as one state machine: one step per reconcile or cluster event. */
module ControlLoop {
  import opened Cluster
  import opened PoolController
  import opened BufferController
  import opened HealthController
  import Greedy

  datatype Event =
    | PoolReconcile(pool: string, poolEnv: PoolEnv, order: seq<string>)
    | BufferReconcile(policy: string, bufferEnv: BufferEnv, plan: seq<Greedy.PlanEntry>)
    | HealthReconcile(node: string, healthEnv: HealthEnv)
    | NodeJoins(node: string, joining: Node)
    | NodeLeaves(node: string)
    | EligibilitySet(node: string, eligible: bool)
    | Cordoned(node: string)
    | Uncordoned(node: string)
    | XidReported(node: string)
    | NodeRelabelled(node: string, pool: string)
    | PoolCreated(pool: string, spec: PoolSpec)
    | PoolEdited(pool: string, spec: PoolSpec)
    | PolicyWritten(policy: string, written: Policy)

  /** Node names are never reused, and the oracles of a reconcile fit the state it runs in. */
  ghost predicate Enabled(s: State, e: Event) {
    match e
    case PoolReconcile(pool, _, order) =>
      pool in s.pools ==> Enumerates(order, s.pools[pool].records, Listed(s.nodes, pool))
    case BufferReconcile(policy, env, plan) => Planned(s, policy, env, plan)
    case NodeJoins(node, _) => node != "" && node !in s.joined
    case PoolCreated(pool, _) => pool !in s.pools
    case _ => true
  }

  function WithNode(s: State, name: string, n: Node): State {
    s.(nodes := s.nodes[name := n])
  }

  function Apply(s: State, e: Event): State {
    match e
    case PoolReconcile(pool, env, order) => ReconcilePool(s, pool, env, order)
    case BufferReconcile(policy, env, plan) => ReconcilePolicy(s, policy, env, plan)
    case HealthReconcile(node, env) => ReconcileNode(s, node, env)
    case NodeJoins(node, n) => WithNode(s, node, n).(joined := s.joined + {node})
    case NodeLeaves(node) => s.(nodes := s.nodes - {node})
    case EligibilitySet(node, b) => if node in s.nodes then WithNode(s, node, s.nodes[node].(eligible := b)) else s
    case Cordoned(node) => if node in s.nodes then WithNode(s, node, s.nodes[node].(unschedulable := true)) else s
    case Uncordoned(node) => if node in s.nodes then WithNode(s, node, s.nodes[node].(unschedulable := false)) else s
    case XidReported(node) => if node in s.nodes then WithNode(s, node, s.nodes[node].(xidCritical := true)) else s
    case NodeRelabelled(node, pool) => if node in s.nodes then WithNode(s, node, s.nodes[node].(pool := pool)) else s
    case PoolCreated(pool, spec) => WithPool(s, pool, Pool(spec, Observed(0, 0.0, ZERO_TIME), NodeCounts(0, 0, 0), []))
    case PoolEdited(pool, spec) => if pool in s.pools then WithPool(s, pool, s.pools[pool].(spec := spec)) else s
    case PolicyWritten(policy, p) => s.(policies := s.policies[policy := p])
  }

  ghost predicate ValidRun(s: State, es: seq<Event>)
    decreases |es|
  {
    es == [] || (Enabled(s, es[0]) && ValidRun(Apply(s, es[0]), es[1..]))
  }

  function Run(s: State, es: seq<Event>): State
    decreases |es|
  {
    if es == [] then s else Run(Apply(s, es[0]), es[1..])
  }

  function Initial(): State {
    State(map[], map[], map[], {}, [], [])
  }
}

/** Counters never fall below what they index, in every interleaving. */
module CounterSafety {
  import opened Cluster
  import opened PoolController
  import opened BufferController
  import opened HealthController
  import opened ControlLoop
  import BufferProperties
  import Greedy

  /** The records in state buffered whose node still exists. */
  function LiveBuffered(recs: seq<NodeRecord>, names: set<string>): nat
    decreases |recs|
  {
    if recs == [] then 0
    else LiveBuffered(recs[..|recs| - 1], names)
         + if recs[|recs| - 1].state == Buffered && recs[|recs| - 1].nodeName in names then 1 else 0
  }

  /** A buffered record names a node that has joined, and joined this pool. */
  ghost predicate Homed(s: State, pool: string, rec: NodeRecord) {
    rec.nodeName in s.joined && (rec.nodeName in s.nodes ==> s.nodes[rec.nodeName].pool == pool)
  }

  ghost predicate AllHomed(s: State, pool: string, recs: seq<NodeRecord>) {
    forall i :: 0 <= i < |recs| && recs[i].state == Buffered ==> Homed(s, pool, recs[i])
  }

  ghost predicate PoolOk(s: State, name: string, p: Pool) {
    && AllHomed(s, name, p.records)
    && p.counts.active >= 0 && p.counts.provisioning >= 0
    && p.counts.buffered >= LiveBuffered(p.records, s.nodes.Keys)
  }

  ghost predicate Safe(s: State) {
    && s.nodes.Keys <= s.joined && "" !in s.joined
    && forall n :: n in s.pools ==> PoolOk(s, n, s.pools[n])
  }

  // ---------- Counting live records ----------

  lemma {:induction false} LiveAppend(recs: seq<NodeRecord>, more: seq<NodeRecord>, names: set<string>)
    requires |recs| <= |more|
    requires forall i :: 0 <= i < |recs| ==> more[i] == recs[i]
    requires forall i :: |recs| <= i < |more| ==> more[i].state != Buffered
    ensures LiveBuffered(more, names) == LiveBuffered(recs, names)
    decreases |more|
  {
    if |recs| == |more| {
      assert recs == more;
    } else {
      LiveAppend(recs, more[..|more| - 1], names);
    }
  }

  lemma {:induction false} LiveRelease(recs: seq<NodeRecord>, i: nat, rec: NodeRecord, names: set<string>)
    requires i < |recs| && recs[i].state == Buffered && recs[i].nodeName in names && rec.state != Buffered
    ensures LiveBuffered(recs[i := rec], names) == LiveBuffered(recs, names) - 1
    decreases |recs|
  {
    var last := |recs| - 1;
    if i == last {
      assert recs[i := rec][..last] == recs[..last];
    } else {
      assert recs[i := rec][..last] == recs[..last][i := rec];
      LiveRelease(recs[..last], i, rec, names);
    }
  }

  /** Fewer names and fewer buffered records make fewer live ones. */
  lemma {:induction false} LiveShrinks(recs: seq<NodeRecord>, after: seq<NodeRecord>, names: set<string>,
                                       names': set<string>)
    requires |after| == |recs|
    requires forall i :: 0 <= i < |recs| && after[i].state == Buffered && after[i].nodeName in names' ==>
               recs[i].state == Buffered && recs[i].nodeName in names
    ensures LiveBuffered(after, names') <= LiveBuffered(recs, names)
    decreases |recs|
  {
    if recs != [] {
      LiveShrinks(recs[..|recs| - 1], after[..|recs| - 1], names, names');
    }
  }

  // ---------- One lemma per kind of step ----------

  /** The pools of s, unchanged, are fine in t as long as homes persist and no buffered name comes to life. */
  lemma PoolsPersist(s: State, t: State)
    requires Safe(s) && t.pools == s.pools && s.joined <= t.joined
    requires t.nodes.Keys <= t.joined && "" !in t.joined
    requires forall n :: n in t.nodes && n in s.joined ==> n in s.nodes && t.nodes[n].pool == s.nodes[n].pool
    ensures Safe(t)
  {
    forall n | n in t.pools ensures PoolOk(t, n, t.pools[n]) {
      PoolPersists(s, t, n, s.pools[n]);
    }
  }

  lemma PoolPersists(s: State, t: State, name: string, p: Pool)
    requires PoolOk(s, name, p) && s.joined <= t.joined
    requires forall n :: n in t.nodes && n in s.joined ==> n in s.nodes && t.nodes[n].pool == s.nodes[n].pool
    ensures PoolOk(t, name, p)
  {
    LiveShrinks(p.records, p.records, s.nodes.Keys, t.nodes.Keys);
  }

  lemma {:induction false} TallyIsLive(recs: seq<NodeRecord>, s: State, pool: string)
    requires AllHomed(s, pool, recs) && "" !in s.joined && s.nodes.Keys <= s.joined
    ensures var listed := Listed(s.nodes, pool);
            Tally(recs, listed).buffered == LiveBuffered(RestateAll(recs, listed), s.nodes.Keys)
    ensures Tally(recs, Listed(s.nodes, pool)).active >= 0 && Tally(recs, Listed(s.nodes, pool)).provisioning >= 0
    decreases |recs|
  {
    if recs != [] {
      var listed := Listed(s.nodes, pool);
      var init, last := recs[..|recs| - 1], recs[|recs| - 1];
      TallyIsLive(init, s, pool);
      assert RestateAll(recs, listed)[..|recs| - 1] == RestateAll(init, listed);
    }
  }

  lemma PoolStepSafe(s: State, name: string, env: PoolEnv, order: seq<string>)
    requires Safe(s)
    ensures Safe(ReconcilePool(s, name, env, order))
  {
    if name in s.pools && env.providerOk && env.updateOk {
      var p := Observe(s.pools[name], env.report);
      var t := ReconcilePool(s, name, env, order);
      if env.listOk {
        var listed := Listed(s.nodes, name);
        var recs := p.records + Discoveries(name, order);
        assert AllHomed(s, name, recs);
        TallyIsLive(recs, s, name);
        assert AllHomed(s, name, RestateAll(recs, listed));
      }
      assert PoolOk(s, name, t.pools[name]);
      OnePoolChanged(s, name, t.pools[name]);
    }
  }

  lemma OnePoolChanged(s: State, name: string, p: Pool)
    requires Safe(s) && PoolOk(s, name, p)
    ensures Safe(WithPool(s, name, p))
  {
    var t := WithPool(s, name, p);
    forall n | n in t.pools ensures PoolOk(t, n, t.pools[n]) {
      PoolPersists(s, t, n, t.pools[n]);
    }
  }

  lemma ProvisionSafe(s: State, name: string, count: int, f: PoolFaults)
    requires Safe(s) && count >= 0
    ensures Safe(ProvisionPool(s, name, count, f))
  {
    if name in s.pools {
      var p := s.pools[name];
      var (q, outcome) := LaunchFrom(p, name, 0, count, f.launch);
      BufferProperties.LaunchOutcome(p, name, 0, count, f.launch);
      BufferProperties.RecordsOfAll(name, 0, count, f.launch);
      if outcome == Done {
        LiveAppend(p.records, q.records, s.nodes.Keys);
        assert PoolOk(s, name, q);
        OnePoolChanged(s, name, q);
      }
    }
  }

  lemma {:induction false} ProvisionAllSafe(s: State, plan: seq<Greedy.PlanEntry>, env: BufferEnv)
    requires Safe(s) && forall i :: 0 <= i < |plan| ==> plan[i].nodeCount >= 0
    ensures Safe(ProvisionAll(s, plan, env))
    decreases |plan|
  {
    if plan != [] {
      ProvisionSafe(s, plan[0].poolName, plan[0].nodeCount, env.pool(plan[0].poolName));
      ProvisionAllSafe(ProvisionPool(s, plan[0].poolName, plan[0].nodeCount, env.pool(plan[0].poolName)), plan[1..], env);
    }
  }

  /** Draining only cordons: no node comes, goes, or changes its pool. */
  ghost predicate OnlyCordons(a: map<string, Node>, b: map<string, Node>) {
    a.Keys == b.Keys && forall n :: n in a ==> b[n] == a[n] || b[n] == a[n].(unschedulable := true)
  }

  lemma DrainOneCordons(nodes: map<string, Node>, name: string, d: Drain, i: nat, window: int, env: BufferEnv)
    requires i < |d.pool.records| && OnlyCordons(nodes, d.nodes)
    ensures OnlyCordons(nodes, DrainAndRelease(d, name, i, window, env).nodes)
  {
    var e := DrainAndRelease(d, name, i, window, env);
    if e.nodes != d.nodes {
      CordonedNodes(d, name, i, window, env);
      CordonOnlyCordons(nodes, d.nodes, d.pool.records[i].nodeName);
    }
  }

  lemma {:induction false} DrainOnlyCordons(nodes: map<string, Node>, name: string, d: Drain, i: nat, window: int,
                                            env: BufferEnv)
    requires OnlyCordons(nodes, d.nodes)
    ensures OnlyCordons(nodes, DrainFrom(d, name, i, window, env).nodes)
    decreases |d.pool.records| - i
  {
    if i >= |d.pool.records| || d.failed || d.excess <= 0 {
    } else if !Candidate(d.pool.records[i], window, env.now) {
      DrainOnlyCordons(nodes, name, d, i + 1, window, env);
    } else {
      DrainOneCordons(nodes, name, d, i, window, env);
      var e := DrainAndRelease(d, name, i, window, env);
      if !e.failed {
        DrainOnlyCordons(nodes, name, e.(excess := e.excess - 1), i + 1, window, env);
      }
    }
  }

  lemma CordonedNodes(d: Drain, name: string, i: nat, window: int, env: BufferEnv)
    requires i < |d.pool.records| && DrainAndRelease(d, name, i, window, env).nodes != d.nodes
    ensures var n := d.pool.records[i].nodeName;
            n in d.nodes && DrainAndRelease(d, name, i, window, env).nodes == Cordon(d.nodes, n)
  {
  }

  lemma CordonOnlyCordons(a: map<string, Node>, b: map<string, Node>, n: string)
    requires OnlyCordons(a, b) && n in b
    ensures OnlyCordons(a, Cordon(b, n))
  {
  }

  lemma DrainOneSafe(s: State, name: string, d: Drain, i: nat, window: int, env: BufferEnv)
    requires PoolOk(s, name, d.pool) && d.nodes.Keys == s.nodes.Keys
    requires i < |d.pool.records| && d.pool.records[i].state == Buffered
    ensures PoolOk(s, name, DrainAndRelease(d, name, i, window, env).pool)
  {
    var e := DrainAndRelease(d, name, i, window, env);
    if e.pool != d.pool {
      var released := d.pool.records[i].(state := Released);
      assert e.pool.records == d.pool.records[i := released];
      LiveRelease(d.pool.records, i, released, s.nodes.Keys);
      assert AllHomed(s, name, e.pool.records);
    }
  }

  lemma {:induction false} DrainSafe(s: State, name: string, d: Drain, i: nat, window: int, env: BufferEnv)
    requires PoolOk(s, name, d.pool) && d.nodes.Keys == s.nodes.Keys
    ensures PoolOk(s, name, DrainFrom(d, name, i, window, env).pool)
    decreases |d.pool.records| - i
  {
    if i >= |d.pool.records| || d.failed || d.excess <= 0 {
    } else if !Candidate(d.pool.records[i], window, env.now) {
      DrainSafe(s, name, d, i + 1, window, env);
    } else {
      DrainOneSafe(s, name, d, i, window, env);
      var e := DrainAndRelease(d, name, i, window, env);
      if !e.failed {
        DrainSafe(s, name, e.(excess := e.excess - 1), i + 1, window, env);
      }
    }
  }

  lemma ScaleDownPoolSafe(s: State, name: string, excess: int, window: int, env: BufferEnv)
    requires Safe(s)
    ensures Safe(ScaleDownPool(s, name, excess, window, env).s)
  {
    if name in s.pools {
      var d := Drain(s.pools[name], s.nodes, excess, false, s.releases);
      var e := DrainFrom(d, name, 0, window, env);
      DrainSafe(s, name, d, 0, window, env);
      DrainOnlyCordons(s.nodes, name, d, 0, window, env);
      var t := s.(nodes := e.nodes, releases := e.releases);
      PoolsPersist(s, t);
      PoolPersists(s, t, name, e.pool);
      OnePoolChanged(t, name, e.pool);
    }
  }

  lemma {:induction false} ScaleDownSafe(s: State, refs: seq<string>, excess: int, window: int, env: BufferEnv)
    requires Safe(s)
    ensures Safe(ScaleDown(s, refs, excess, window, env).s)
    decreases |refs|
  {
    if refs != [] {
      ScaleDownPoolSafe(s, refs[0], excess, window, env);
      var r := ScaleDownPool(s, refs[0], excess, window, env);
      if !r.failed {
        ScaleDownSafe(r.s, refs[1..], r.excess, window, env);
      }
    }
  }

  lemma RebalanceSafe(s: State, p: Policy, env: BufferEnv, plan: seq<Greedy.PlanEntry>)
    requires Safe(s) && PlannedFor(s, p, env, plan)
    ensures Safe(Rebalance(s, p, env, plan))
  {
    var need := Need(s, p, env);
    if need > 0 {
      BufferProperties.PlanIsPositive(s, p, env, plan);
      ProvisionAllSafe(s, plan, env);
    } else if need < 0 {
      ScaleDownSafe(s, Answered(p.pools, env.gets.scaleDown), -need, Window(p.stabilization), env);
    }
  }

  lemma BufferStepSafe(s: State, name: string, env: BufferEnv, plan: seq<Greedy.PlanEntry>)
    requires Safe(s) && Planned(s, name, env, plan)
    ensures Safe(ReconcilePolicy(s, name, env, plan))
  {
    if name in s.policies {
      var t := Rebalance(s, s.policies[name], env, plan);
      RebalanceSafe(s, s.policies[name], env, plan);
      PoolsPersist(t, ReconcilePolicy(s, name, env, plan));
    }
  }

  /** Changing flags of one node is harmless. */
  lemma FlagsPersist(s: State, name: string, node: Node)
    requires Safe(s) && name in s.nodes && node.pool == s.nodes[name].pool
    ensures Safe(s.(nodes := s.nodes[name := node]))
  {
    PoolsPersist(s, s.(nodes := s.nodes[name := node]));
  }

  lemma ReleaseNamedSafe(s: State, pool: string, name: string, now: Instant)
    requires Safe(s) && pool in s.pools
    ensures Safe(WithPool(s, pool, AfterXid(s.pools[pool], name, now)))
  {
    var p := s.pools[pool];
    var q := AfterXid(p, name, now);
    LiveShrinks(p.records, q.records, s.nodes.Keys, s.nodes.Keys);
    OnePoolChanged(s, pool, q);
  }

  lemma XidSafe(s: State, name: string, env: HealthEnv)
    requires Safe(s) && name in s.nodes
    ensures Safe(HandleXid(s, name, env))
  {
    if env.nodeUpdateOk {
      var cordoned := s.nodes[name].(unschedulable := true);
      var t := s.(nodes := s.nodes[name := cordoned]);
      FlagsPersist(s, name, cordoned);
      if cordoned.pool in t.pools {
        ReleaseNamedSafe(t, cordoned.pool, name, env.now);
        FlagsPersist(WithPool(t, cordoned.pool, AfterXid(t.pools[cordoned.pool], name, env.now)), name,
                     cordoned.(xidCritical := false, eligible := false));
      }
      FlagsPersist(t, name, cordoned.(xidCritical := false, eligible := false));
    }
  }

  lemma HealthStepSafe(s: State, name: string, env: HealthEnv)
    requires Safe(s)
    ensures Safe(ReconcileNode(s, name, env))
  {
    if name in s.nodes && s.nodes[name].gpu {
      XidSafe(s, name, env);
      FlagsPersist(s, name, s.nodes[name].(eligible := env.bootOk));
    }
  }

  /** The event takes a node away from a pool that has a buffered record of it. */
  ghost predicate Strands(s: State, e: Event) {
    && e.NodeRelabelled? && e.node in s.nodes && s.nodes[e.node].pool != e.pool
    && exists n, i :: n in s.pools && 0 <= i < |s.pools[n].records| && BufferedRecord(s.pools[n].records[i], e.node)
  }

  predicate BufferedRecord(rec: NodeRecord, node: string) {
    rec.state == Buffered && rec.nodeName == node
  }

  lemma RelabelSafeIff(s: State, e: Event)
    requires Safe(s) && e.NodeRelabelled?
    ensures Safe(Apply(s, e)) <==> !Strands(s, e)
  {
    var t := Apply(s, e);
    if Strands(s, e) {
      var n, i :| n in s.pools && 0 <= i < |s.pools[n].records| && BufferedRecord(s.pools[n].records[i], e.node);
      assert PoolOk(s, n, s.pools[n]) && Homed(s, n, s.pools[n].records[i]) && !Homed(t, n, s.pools[n].records[i]);
      assert !PoolOk(t, n, t.pools[n]);
    } else if e.node in s.nodes && s.nodes[e.node].pool != e.pool {
      forall n | n in t.pools ensures PoolOk(t, n, t.pools[n]) {
        assert PoolOk(s, n, s.pools[n]) && s.nodes.Keys == t.nodes.Keys;
        forall i | 0 <= i < |s.pools[n].records| && s.pools[n].records[i].state == Buffered
          ensures Homed(t, n, s.pools[n].records[i])
        {
          assert !BufferedRecord(s.pools[n].records[i], e.node) && Homed(s, n, s.pools[n].records[i]);
        }
      }
    } else {
      assert t == s;
    }
  }

  /** Every step keeps the counters safe, except one that strands a buffered record. */
  lemma StepSafeIff(s: State, e: Event)
    requires Safe(s) && Enabled(s, e)
    ensures Safe(Apply(s, e)) <==> !Strands(s, e)
  {
    match e
    case PoolReconcile(pool, env, order) => PoolStepSafe(s, pool, env, order);
    case BufferReconcile(policy, env, plan) => BufferStepSafe(s, policy, env, plan);
    case HealthReconcile(node, env) => HealthStepSafe(s, node, env);
    case NodeRelabelled(_, _) => RelabelSafeIff(s, e);
    case PoolCreated(pool, _) => OnePoolChanged(s, pool, Apply(s, e).pools[pool]);
    case PoolEdited(pool, _) =>
      if pool in s.pools {
        OnePoolChanged(s, pool, Apply(s, e).pools[pool]);
      }
    case _ => PoolsPersist(s, Apply(s, e));
  }

  // ---------- Whole runs ----------

  ghost predicate NoneStranded(s: State, es: seq<Event>)
    decreases |es|
  {
    es == [] || (!Strands(s, es[0]) && NoneStranded(Apply(s, es[0]), es[1..]))
  }

  ghost predicate AlwaysSafe(s: State, es: seq<Event>)
    decreases |es|
  {
    Safe(s) && (es == [] || AlwaysSafe(Apply(s, es[0]), es[1..]))
  }

  /** The counters are safe throughout a run if and only if no step of it strands a record. */
  lemma {:induction false} RunSafeIff(s: State, es: seq<Event>)
    requires Safe(s) && ValidRun(s, es)
    ensures AlwaysSafe(s, es) <==> NoneStranded(s, es)
    ensures NoneStranded(s, es) ==> Safe(Run(s, es))
    decreases |es|
  {
    if es != [] {
      StepSafeIff(s, es[0]);
      if !Strands(s, es[0]) {
        RunSafeIff(Apply(s, es[0]), es[1..]);
      }
    }
  }

  lemma {:induction false} WarmIsNatural(pools: map<string, Pool>, refs: seq<string>)
    requires forall n :: n in pools ==> pools[n].counts.buffered >= 0 && pools[n].counts.provisioning >= 0
    ensures CountWarm(pools, refs) >= 0
    decreases |refs|
  {
    if refs != [] {
      WarmIsNatural(pools, refs[1..]);
    }
  }

  /**
   * In every run from the empty cluster that strands no record, every pool's buffered counter is at least the number of its
   * buffered records whose node exists, so no counter and no policy's warm count is ever negative.
   */
  lemma CountersNeverNegative(es: seq<Event>, name: string, refs: seq<string>)
    requires ValidRun(Initial(), es) && NoneStranded(Initial(), es)
    ensures var s := Run(Initial(), es);
            && (name in s.pools ==>
                  && s.pools[name].counts.buffered >= LiveBuffered(s.pools[name].records, s.nodes.Keys)
                  && s.pools[name].counts.active >= 0 && s.pools[name].counts.provisioning >= 0)
            && CountWarm(s.pools, refs) >= 0
  {
    RunSafeIff(Initial(), es);
    WarmIsNatural(Run(Initial(), es).pools, refs);
  }
}
