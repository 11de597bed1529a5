/** Record names stay distinct in every run in which the providers hand out fresh names. */
module PoolRuns {
  import opened Cluster
  import opened PoolController
  import opened PoolProperties
  import opened BufferController
  import opened BufferProperties
  import opened HealthController
  import opened ControlLoop
  import opened CordonSafety
  import Greedy

  ghost predicate AllDistinct(s: State) {
    forall n :: n in s.pools ==> DistinctNames(s.pools[n].records)
  }

  /** The records bear new names, each its own; a record may be without a name. */
  ghost predicate Fresh(known: set<string>, recs: seq<NodeRecord>) {
    DistinctNames(recs) && forall i :: 0 <= i < |recs| ==> recs[i].nodeName !in known
  }

  /** Every pool that the plan does provision is handed fresh names. */
  ghost predicate FreshPlan(s: State, plan: seq<Greedy.PlanEntry>, env: BufferEnv)
    decreases |plan|
  {
    plan != [] ==>
      var e := plan[0];
      var f := env.pool(e.poolName);
      && (Smooth(s, e.poolName, e.nodeCount, f) ==>
            Fresh(KnownNames(s.pools[e.poolName].records), RecordsOf(e.poolName, 0, e.nodeCount, f.launch)))
      && FreshPlan(ProvisionPool(s, e.poolName, e.nodeCount, f), plan[1..], env)
  }

  ghost predicate FreshHandles(s: State, e: Event) {
    e.BufferReconcile? && e.policy in s.policies && Need(s, s.policies[e.policy], e.bufferEnv) > 0 ==>
      FreshPlan(s, e.plan, e.bufferEnv)
  }

  ghost predicate FreshRun(s: State, es: seq<Event>)
    decreases |es|
  {
    es == [] || (FreshHandles(s, es[0]) && FreshRun(Apply(s, es[0]), es[1..]))
  }

  // ---------- Provisioning ----------

  /** Appending records keeps the names distinct if and only if the new names are fresh. */
  lemma AppendDistinctIff(recs: seq<NodeRecord>, more: seq<NodeRecord>)
    requires DistinctNames(recs)
    ensures DistinctNames(recs + more) <==> Fresh(KnownNames(recs), more)
  {
    var all := recs + more;
    if DistinctNames(all) {
      forall i, j | 0 <= i < j < |more| && more[i].nodeName != "" ensures more[i].nodeName != more[j].nodeName {
        assert all[|recs| + i] == more[i] && all[|recs| + j] == more[j];
      }
      forall j | 0 <= j < |more| ensures more[j].nodeName !in KnownNames(recs) {
        assert all[|recs| + j] == more[j];
        forall i | 0 <= i < |recs| && recs[i].nodeName != "" ensures recs[i].nodeName != more[j].nodeName {
          assert all[i] == recs[i];
        }
      }
    }
    if Fresh(KnownNames(recs), more) {
      forall i, j | 0 <= i < j < |all| && all[i].nodeName != "" ensures all[i].nodeName != all[j].nodeName {
        if i < |recs| <= j {
          assert recs[i].nodeName in KnownNames(recs);
        }
      }
    }
  }

  lemma {:induction false} PlanKeepsDistinct(s: State, plan: seq<Greedy.PlanEntry>, env: BufferEnv)
    requires AllDistinct(s) && FreshPlan(s, plan, env)
    requires forall i :: 0 <= i < |plan| ==> plan[i].nodeCount >= 0
    ensures AllDistinct(ProvisionAll(s, plan, env))
    decreases |plan|
  {
    if plan != [] {
      var e := plan[0];
      var f := env.pool(e.poolName);
      ProvisionEffect(s, e.poolName, e.nodeCount, f);
      if Smooth(s, e.poolName, e.nodeCount, f) {
        AppendDistinctIff(s.pools[e.poolName].records, RecordsOf(e.poolName, 0, e.nodeCount, f.launch));
      }
      PlanKeepsDistinct(ProvisionPool(s, e.poolName, e.nodeCount, f), plan[1..], env);
    }
  }

  // ---------- Steps that keep the names ----------

  ghost predicate SameNames(a: seq<NodeRecord>, b: seq<NodeRecord>) {
    |a| == |b| && forall i :: 0 <= i < |a| ==> a[i].nodeName == b[i].nodeName
  }

  lemma {:induction false} DrainKeepsNames(d: Drain, name: string, i: nat, window: int, env: BufferEnv)
    ensures SameNames(d.pool.records, DrainFrom(d, name, i, window, env).pool.records)
    decreases |d.pool.records| - i
  {
    if i >= |d.pool.records| || d.failed || d.excess <= 0 {
    } else if !Candidate(d.pool.records[i], window, env.now) {
      DrainKeepsNames(d, name, i + 1, window, env);
    } else {
      var e := DrainAndRelease(d, name, i, window, env);
      assert SameNames(d.pool.records, e.pool.records);
      if !e.failed {
        DrainKeepsNames(e.(excess := e.excess - 1), name, i + 1, window, env);
      }
    }
  }

  lemma {:induction false} ScaleDownKeepsDistinct(s: State, refs: seq<string>, excess: int, window: int, env: BufferEnv)
    requires AllDistinct(s)
    ensures AllDistinct(ScaleDown(s, refs, excess, window, env).s)
    decreases |refs|
  {
    if refs != [] {
      if refs[0] in s.pools {
        DrainKeepsNames(Drain(s.pools[refs[0]], s.nodes, excess, false, s.releases), refs[0], 0, window, env);
      }
      var r := ScaleDownPool(s, refs[0], excess, window, env);
      if !r.failed {
        ScaleDownKeepsDistinct(r.s, refs[1..], r.excess, window, env);
      }
    }
  }

  lemma BufferKeepsDistinct(s: State, name: string, env: BufferEnv, plan: seq<Greedy.PlanEntry>)
    requires AllDistinct(s) && Planned(s, name, env, plan) && FreshHandles(s, BufferReconcile(name, env, plan))
    ensures AllDistinct(ReconcilePolicy(s, name, env, plan))
  {
    if name in s.policies {
      var p := s.policies[name];
      var need := Need(s, p, env);
      if need > 0 {
        PlanIsPositive(s, p, env, plan);
        PlanKeepsDistinct(s, plan, env);
      } else if need < 0 {
        ScaleDownKeepsDistinct(s, Answered(p.pools, env.gets.scaleDown), -need, Window(p.stabilization), env);
      }
      assert ReconcilePolicy(s, name, env, plan).pools == Rebalance(s, p, env, plan).pools;
    }
  }

  lemma PoolStepKeepsDistinct(s: State, name: string, env: PoolEnv, order: seq<string>)
    requires AllDistinct(s) && "" !in s.nodes && Enabled(s, PoolReconcile(name, env, order))
    ensures AllDistinct(ReconcilePool(s, name, env, order))
  {
    if name in s.pools && env.listOk {
      RecordsIndexNodes(name, Observe(s.pools[name], env.report), Listed(s.nodes, name), order);
    }
  }

  lemma HealthStepKeepsDistinct(s: State, name: string, env: HealthEnv)
    requires AllDistinct(s)
    ensures AllDistinct(ReconcileNode(s, name, env))
  {
    var t := ReconcileNode(s, name, env);
    forall n | n in t.pools ensures DistinctNames(t.pools[n].records) {
      assert n in s.pools && SameNames(s.pools[n].records, t.pools[n].records);
    }
  }

  lemma StepKeepsDistinct(s: State, e: Event)
    requires Grounded(s) && AllDistinct(s) && Enabled(s, e) && FreshHandles(s, e)
    ensures AllDistinct(Apply(s, e))
  {
    match e
    case PoolReconcile(pool, env, order) => PoolStepKeepsDistinct(s, pool, env, order);
    case BufferReconcile(policy, env, plan) => BufferKeepsDistinct(s, policy, env, plan);
    case HealthReconcile(node, env) => HealthStepKeepsDistinct(s, node, env);
    case _ =>
  }

  // ---------- Whole runs ----------

  lemma {:induction false} RunKeepsDistinct(s: State, es: seq<Event>)
    requires Grounded(s) && AllDistinct(s) && ValidRun(s, es) && FreshRun(s, es)
    ensures AllDistinct(Run(s, es))
    decreases |es|
  {
    if es != [] {
      StepKeepsDistinct(s, es[0]);
      StepKeepsGrounded(s, es[0]);
      RunKeepsDistinct(Apply(s, es[0]), es[1..]);
    }
  }

  /**
   * After any run from the empty cluster with fresh handles, a pool reconcile whose calls succeed leaves
   * exactly one record per listed node, and counters that are direct counts: over the listed nodes, and over the
   * launched records whose node is not listed yet.
   */
  lemma EveryRunIndexesNodes(es: seq<Event>, name: string, env: PoolEnv, order: seq<string>)
    requires ValidRun(Initial(), es) && FreshRun(Initial(), es)
    requires name in Run(Initial(), es).pools && Enabled(Run(Initial(), es), PoolReconcile(name, env, order))
    requires env.providerOk && env.listOk && env.updateOk
    ensures var s := Run(Initial(), es);
            var listed, q := Listed(s.nodes, name), ReconcilePool(s, name, env, order).pools[name];
            && DistinctNames(q.records) && (forall n :: n in listed ==> OneRecord(q.records, n))
            && q.counts.active == |ActiveNames(listed)| && q.counts.buffered == |BufferedNames(listed)|
            && q.counts.provisioning == |Awaited(q.records)|
            && Awaited(q.records) == set i: nat | i < |s.pools[name].records| && s.pools[name].records[i].state == Provisioning
                                                  && s.pools[name].records[i].nodeName !in listed
  {
    var s := Run(Initial(), es);
    RunKeepsGrounded(Initial(), es);
    RunKeepsDistinct(Initial(), es);
    var p := Observe(s.pools[name], env.report);
    RecordsIndexNodes(name, p, Listed(s.nodes, name), order);
    CountersCountNodes(name, p, Listed(s.nodes, name), order);
    ProvisioningCountsAwaited(name, p, Listed(s.nodes, name), order);
  }
}
