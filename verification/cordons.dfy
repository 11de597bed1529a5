/** A cordoned node is out for good. */
module CordonSafety {
  import opened Cluster
  import opened PoolController
  import opened BufferController
  import opened HealthController
  import opened ControlLoop
  import opened PoolProperties
  import Greedy

  /** The node has joined, and it is gone or cordoned. */
  ghost predicate Out(s: State, node: string) {
    node in s.joined && (node in s.nodes ==> s.nodes[node].unschedulable)
  }

  ghost predicate NoUncordon(es: seq<Event>, node: string) {
    forall i :: 0 <= i < |es| ==> es[i] != Uncordoned(node)
  }

  // ---------- Out stays out ----------

  /** Nodes that were there stay there, and none is uncordoned. */
  ghost predicate KeepsCordons(a: map<string, Node>, b: map<string, Node>) {
    a.Keys == b.Keys && forall n :: n in a && a[n].unschedulable ==> b[n].unschedulable
  }

  lemma {:induction false} ProvisionAllKeepsNodes(s: State, plan: seq<Greedy.PlanEntry>, env: BufferEnv)
    ensures var t := ProvisionAll(s, plan, env);
            t.nodes == s.nodes && t.joined == s.joined && t.releases == s.releases
    decreases |plan|
  {
    if plan != [] {
      ProvisionAllKeepsNodes(ProvisionPool(s, plan[0].poolName, plan[0].nodeCount, env.pool(plan[0].poolName)), plan[1..], env);
    }
  }

  lemma {:induction false} DrainKeepsCordons(d: Drain, name: string, i: nat, window: int, env: BufferEnv)
    ensures KeepsCordons(d.nodes, DrainFrom(d, name, i, window, env).nodes)
    decreases |d.pool.records| - i
  {
    if i >= |d.pool.records| || d.failed || d.excess <= 0 {
    } else if !Candidate(d.pool.records[i], window, env.now) {
      DrainKeepsCordons(d, name, i + 1, window, env);
    } else {
      var e := DrainAndRelease(d, name, i, window, env);
      assert KeepsCordons(d.nodes, e.nodes);
      if !e.failed {
        DrainKeepsCordons(e.(excess := e.excess - 1), name, i + 1, window, env);
      }
    }
  }

  lemma {:induction false} ScaleDownKeepsCordons(s: State, refs: seq<string>, excess: int, window: int, env: BufferEnv)
    ensures var t := ScaleDown(s, refs, excess, window, env).s;
            KeepsCordons(s.nodes, t.nodes) && t.joined == s.joined
    decreases |refs|
  {
    if refs != [] {
      if refs[0] in s.pools {
        DrainKeepsCordons(Drain(s.pools[refs[0]], s.nodes, excess, false, s.releases), refs[0], 0, window, env);
      }
      var r := ScaleDownPool(s, refs[0], excess, window, env);
      if !r.failed {
        ScaleDownKeepsCordons(r.s, refs[1..], r.excess, window, env);
      }
    }
  }

  lemma BufferKeepsCordons(s: State, name: string, env: BufferEnv, plan: seq<Greedy.PlanEntry>)
    ensures var t := ReconcilePolicy(s, name, env, plan);
            KeepsCordons(s.nodes, t.nodes) && t.joined == s.joined
  {
    if name in s.policies {
      var p := s.policies[name];
      ProvisionAllKeepsNodes(s, plan, env);
      ScaleDownKeepsCordons(s, Answered(p.pools, env.gets.scaleDown), -Need(s, p, env), Window(p.stabilization), env);
    }
  }

  /** Every node has joined under a name. */
  ghost predicate Grounded(s: State) {
    s.nodes.Keys <= s.joined && "" !in s.joined
  }

  lemma StepKeepsGrounded(s: State, e: Event)
    requires Grounded(s) && Enabled(s, e)
    ensures Grounded(Apply(s, e))
  {
    match e
    case BufferReconcile(policy, env, plan) => BufferKeepsCordons(s, policy, env, plan);
    case _ =>
  }

  lemma {:induction false} RunKeepsGrounded(s: State, es: seq<Event>)
    requires Grounded(s) && ValidRun(s, es)
    ensures Grounded(Run(s, es))
    decreases |es|
  {
    if es != [] {
      StepKeepsGrounded(s, es[0]);
      RunKeepsGrounded(Apply(s, es[0]), es[1..]);
    }
  }

  lemma StepKeepsOut(s: State, e: Event, node: string)
    requires Enabled(s, e) && Out(s, node) && e != Uncordoned(node)
    ensures Out(Apply(s, e), node)
  {
    match e
    case BufferReconcile(policy, env, plan) => BufferKeepsCordons(s, policy, env, plan);
    case _ =>
  }

  lemma {:induction false} RunKeepsOut(s: State, es: seq<Event>, node: string)
    requires ValidRun(s, es) && Out(s, node) && NoUncordon(es, node)
    ensures Out(Run(s, es), node)
    decreases |es|
  {
    if es != [] {
      assert es[0] != Uncordoned(node);
      assert forall i :: 0 <= i < |es[1..]| ==> es[1..][i] == es[i + 1];
      StepKeepsOut(s, es[0], node);
      RunKeepsOut(Apply(s, es[0]), es[1..], node);
    }
  }

  /** Xid handling takes the node out as soon as its first write succeeds. */
  lemma XidTakesOut(s: State, node: string, env: HealthEnv)
    requires node in s.joined && node in s.nodes && s.nodes[node].gpu && s.nodes[node].xidCritical && env.nodeUpdateOk
    ensures Out(ReconcileNode(s, node, env), node)
  {
  }

  /** So does draining one record, whether or not the release then succeeds. */
  lemma DrainTakesOut(s: State, d: Drain, name: string, i: nat, window: int, env: BufferEnv)
    requires i < |d.pool.records| && d.pool.records[i].nodeName in s.joined && !d.failed
    requires env.drain(name, i) !in {GetFails, CordonFails}
    ensures d.pool.records[i].nodeName == ""
         || Out(s.(nodes := DrainAndRelease(d, name, i, window, env).nodes), d.pool.records[i].nodeName)
  {
  }

  /**
   * Once a node is out, no later pool reconcile counts it: it is in neither set the counters count,
   * no record bearing its name adds to them, and a record whose node is still listed is draining.
   */
  lemma NeverCountedAgain(s: State, es: seq<Event>, node: string, pool: string, rec: NodeRecord)
    requires ValidRun(s, es) && Out(s, node) && NoUncordon(es, node) && rec.nodeName == node
    ensures var listed := Listed(Run(s, es).nodes, pool);
            && node !in ActiveNames(listed) && node !in BufferedNames(listed)
            && CountOf(rec, listed).active == 0 && CountOf(rec, listed).buffered == 0
            && (Joined(rec, listed) ==> Restate(rec, listed).state == Draining)
  {
    RunKeepsOut(s, es, node);
  }
}
