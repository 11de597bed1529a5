/** What a node's health means to its pool: when it is buffered, and what a critical Xid leaves behind. */
module NodeHealth {
  import opened Cluster
  import opened PoolController
  import opened PoolProperties
  import opened HealthController
  import opened ControlLoop

  /** Every record of the pool that bears the node's name is in this state, and there is one. */
  ghost predicate RecordedAs(s: State, pool: string, node: string, state: RecordState) {
    && pool in s.pools
    && (exists i :: 0 <= i < |s.pools[pool].records| && s.pools[pool].records[i].nodeName == node)
    && forall i :: 0 <= i < |s.pools[pool].records| && s.pools[pool].records[i].nodeName == node ==>
         s.pools[pool].records[i].state == state
  }

  predicate AllOk(env: PoolEnv) {
    env.providerOk && env.listOk && env.updateOk
  }

  /** A successful pool reconcile records what the node is like. */
  lemma ReconcileShowsNode(s: State, pool: string, node: string, env: PoolEnv, order: seq<string>)
    requires pool in s.pools && node in s.nodes && s.nodes[node].pool == pool && "" !in s.nodes && AllOk(env)
    requires Enabled(s, PoolReconcile(pool, env, order))
    ensures var n, t := s.nodes[node], ReconcilePool(s, pool, env, order);
            RecordedAs(t, pool, node, if n.unschedulable then Draining else if n.eligible then Buffered else Active)
  {
    var p, listed := Observe(s.pools[pool], env.report), Listed(s.nodes, pool);
    var i := EveryNodeHasARecord(pool, p, listed, order, node);
    RecordsKeepIdentity(pool, p, listed, order);
    var t := ReconcilePool(s, pool, env, order);
    assert t.pools[pool] == Rederived(pool, p, listed, order);
    assert t.pools[pool].records[i].nodeName == node;
    forall k | 0 <= k < |t.pools[pool].records| && t.pools[pool].records[k].nodeName == node
      ensures ShowsNode(t.pools[pool].records[k], s.nodes[node])
    {
    }
  }

  /** A GPU node becomes buffered in its pool exactly by passing the boot check and being told; else it stays active. */
  lemma BootedNodeIsBuffered(s: State, node: string, pool: string, env: HealthEnv, poolEnv: PoolEnv, order: seq<string>)
    requires node in s.nodes && "" !in s.nodes && pool == s.nodes[node].pool && pool in s.pools && AllOk(poolEnv)
    requires var n := s.nodes[node]; n.gpu && !n.xidCritical && !n.eligible && !n.unschedulable
    requires var t := ReconcileNode(s, node, env); Enabled(t, PoolReconcile(pool, poolEnv, order))
    ensures var t := ReconcileNode(s, node, env);
            RecordedAs(ReconcilePool(t, pool, poolEnv, order), pool, node,
                       if env.bootOk && env.nodeUpdateOk then Buffered else Active)
  {
    ReconcileShowsNode(ReconcileNode(s, node, env), pool, node, poolEnv, order);
  }

  /** The node's records are released, the pool notes the time as a lack of capacity, and nothing else of it changes. */
  ghost predicate RecordsReleased(p: Pool, q: Pool, node: string, now: Instant) {
    && q == p.(records := q.records, observed := p.observed.(lastICE := now)) && |q.records| == |p.records|
    && forall i :: 0 <= i < |p.records| ==>
         q.records[i] == if p.records[i].nodeName == node then p.records[i].(state := Released) else p.records[i]
  }

  /**
   * What handling a critical Xid leaves behind: nothing if the node cannot be cordoned; else a cordoned node, which
   * loses the Xid and its eligibility if it can be written again, and a pool without its records if that is stored
   * and read, its provider known and its update succeeds.
   */
  lemma XidLeaves(s: State, node: string, env: HealthEnv)
    requires node in s.nodes && s.nodes[node].gpu && s.nodes[node].xidCritical
    ensures var n, t := s.nodes[node], ReconcileNode(s, node, env);
            var known := n.pool != "" && n.pool in s.pools && env.providerOk;
            if !env.nodeUpdateOk then t == s
            else
              && t.nodes == s.nodes[node := Node(n.pool, true, n.eligible && !env.clearOk, true, !env.clearOk)]
              && t.policies == s.policies && t.releases == s.releases && (!known ==> t.xidReleases == s.xidReleases)
              && (!(known && env.poolUpdateOk) ==> t.pools == s.pools)
              && (known && env.poolUpdateOk ==>
                    && t.pools == s.pools[n.pool := t.pools[n.pool]]
                    && RecordsReleased(s.pools[n.pool], t.pools[n.pool], node, env.now))
  {
  }

  /**
   * A node that had a critical Xid and is uncordoned afterwards is active, not buffered, at the next reconcile of
   * its pool: it must pass the boot check again first.
   */
  lemma XidNodeNeedsBootCheck(s: State, node: string, pool: string, env: HealthEnv, poolEnv: PoolEnv, order: seq<string>)
    requires node in s.nodes && "" !in s.nodes && pool == s.nodes[node].pool && pool in s.pools && AllOk(poolEnv)
    requires s.nodes[node].gpu && s.nodes[node].xidCritical && env.nodeUpdateOk && env.clearOk
    requires var t := Apply(ReconcileNode(s, node, env), Uncordoned(node));
             Enabled(t, PoolReconcile(pool, poolEnv, order))
    ensures var t := Apply(ReconcileNode(s, node, env), Uncordoned(node));
            RecordedAs(ReconcilePool(t, pool, poolEnv, order), pool, node, Active)
  {
    ReconcileShowsNode(Apply(ReconcileNode(s, node, env), Uncordoned(node)), pool, node, poolEnv, order);
  }
}
