/** The health controller: marks GPU nodes buffer-eligible and takes nodes with critical Xids out. */
module HealthController {
  import opened Cluster

  /** Answers met by one reconcile of a node. The deep check only logs, so it has no answer here. */
  datatype HealthEnv = HealthEnv(bootOk: bool, nodeUpdateOk: bool, providerOk: bool, poolUpdateOk: bool,
                                 clearOk: bool, now: Instant)

  // ---------- Specification ----------

  function ReleaseNamed(recs: seq<NodeRecord>, name: string): (r: seq<NodeRecord>)
    ensures |r| == |recs|
  {
    seq(|recs|, i requires 0 <= i < |recs| =>
      if recs[i].nodeName == name then recs[i].(state := Released) else recs[i])
  }

  function AfterXid(p: Pool, name: string, now: Instant): Pool {
    p.(records := ReleaseNamed(p.records, name), observed := p.observed.(lastICE := now))
  }

  /** The calls of Release, one for every record that bears the node's name, whatever its state. */
  function XidReleases(recs: seq<NodeRecord>, pool: string, name: string, now: Instant): seq<Release>
    decreases |recs|
  {
    if recs == [] then []
    else
      var last := |recs| - 1;
      XidReleases(recs[..last], pool, name, now)
      + if recs[last].nodeName == name then [Release(pool, last, recs[last].launchedAt, now, 0)] else []
  }

  /** The node's pool, whose records Xid handling releases: it must be stored and read, and its provider known. */
  predicate Reachable(s: State, pool: string, env: HealthEnv) {
    pool != "" && pool in s.pools && env.providerOk
  }

  /** Cordon, release the node's records, forget the Xid. Failing calls leave the later writes undone. */
  function HandleXid(s: State, name: string, env: HealthEnv): State
    requires name in s.nodes
  {
    if !env.nodeUpdateOk then s
    else
      var cordoned := s.nodes[name].(unschedulable := true);
      var t := s.(nodes := s.nodes[name := cordoned]);
      var u := if Reachable(t, cordoned.pool, env) then ReleaseRecords(t, cordoned.pool, name, env) else t;
      if env.clearOk then u.(nodes := u.nodes[name := cordoned.(xidCritical := false, eligible := false)]) else u
  }

  /** The pool learns of the releases only if its update succeeds. */
  function ReleaseRecords(s: State, pool: string, name: string, env: HealthEnv): State
    requires pool in s.pools
  {
    var called := s.(xidReleases := s.xidReleases + XidReleases(s.pools[pool].records, pool, name, env.now));
    if env.poolUpdateOk then WithPool(called, pool, AfterXid(s.pools[pool], name, env.now)) else called
  }

  function ReconcileNode(s: State, name: string, env: HealthEnv): State {
    if name !in s.nodes || !s.nodes[name].gpu then s
    else if s.nodes[name].xidCritical then HandleXid(s, name, env)
    else if !s.nodes[name].eligible && env.nodeUpdateOk then
      s.(nodes := s.nodes[name := s.nodes[name].(eligible := env.bootOk)])
    else s
  }

  // ---------- The controller ----------

  class Reconciler {
    const store: Store

    constructor (store: Store)
      ensures this.store == store
    {
      this.store := store;
    }

    method HandleXidCritical(name: string, env: HealthEnv)
      requires name in store.nodes
      modifies store
      ensures store.View() == HandleXid(old(store.View()), name, env)
    {
      var node := store.nodes[name].(unschedulable := true);
      if !env.nodeUpdateOk {
        return;
      }
      store.nodes := store.nodes[name := node];
      if node.pool != "" && node.pool in store.pools && env.providerOk {
        var pool := store.pools[node.pool];
        var records := pool.records;
        for i := 0 to |records|
          invariant |records| == |pool.records| && store.nodes == old(store.nodes)[name := node]
          invariant store.pools == old(store.pools) && store.policies == old(store.policies)
          invariant store.joined == old(store.joined) && store.releases == old(store.releases)
          invariant store.xidReleases
                 == old(store.xidReleases) + XidReleases(pool.records[..i], node.pool, name, env.now)
          invariant forall j :: 0 <= j < i ==> records[j] == ReleaseNamed(pool.records, name)[j]
          invariant forall j :: i <= j < |records| ==> records[j] == pool.records[j]
        {
          // A failing Release is only logged: the record becomes released all the same.
          XidReleasesSnoc(pool.records, i, node.pool, name, env.now);
          if records[i].nodeName == name {
            store.xidReleases := store.xidReleases + [Release(node.pool, i, records[i].launchedAt, env.now, 0)];
            records := records[i := records[i].(state := Released)];
          }
        }
        assert pool.records[..|records|] == pool.records;
        assert records == ReleaseNamed(pool.records, name);
        pool := pool.(records := records, observed := pool.observed.(lastICE := env.now));
        if env.poolUpdateOk {
          store.pools := store.pools[node.pool := pool];
        }
      }
      node := node.(xidCritical := false, eligible := false);
      if env.clearOk {
        store.nodes := store.nodes[name := node];
      }
    }

    /** One reconcile of a node. */
    method Reconcile(name: string, env: HealthEnv)
      modifies store
      ensures store.View() == ReconcileNode(old(store.View()), name, env)
    {
      if name !in store.nodes {
        return;
      }
      var node := store.nodes[name];
      if !node.gpu {
        return;
      }
      if node.xidCritical {
        HandleXidCritical(name, env);
        return;
      }
      if !node.eligible {
        node := node.(eligible := env.bootOk);
        if env.nodeUpdateOk {
          store.nodes := store.nodes[name := node];
        }
      }
    }
  }

  lemma XidReleasesSnoc(recs: seq<NodeRecord>, i: nat, pool: string, name: string, now: Instant)
    requires i < |recs|
    ensures XidReleases(recs[..i + 1], pool, name, now)
         == XidReleases(recs[..i], pool, name, now)
            + if recs[i].nodeName == name then [Release(pool, i, recs[i].launchedAt, now, 0)] else []
  {
    assert recs[..i + 1][..i] == recs[..i];
  }
}
