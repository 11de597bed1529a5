/** Which records are released, how often, and exactly when one is released twice. */
module ReleaseSafety {
  import opened Cluster
  import opened PoolController
  import opened BufferController
  import opened HealthController
  import opened ControlLoop
  import opened CordonSafety
  import opened PoolProperties
  import opened BufferProperties
  import CounterSafety
  import opened Seqs
  import Greedy

  // ---------- The ledger ----------

  /** The released record is there, is not buffered, and its node is out. */
  ghost predicate Gone(s: State, r: Release) {
    && r.pool in s.pools && r.index < |s.pools[r.pool].records|
    && s.pools[r.pool].records[r.index].state != Buffered
    && s.pools[r.pool].records[r.index].launchedAt == r.launchedAt
    && s.pools[r.pool].records[r.index].nodeName != ""
    && Out(s, s.pools[r.pool].records[r.index].nodeName)
  }

  ghost predicate AllGone(s: State, rs: seq<Release>) {
    forall i :: 0 <= i < |rs| ==> Gone(s, rs[i])
  }

  ghost predicate OncePerRecord(rs: seq<Release>) {
    forall i, j :: 0 <= i < j < |rs| ==> rs[i].pool != rs[j].pool || rs[i].index != rs[j].index
  }

  ghost predicate AllPastWindow(rs: seq<Release>) {
    forall i :: 0 <= i < |rs| ==> rs[i].launchedAt + rs[i].window <= rs[i].now
  }

  /** What scale-down has released is gone, was released once, and only past its window. */
  ghost predicate Ledger(s: State) {
    AllGone(s, s.releases) && OncePerRecord(s.releases) && AllPastWindow(s.releases)
  }

  // ---------- What never brings a record back ----------

  /**
   * Records keep their place, launch time and name, none whose node is out becomes buffered, and nodes
   * that are out stay out.
   */
  ghost predicate KeepsRecords(s: State, t: State) {
    && (forall n :: n in s.pools ==> n in t.pools && |s.pools[n].records| <= |t.pools[n].records|)
    && (forall n, i :: n in s.pools && 0 <= i < |s.pools[n].records| ==>
          RecordKept(s, s.pools[n].records[i], t.pools[n].records[i]))
    && (forall n :: Out(s, n) ==> Out(t, n))
  }

  ghost predicate RecordKept(s: State, a: NodeRecord, b: NodeRecord) {
    && b.nodeName == a.nodeName && b.launchedAt == a.launchedAt
    && (b.state == Buffered ==> a.state == Buffered || (a.nodeName in s.nodes && !s.nodes[a.nodeName].unschedulable))
  }

  lemma AllGoneKept(s: State, t: State, rs: seq<Release>)
    requires AllGone(s, rs) && KeepsRecords(s, t)
    ensures AllGone(t, rs)
  {
    forall i | 0 <= i < |rs| ensures Gone(t, rs[i]) {
      assert RecordKept(s, s.pools[rs[i].pool].records[rs[i].index], t.pools[rs[i].pool].records[rs[i].index]);
    }
  }

  lemma PoolStepKeepsRecords(s: State, name: string, env: PoolEnv, order: seq<string>)
    ensures KeepsRecords(s, ReconcilePool(s, name, env, order))
  {
    var t := ReconcilePool(s, name, env, order);
    if name in s.pools {
      assert |s.pools[name].records| <= |t.pools[name].records|;
      forall i | 0 <= i < |s.pools[name].records|
        ensures RecordKept(s, s.pools[name].records[i], t.pools[name].records[i])
      {
      }
    }
  }

  lemma ProvisionKeepsRecords(s: State, name: string, count: int, f: PoolFaults)
    requires count >= 0
    ensures var t := ProvisionPool(s, name, count, f);
            KeepsRecords(s, t) && t.releases == s.releases && t.xidReleases == s.xidReleases
  {
    ProvisionEffect(s, name, count, f);
  }

  lemma {:induction false} ProvisionAllKeepsGone(s: State, plan: seq<Greedy.PlanEntry>, env: BufferEnv, rs: seq<Release>)
    requires AllGone(s, rs) && forall i :: 0 <= i < |plan| ==> plan[i].nodeCount >= 0
    ensures var t := ProvisionAll(s, plan, env);
            AllGone(t, rs) && t.releases == s.releases && t.xidReleases == s.xidReleases
    decreases |plan|
  {
    if plan != [] {
      var e := plan[0];
      var t := ProvisionPool(s, e.poolName, e.nodeCount, env.pool(e.poolName));
      ProvisionKeepsRecords(s, e.poolName, e.nodeCount, env.pool(e.poolName));
      AllGoneKept(s, t, rs);
      ProvisionAllKeepsGone(t, plan[1..], env, rs);
    }
  }

  /** Only uncordoning a node of the log that is still there can bring one of its records back. */
  ghost predicate Frees(s: State, rs: seq<Release>, e: Event) {
    && e.Uncordoned? && e.node in s.nodes
    && exists i :: 0 <= i < |rs| && Gone(s, rs[i]) && s.pools[rs[i].pool].records[rs[i].index].nodeName == e.node
  }

  lemma UncordonIff(s: State, rs: seq<Release>, e: Event)
    requires AllGone(s, rs) && e.Uncordoned?
    ensures AllGone(Apply(s, e), rs) <==> !Frees(s, rs, e)
  {
    var t := Apply(s, e);
    if Frees(s, rs, e) {
      var i :| 0 <= i < |rs| && Gone(s, rs[i]) && s.pools[rs[i].pool].records[rs[i].index].nodeName == e.node;
      assert !Gone(t, rs[i]);
    } else {
      forall i | 0 <= i < |rs| ensures Gone(t, rs[i]) {
        assert Gone(s, rs[i]);
      }
    }
  }

  lemma HealthStepKeepsRecords(s: State, name: string, env: HealthEnv)
    requires Grounded(s)
    ensures KeepsRecords(s, ReconcileNode(s, name, env)) && ReconcileNode(s, name, env).releases == s.releases
  {
    var t := ReconcileNode(s, name, env);
    forall n, i | n in s.pools && 0 <= i < |s.pools[n].records|
      ensures n in t.pools && i < |t.pools[n].records|
      ensures RecordKept(s, s.pools[n].records[i], t.pools[n].records[i])
    {
    }
  }

  /** Every step but uncordoning, scale-down and provisioning keeps the records in this sense. */
  lemma OtherStepKeepsRecords(s: State, e: Event)
    requires Grounded(s) && Enabled(s, e) && !e.BufferReconcile? && !e.Uncordoned?
    ensures KeepsRecords(s, Apply(s, e)) && Apply(s, e).releases == s.releases
  {
    match e
    case PoolReconcile(pool, env, order) => PoolStepKeepsRecords(s, pool, env, order);
    case HealthReconcile(node, env) => HealthStepKeepsRecords(s, node, env);
    case _ =>
  }

  // ---------- The trace of a drain ----------

  /** The entry is for a record that was buffered, past its window, and whose node is now cordoned. */
  ghost predicate TracedRecord(r: Release, name: string, i: nat, rec: NodeRecord, nodes: map<string, Node>) {
    && r.pool == name && i <= r.index && r.launchedAt == rec.launchedAt && r.launchedAt + r.window <= r.now
    && rec.state == Buffered && rec.nodeName != "" && rec.nodeName in nodes && nodes[rec.nodeName].unschedulable
  }

  ghost predicate Traced(r: Release, d: Drain, e: Drain, name: string, i: nat) {
    && r.index < |d.pool.records| && |e.pool.records| == |d.pool.records|
    && TracedRecord(r, name, i, d.pool.records[r.index], e.nodes)
    && (!e.failed ==> e.pool.records[r.index].state == Released)
  }

  /** A record changes, if at all, from buffered to released. */
  ghost predicate Undisturbed(a: NodeRecord, b: NodeRecord) {
    b == a || (a.state == Buffered && b == a.(state := Released))
  }

  /** From the i-th record on, releases are logged in ascending order, and the working copy changes in step. */
  ghost predicate Trace(d: Drain, e: Drain, name: string, i: nat) {
    && |e.pool.records| == |d.pool.records| && KeepsCordons(d.nodes, e.nodes)
    && (forall j :: 0 <= j < |d.pool.records| ==> Undisturbed(d.pool.records[j], e.pool.records[j]))
    && (forall j :: 0 <= j < i && j < |d.pool.records| ==> e.pool.records[j] == d.pool.records[j])
    && d.releases <= e.releases
    && (forall t :: |d.releases| <= t < |e.releases| ==> Traced(e.releases[t], d, e, name, i))
    && (forall t, u :: |d.releases| <= t < u < |e.releases| ==> e.releases[t].index < e.releases[u].index)
  }

  lemma TraceOfOne(d: Drain, name: string, i: nat, window: int, env: BufferEnv)
    requires i < |d.pool.records| && Candidate(d.pool.records[i], window, env.now) && !d.failed
    ensures var e := DrainAndRelease(d, name, i, window, env);
            && Trace(d, e, name, i) && |e.releases| <= |d.releases| + 1
            && (|e.releases| > |d.releases| ==> e.releases[|d.releases|].index == i)
            && (forall j :: 0 <= j < |d.pool.records| && j != i ==> e.pool.records[j] == d.pool.records[j])
  {
  }

  /** One record's trace followed by the trace of the later ones. */
  lemma TraceOfTwo(d: Drain, m: Drain, e: Drain, name: string, i: nat)
    requires Trace(d, m, name, i) && |m.releases| <= |d.releases| + 1 && !m.failed
    requires |m.releases| > |d.releases| ==> m.releases[|d.releases|].index == i
    requires forall j :: 0 <= j < |d.pool.records| && j != i ==> m.pool.records[j] == d.pool.records[j]
    requires Trace(m, e, name, i + 1)
    ensures Trace(d, e, name, i)
  {
    forall t | |d.releases| <= t < |e.releases| ensures Traced(e.releases[t], d, e, name, i) {
      if t < |m.releases| {
        assert e.releases[t] == m.releases[t] && Traced(m.releases[t], d, m, name, i);
      } else {
        assert Traced(e.releases[t], m, e, name, i + 1);
      }
    }
    forall t, u | |d.releases| <= t < u < |e.releases| ensures e.releases[t].index < e.releases[u].index {
      if t < |m.releases| {
        assert e.releases[t] == m.releases[t] && Traced(e.releases[u], m, e, name, i + 1);
      }
    }
    forall j | 0 <= j < |d.pool.records| ensures Undisturbed(d.pool.records[j], e.pool.records[j]) {
      assert Undisturbed(m.pool.records[j], e.pool.records[j]) && Undisturbed(d.pool.records[j], m.pool.records[j]);
    }
  }

  lemma TraceFromNext(d: Drain, next: Drain, e: Drain, name: string, i: nat, window: int, env: BufferEnv)
    requires i < |d.pool.records| && Candidate(d.pool.records[i], window, env.now) && !d.failed
    requires var m := DrainAndRelease(d, name, i, window, env); !m.failed && next == m.(excess := m.excess - 1)
    requires Trace(next, e, name, i + 1)
    ensures Trace(d, e, name, i)
  {
    TraceOfOne(d, name, i, window, env);
    TraceOfTwo(d, next, e, name, i);
  }

  lemma TraceOfNone(d: Drain, name: string, i: nat)
    ensures Trace(d, d, name, i)
  {
  }

  lemma {:induction false} TraceOfDrain(d: Drain, name: string, i: nat, window: int, env: BufferEnv)
    requires !d.failed
    ensures Trace(d, DrainFrom(d, name, i, window, env), name, i)
    decreases |d.pool.records| - i
  {
    if i >= |d.pool.records| || d.excess <= 0 {
      TraceOfNone(d, name, i);
    } else if !Candidate(d.pool.records[i], window, env.now) {
      TraceOfDrain(d, name, i + 1, window, env);
      TraceFromLater(d, DrainFrom(d, name, i + 1, window, env), name, i);
    } else {
      var m := DrainAndRelease(d, name, i, window, env);
      if m.failed {
        TraceOfOne(d, name, i, window, env);
        assert DrainFrom(d, name, i, window, env) == m;
      } else {
        var next := m.(excess := m.excess - 1);
        var e := DrainFrom(next, name, i + 1, window, env);
        assert DrainFrom(d, name, i, window, env) == e;
        TraceOfDrain(next, name, i + 1, window, env);
        TraceFromNext(d, next, e, name, i, window, env);
      }
    }
  }

  lemma TraceFromLater(d: Drain, e: Drain, name: string, i: nat)
    requires Trace(d, e, name, i + 1)
    ensures Trace(d, e, name, i)
  {
    forall t | |d.releases| <= t < |e.releases| ensures Traced(e.releases[t], d, e, name, i) {
      assert Traced(e.releases[t], d, e, name, i + 1);
    }
  }

  // ---------- Which records a pass releases, and when it fails ----------

  /** Draining the record ends with an error: the node cannot be read, or it is there and a call on it fails. */
  predicate Fails(rec: NodeRecord, name: string, k: nat, names: set<string>, env: BufferEnv) {
    var fault := env.drain(name, k);
    rec.nodeName != ""
    && (fault == GetFails || (rec.nodeName in names && fault in {CordonFails, ProviderFails, ReleaseFails}))
  }

  /** Draining the record gets as far as the release: its node is there, and nothing before fails. */
  predicate Calls(rec: NodeRecord, name: string, k: nat, names: set<string>, env: BufferEnv) {
    rec.nodeName != "" && rec.nodeName in names && env.drain(name, k) in {NoFault, ReleaseFails}
  }

  /** Record k is a candidate, the candidates before it leave some excess, and none of them fails. */
  ghost predicate Reached(recs: seq<NodeRecord>, name: string, i: nat, k: nat, excess: int, names: set<string>,
                          window: int, env: BufferEnv) {
    && PaidFor(recs, i, k, excess, window, env.now)
    && forall j :: i <= j < k && Candidate(recs[j], window, env.now) ==> !Fails(recs[j], name, j, names, env)
  }

  lemma ReachedHead(recs: seq<NodeRecord>, after: seq<NodeRecord>, name: string, i: nat, k: nat, excess: int,
                    names: set<string>, window: int, env: BufferEnv)
    requires i < |recs| == |after| && excess > 0 && k >= i && forall j :: i < j < |recs| ==> after[j] == recs[j]
    ensures var cost := if Candidate(recs[i], window, env.now) then 1 else 0;
            Reached(recs, name, i, k, excess, names, window, env)
            <==> if k == i then cost == 1
                 else (cost == 1 ==> !Fails(recs[i], name, i, names, env))
                      && Reached(after, name, i + 1, k, excess - cost, names, window, env)
  {
    if i < k < |recs| {
      BetweenAgrees(recs, after, i + 1, k, window, env.now);
    }
  }

  lemma OneStep(d: Drain, name: string, i: nat, window: int, env: BufferEnv)
    requires i < |d.pool.records| && !d.failed
    ensures var m, rec := DrainAndRelease(d, name, i, window, env), d.pool.records[i];
            && (m.failed <==> Fails(rec, name, i, d.nodes.Keys, env))
            && (Calls(rec, name, i, d.nodes.Keys, env) ==>
                  |m.releases| == |d.releases| + 1 && m.releases[|d.releases|].index == i)
            && (!Calls(rec, name, i, d.nodes.Keys, env) ==> m.releases == d.releases)
            && d.releases <= m.releases && m.nodes.Keys == d.nodes.Keys && m.excess == d.excess
            && forall j :: 0 <= j < |d.pool.records| && j != i ==> m.pool.records[j] == d.pool.records[j]
  {
  }

  ghost predicate Logs(before: seq<Release>, after: seq<Release>, k: nat) {
    exists t :: |before| <= t < |after| && after[t].index == k
  }

  /** A drain fails if and only if it reaches a record that fails. */
  ghost predicate ReachesFailure(recs: seq<NodeRecord>, name: string, i: nat, excess: int, names: set<string>, window: int,
                                 env: BufferEnv) {
    exists k: nat :: Reached(recs, name, i, k, excess, names, window, env) && Fails(recs[k], name, k, names, env)
  }

  lemma {:induction false} DrainFailsIff(d: Drain, name: string, i: nat, window: int, env: BufferEnv)
    requires !d.failed && i <= |d.pool.records|
    ensures DrainFrom(d, name, i, window, env).failed
        <==> ReachesFailure(d.pool.records, name, i, d.excess, d.nodes.Keys, window, env)
    decreases |d.pool.records| - i
  {
    var recs := d.pool.records;
    if i < |recs| && d.excess > 0 {
      var cost := if Candidate(recs[i], window, env.now) then 1 else 0;
      var m := if cost == 1 then DrainAndRelease(d, name, i, window, env) else d;
      var next := m.(excess := d.excess - cost);
      OneStep(d, name, i, window, env);
      if !m.failed {
        DrainFailsIff(next, name, i + 1, window, env);
      }
      FailureHead(recs, next.pool.records, name, i, d.excess, d.nodes.Keys, window, env);
    }
  }

  lemma FailureHead(recs: seq<NodeRecord>, after: seq<NodeRecord>, name: string, i: nat, excess: int,
                    names: set<string>, window: int, env: BufferEnv)
    requires i < |recs| == |after| && excess > 0 && forall j :: i < j < |recs| ==> after[j] == recs[j]
    ensures var cost := if Candidate(recs[i], window, env.now) then 1 else 0;
            ReachesFailure(recs, name, i, excess, names, window, env)
            <==> (cost == 1 && Fails(recs[i], name, i, names, env))
                 || ReachesFailure(after, name, i + 1, excess - cost, names, window, env)
  {
    var cost := if Candidate(recs[i], window, env.now) then 1 else 0;
    if cost == 1 && Fails(recs[i], name, i, names, env) {
      ReachedHead(recs, after, name, i, i, excess, names, window, env);
    } else {
      forall k: nat | k >= i
        ensures Reached(recs, name, i, k, excess, names, window, env)
            <==> if k == i then cost == 1 else Reached(after, name, i + 1, k, excess - cost, names, window, env)
      {
        ReachedHead(recs, after, name, i, k, excess, names, window, env);
      }
    }
  }

  /** A drain calls Release on a record if and only if it reaches it and gets as far as the call. */
  lemma {:induction false} ReleasesIff(d: Drain, name: string, i: nat, window: int, env: BufferEnv, k: nat)
    requires i <= k < |d.pool.records| && !d.failed
    ensures Logs(d.releases, DrainFrom(d, name, i, window, env).releases, k)
        <==> Reached(d.pool.records, name, i, k, d.excess, d.nodes.Keys, window, env)
             && Calls(d.pool.records[k], name, k, d.nodes.Keys, env)
    decreases |d.pool.records| - i
  {
    var recs := d.pool.records;
    if d.excess > 0 {
      if !Candidate(recs[i], window, env.now) {
        NotLoggedLater(d, name, i, window, env);
        ReachedHead(recs, recs, name, i, k, d.excess, d.nodes.Keys, window, env);
        if k > i {
          ReleasesIff(d, name, i + 1, window, env, k);
        }
      } else {
        var m := DrainAndRelease(d, name, i, window, env);
        var next := m.(excess := m.excess - 1);
        OneStep(d, name, i, window, env);
        ReachedHead(recs, next.pool.records, name, i, k, d.excess, d.nodes.Keys, window, env);
        if m.failed {
          LogsAfterOne(d, name, i, window, env, m.releases, k);
        } else {
          NotLoggedLater(next, name, i, window, env);
          LogsAfterOne(d, name, i, window, env, DrainFrom(next, name, i + 1, window, env).releases, k);
          if k > i {
            ReleasesIff(next, name, i + 1, window, env, k);
          }
        }
      }
    }
  }

  /** Later records never log an earlier index. */
  lemma NotLoggedLater(d: Drain, name: string, i: nat, window: int, env: BufferEnv)
    requires !d.failed
    ensures var e := DrainFrom(d, name, i + 1, window, env);
            d.releases <= e.releases && !Logs(d.releases, e.releases, i)
  {
    var e := DrainFrom(d, name, i + 1, window, env);
    TraceOfDrain(d, name, i + 1, window, env);
    forall t | |d.releases| <= t < |e.releases| ensures e.releases[t].index != i {
      assert Traced(e.releases[t], d, e, name, i + 1);
    }
  }

  lemma LogsAfterOne(d: Drain, name: string, i: nat, window: int, env: BufferEnv, log: seq<Release>, k: nat)
    requires i < |d.pool.records| && !d.failed && DrainAndRelease(d, name, i, window, env).releases <= log
    ensures var m := DrainAndRelease(d, name, i, window, env);
            Logs(d.releases, log, k)
            <==> Logs(m.releases, log, k) || (k == i && Calls(d.pool.records[i], name, i, d.nodes.Keys, env))
  {
    var m := DrainAndRelease(d, name, i, window, env);
    OneStep(d, name, i, window, env);
    if |m.releases| > |d.releases| {
      assert log[|d.releases|] == m.releases[|d.releases|];
    }
    if Logs(d.releases, log, k) {
      var t :| |d.releases| <= t < |log| && log[t].index == k;
      assert t >= |m.releases| || t == |d.releases|;
    }
  }

  /** In particular, without faults, on the named candidates whose node is there and that the excess pays for. */
  lemma FaultlessReleasesIff(d: Drain, name: string, window: int, env: BufferEnv, k: nat)
    requires k < |d.pool.records| && !d.failed && forall j: nat :: env.drain(name, j) == NoFault
    ensures var e := DrainFrom(d, name, 0, window, env);
            var rec := d.pool.records[k];
            && !e.failed
            && (Logs(d.releases, e.releases, k)
                <==> rec.state == Buffered && rec.launchedAt + window <= env.now
                     && rec.nodeName != "" && rec.nodeName in d.nodes
                     && CandidatesBetween(d.pool.records, 0, k, window, env.now) < d.excess)
  {
    DrainFailsIff(d, name, 0, window, env);
    ReleasesIff(d, name, 0, window, env, k);
  }

  // ---------- One pass over one pool ----------

  function Start(s: State, name: string, excess: int): Drain
    requires name in s.pools
  {
    Drain(s.pools[name], s.nodes, excess, false, s.releases)
  }

  /** The pool is stored, and a record that the pass reaches fails or the status update does. */
  ghost predicate PassFails(s: State, name: string, excess: int, window: int, env: BufferEnv) {
    name in s.pools
    && (ReachesFailure(s.pools[name].records, name, 0, excess, s.nodes.Keys, window, env) || !env.pool(name).updateOk)
  }

  /** The pass reaches a record on which it calls Release. */
  ghost predicate PassReleases(s: State, name: string, excess: int, window: int, env: BufferEnv) {
    name in s.pools
    && exists k: nat :: Reached(s.pools[name].records, name, 0, k, excess, s.nodes.Keys, window, env)
                     && Calls(s.pools[name].records[k], name, k, s.nodes.Keys, env)
  }

  /** Which faults on which records make a pass fail, and which make it release something. */
  lemma PassInInputs(s: State, name: string, excess: int, window: int, env: BufferEnv)
    ensures var r := ScaleDownPool(s, name, excess, window, env);
            && (r.failed <==> PassFails(s, name, excess, window, env))
            && (r.s.releases != s.releases <==> PassReleases(s, name, excess, window, env))
  {
    if name in s.pools {
      var d := Start(s, name, excess);
      var e := DrainFrom(d, name, 0, window, env);
      DrainFailsIff(d, name, 0, window, env);
      TraceOfDrain(d, name, 0, window, env);
      if e.releases != s.releases {
        var t := |s.releases|;
        assert Traced(e.releases[t], d, e, name, 0);
        ReleasesIff(d, name, 0, window, env, e.releases[t].index);
      }
      if PassReleases(s, name, excess, window, env) {
        var k: nat :| Reached(d.pool.records, name, 0, k, excess, s.nodes.Keys, window, env)
                   && Calls(d.pool.records[k], name, k, s.nodes.Keys, env);
        ReleasesIff(d, name, 0, window, env, k);
      }
    }
  }

  /** The pass keeps the log, the other history, and every record that was gone. */
  lemma PassKeepsGone(s: State, name: string, excess: int, window: int, env: BufferEnv, rs: seq<Release>)
    requires AllGone(s, rs) && Grounded(s)
    ensures var t := ScaleDownPool(s, name, excess, window, env).s;
            && AllGone(t, rs) && Grounded(t) && s.releases <= t.releases
            && t.xidReleases == s.xidReleases && t.policies == s.policies
  {
    if name in s.pools {
      var e := DrainFrom(Start(s, name, excess), name, 0, window, env);
      TraceOfDrain(Start(s, name, excess), name, 0, window, env);
      var t := ScaleDownPool(s, name, excess, window, env).s;
      forall i | 0 <= i < |rs| ensures Gone(t, rs[i]) {
        assert Gone(s, rs[i]);
        if rs[i].pool == name {
          assert Undisturbed(s.pools[name].records[rs[i].index], e.pool.records[rs[i].index]);
        }
      }
    }
  }

  /** The entries a pass adds are for records that were buffered before it. */
  ghost predicate NewOnes(s: State, t: State) {
    && s.releases <= t.releases
    && (forall k :: |s.releases| <= k < |t.releases| ==> NewOne(s, t.releases[k]))
    && (forall k, l :: |s.releases| <= k < l < |t.releases| ==>
          t.releases[k].pool != t.releases[l].pool || t.releases[k].index != t.releases[l].index)
  }

  ghost predicate NewOne(s: State, r: Release) {
    && r.pool in s.pools && r.index < |s.pools[r.pool].records| && s.pools[r.pool].records[r.index].state == Buffered
    && r.launchedAt + r.window <= r.now
  }

  lemma PassAddsNewOnes(s: State, name: string, excess: int, window: int, env: BufferEnv)
    ensures NewOnes(s, ScaleDownPool(s, name, excess, window, env).s)
  {
    if name in s.pools {
      var e := DrainFrom(Start(s, name, excess), name, 0, window, env);
      TraceOfDrain(Start(s, name, excess), name, 0, window, env);
      forall k | |s.releases| <= k < |e.releases| ensures NewOne(s, e.releases[k]) {
        assert Traced(e.releases[k], Start(s, name, excess), e, name, 0);
      }
      forall k, l | |s.releases| <= k < l < |e.releases|
        ensures e.releases[k].pool != e.releases[l].pool || e.releases[k].index != e.releases[l].index
      {
        assert e.releases[k].index < e.releases[l].index;
      }
    }
  }

  /** The ledger with new entries is one if and only if the new records are gone. */
  lemma NewLedgerIff(s: State, t: State)
    requires Ledger(s) && NewOnes(s, t) && AllGone(t, s.releases)
    ensures Ledger(t) <==> forall k :: |s.releases| <= k < |t.releases| ==> Gone(t, t.releases[k])
  {
    forall i, j | 0 <= i < j < |t.releases|
      ensures t.releases[i].pool != t.releases[j].pool || t.releases[i].index != t.releases[j].index
    {
      if j < |s.releases| {
        assert t.releases[i] == s.releases[i] && t.releases[j] == s.releases[j];
      } else if i < |s.releases| {
        assert t.releases[i] == s.releases[i];
      }
    }
    forall i | 0 <= i < |t.releases| ensures t.releases[i].launchedAt + t.releases[i].window <= t.releases[i].now {
      if i < |s.releases| {
        assert t.releases[i] == s.releases[i];
      } else {
        assert NewOne(s, t.releases[i]);
      }
    }
    if forall k :: |s.releases| <= k < |t.releases| ==> Gone(t, t.releases[k]) {
      forall i | 0 <= i < |t.releases| ensures Gone(t, t.releases[i]) {
        if i < |s.releases| {
          assert t.releases[i] == s.releases[i];
        }
      }
    }
  }

  /** After a pass that does not fail, every released record is gone; after one that fails, none is. */
  lemma PassOutcome(s: State, name: string, excess: int, window: int, env: BufferEnv, k: nat)
    requires Grounded(s)
    requires |s.releases| <= k < |ScaleDownPool(s, name, excess, window, env).s.releases|
    ensures var r := ScaleDownPool(s, name, excess, window, env);
            Gone(r.s, r.s.releases[k]) <==> !r.failed
  {
    var d := Start(s, name, excess);
    var e := DrainFrom(d, name, 0, window, env);
    TraceOfDrain(d, name, 0, window, env);
    assert Traced(e.releases[k], d, e, name, 0);
    var i := e.releases[k].index;
    assert Undisturbed(d.pool.records[i], e.pool.records[i]);
  }

  /**
   * The pass calls Release and fails, before or after: it reaches a record that fails, or the update does.
   */
  ghost predicate PassLoses(s: State, name: string, excess: int, window: int, env: BufferEnv) {
    PassReleases(s, name, excess, window, env) && PassFails(s, name, excess, window, env)
  }

  /** One pass over a pool keeps the ledger if and only if it does not call Release and fail. */
  lemma PassKeepsLedgerIff(s: State, name: string, excess: int, window: int, env: BufferEnv)
    requires Grounded(s) && Ledger(s)
    ensures var r := ScaleDownPool(s, name, excess, window, env);
            Ledger(r.s) <==> !PassLoses(s, name, excess, window, env)
  {
    var r := ScaleDownPool(s, name, excess, window, env);
    PassInInputs(s, name, excess, window, env);
    PassKeepsGone(s, name, excess, window, env, s.releases);
    PassAddsNewOnes(s, name, excess, window, env);
    NewLedgerIff(s, r.s);
    forall k | |s.releases| <= k < |r.s.releases| ensures Gone(r.s, r.s.releases[k]) <==> !r.failed {
      PassOutcome(s, name, excess, window, env, k);
    }
    if |r.s.releases| > |s.releases| {
      assert Gone(r.s, r.s.releases[|s.releases|]) <==> !r.failed;
    } else {
      assert r.s.releases == s.releases;
    }
  }

  // ---------- One step ----------

  /**
   * Some pool's pass releases and fails, and the passes before it do not fail; each leaves the excess that its
   * candidates do not use up.
   */
  ghost predicate LosesRelease(s: State, refs: seq<string>, excess: int, window: int, env: BufferEnv)
    decreases |refs|
  {
    refs != []
    && (PassLoses(s, refs[0], excess, window, env)
        || (!PassFails(s, refs[0], excess, window, env)
            && LosesRelease(ScaleDownPool(s, refs[0], excess, window, env).s, refs[1..],
                            Left(s, refs[0], excess, window, env.now), window, env)))
  }

  ghost predicate Loses(s: State, e: Event) {
    e.BufferReconcile? && e.policy in s.policies &&
    var p, env := s.policies[e.policy], e.bufferEnv;
    Need(s, p, env) < 0
    && LosesRelease(s, Answered(p.pools, env.gets.scaleDown), -Need(s, p, env), Window(p.stabilization), env)
  }

  lemma PassLeaves(s: State, name: string, excess: int, window: int, env: BufferEnv)
    requires excess >= 0
    ensures var r := ScaleDownPool(s, name, excess, window, env);
            !r.failed ==> r.excess == Left(s, name, excess, window, env.now) >= 0 && r.s.nodes.Keys == s.nodes.Keys
  {
    if name in s.pools {
      DrainSettlesIff(Start(s, name, excess), name, 0, window, env);
    }
  }

  lemma {:induction false} ScaleDownKeepsLedgerIff(s: State, refs: seq<string>, excess: int, window: int, env: BufferEnv)
    requires Grounded(s) && Ledger(s) && excess >= 0
    ensures Ledger(ScaleDown(s, refs, excess, window, env).s) <==> !LosesRelease(s, refs, excess, window, env)
    decreases |refs|
  {
    if refs != [] {
      PassInInputs(s, refs[0], excess, window, env);
      PassLeaves(s, refs[0], excess, window, env);
      PassKeepsLedgerIff(s, refs[0], excess, window, env);
      PassKeepsGone(s, refs[0], excess, window, env, []);
      var r := ScaleDownPool(s, refs[0], excess, window, env);
      if !r.failed {
        ScaleDownKeepsLedgerIff(r.s, refs[1..], r.excess, window, env);
      }
    }
  }

  /** The same in terms of the state before all passes, when no pool is referred to twice. */
  ghost predicate LosesAtFirst(s: State, refs: seq<string>, excess: int, window: int, env: BufferEnv)
    decreases |refs|
  {
    refs != []
    && (PassLoses(s, refs[0], excess, window, env)
        || (!PassFails(s, refs[0], excess, window, env)
            && LosesAtFirst(s, refs[1..], Left(s, refs[0], excess, window, env.now), window, env)))
  }

  lemma {:induction false} LosesAlike(s: State, t: State, refs: seq<string>, excess: int, window: int, env: BufferEnv)
    requires Alike(s, t, refs)
    ensures LosesAtFirst(s, refs, excess, window, env) <==> LosesAtFirst(t, refs, excess, window, env)
    decreases |refs|
  {
    if refs != [] {
      AlikeTail(s, t, refs);
      LosesAlike(s, t, refs[1..], Left(s, refs[0], excess, window, env.now), window, env);
    }
  }

  lemma {:induction false} LosesInInputs(s: State, refs: seq<string>, excess: int, window: int, env: BufferEnv)
    requires NoDuplicates(refs) && excess >= 0
    ensures LosesRelease(s, refs, excess, window, env) <==> LosesAtFirst(s, refs, excess, window, env)
    decreases |refs|
  {
    if refs != [] && !PassFails(s, refs[0], excess, window, env) {
      var r := ScaleDownPool(s, refs[0], excess, window, env);
      var tail, left := refs[1..], Left(s, refs[0], excess, window, env.now);
      PassInInputs(s, refs[0], excess, window, env);
      PassLeaves(s, refs[0], excess, window, env);
      assert forall i :: 0 <= i < |tail| ==> tail[i] == refs[i + 1];
      LosesInInputs(r.s, tail, left, window, env);
      LosesAlike(s, r.s, tail, left, window, env);
    }
  }

  lemma BufferKeepsLedgerIff(s: State, name: string, env: BufferEnv, plan: seq<Greedy.PlanEntry>)
    requires Grounded(s) && Ledger(s) && Planned(s, name, env, plan)
    ensures Ledger(ReconcilePolicy(s, name, env, plan)) <==> !Loses(s, BufferReconcile(name, env, plan))
  {
    if name in s.policies {
      var p := s.policies[name];
      var need := Need(s, p, env);
      if need > 0 {
        PlanIsPositive(s, p, env, plan);
        ProvisionAllKeepsGone(s, plan, env, s.releases);
      } else if need < 0 {
        ScaleDownKeepsLedgerIff(s, Answered(p.pools, env.gets.scaleDown), -need, Window(p.stabilization), env);
      }
    }
  }

  /** No pool's pass calls Release and fails, and no released node that is still there is uncordoned. */
  ghost predicate Careful(s: State, e: Event) {
    !Loses(s, e) && !Frees(s, s.releases, e)
  }

  /** Every step keeps the ledger if and only if it is careful. */
  lemma StepKeepsLedgerIff(s: State, e: Event)
    requires Grounded(s) && Ledger(s) && Enabled(s, e)
    ensures Ledger(Apply(s, e)) <==> Careful(s, e)
  {
    if e.BufferReconcile? {
      BufferKeepsLedgerIff(s, e.policy, e.bufferEnv, e.plan);
    } else if e.Uncordoned? {
      UncordonIff(s, s.releases, e);
    } else {
      OtherStepKeepsRecords(s, e);
      AllGoneKept(s, Apply(s, e), s.releases);
    }
  }

  // ---------- Whole runs ----------

  ghost predicate CarefulRun(s: State, es: seq<Event>)
    decreases |es|
  {
    es == [] || (Careful(s, es[0]) && CarefulRun(Apply(s, es[0]), es[1..]))
  }

  ghost predicate AlwaysLedger(s: State, es: seq<Event>)
    decreases |es|
  {
    Ledger(s) && (es == [] || AlwaysLedger(Apply(s, es[0]), es[1..]))
  }

  /** The ledger holds throughout a run if and only if every step of it is careful. */
  lemma {:induction false} RunKeepsLedgerIff(s: State, es: seq<Event>)
    requires Grounded(s) && Ledger(s) && ValidRun(s, es)
    ensures AlwaysLedger(s, es) <==> CarefulRun(s, es)
    ensures CarefulRun(s, es) ==> Ledger(Run(s, es))
    decreases |es|
  {
    if es != [] {
      StepKeepsLedgerIff(s, es[0]);
      StepKeepsGrounded(s, es[0]);
      if Careful(s, es[0]) {
        RunKeepsLedgerIff(Apply(s, es[0]), es[1..]);
      }
    }
  }

  /**
   * In every run from the empty cluster in which no pool's pass calls Release and fails and no released
   * node is uncordoned, scale-down releases each record at most once and only past the stabilization window.
   */
  lemma ReleasedAtMostOnce(es: seq<Event>)
    requires ValidRun(Initial(), es) && CarefulRun(Initial(), es)
    ensures OncePerRecord(Run(Initial(), es).releases) && AllPastWindow(Run(Initial(), es).releases)
  {
    RunKeepsLedgerIff(Initial(), es);
  }

  lemma {:induction false} RunSplit(s: State, es: seq<Event>, more: seq<Event>)
    ensures ValidRun(s, es + more) <==> ValidRun(s, es) && ValidRun(Run(s, es), more)
    ensures Run(s, es + more) == Run(Run(s, es), more)
    decreases |es|
  {
    if es == [] {
      assert es + more == more;
    } else {
      assert (es + more)[1..] == es[1..] + more && (es + more)[0] == es[0];
      RunSplit(Apply(s, es[0]), es[1..], more);
    }
  }

  /**
   * After such a run, however the system goes on, as long as nobody uncordons a node: no node that
   * scale-down released is ever counted by a pool again.
   */
  lemma ReleasedNodesNeverCounted(es: seq<Event>, more: seq<Event>, i: nat, pool: string)
    requires ValidRun(Initial(), es + more) && CarefulRun(Initial(), es)
    requires forall k :: 0 <= k < |more| ==> !more[k].Uncordoned?
    requires i < |Run(Initial(), es).releases|
    ensures var s := Run(Initial(), es);
            var r := s.releases[i];
            && r.pool in s.pools && r.index < |s.pools[r.pool].records|
            && var listed := Listed(Run(Initial(), es + more).nodes, pool);
               s.pools[r.pool].records[r.index].nodeName !in ActiveNames(listed) + BufferedNames(listed)
  {
    var s := Run(Initial(), es);
    RunSplit(Initial(), es, more);
    RunKeepsLedgerIff(Initial(), es);
    var r := s.releases[i];
    assert Gone(s, r);
    RunKeepsOut(s, more, s.pools[r.pool].records[r.index].nodeName);
  }

  // ---------- A lost release ----------

  /**
   * When a pass calls Release on a record and fails, whichever record and whichever way it failed, a
   * later pass without faults calls Release on it again if and only if it is still a candidate and the
   * candidates before it leave some excess.
   */
  lemma LostReleaseRepeatsIff(s: State, name: string, excess: int, window: int, env: BufferEnv, k: nat,
                              excess': int, window': int, later: BufferEnv)
    requires name in s.pools && k < |s.pools[name].records| && forall j: nat :: later.drain(name, j) == NoFault
    requires PassFails(s, name, excess, window, env)
    requires Reached(s.pools[name].records, name, 0, k, excess, s.nodes.Keys, window, env)
    requires Calls(s.pools[name].records[k], name, k, s.nodes.Keys, env)
    ensures var first := ScaleDownPool(s, name, excess, window, env).s;
            var second := ScaleDownPool(first, name, excess', window', later).s;
            && (Logs(first.releases, second.releases, k)
                <==> Candidate(s.pools[name].records[k], window', later.now)
                     && CandidatesBetween(s.pools[name].records, 0, k, window', later.now) < excess')
            && (Logs(first.releases, second.releases, k) ==> !OncePerRecord(second.releases))
  {
    var first := ScaleDownPool(s, name, excess, window, env).s;
    var second := ScaleDownPool(first, name, excess', window', later).s;
    var e := DrainFrom(Start(s, name, excess), name, 0, window, env);
    PassInInputs(s, name, excess, window, env);
    ReleasesIff(Start(s, name, excess), name, 0, window, env, k);
    TraceOfDrain(Start(s, name, excess), name, 0, window, env);
    var t :| |s.releases| <= t < |first.releases| && first.releases[t].index == k;
    assert Traced(e.releases[t], Start(s, name, excess), e, name, 0);
    FaultlessReleasesIff(Start(first, name, excess'), name, window', later, k);
    if Logs(first.releases, second.releases, k) {
      var u :| |first.releases| <= u < |second.releases| && second.releases[u].index == k;
      var f := DrainFrom(Start(first, name, excess'), name, 0, window', later);
      TraceOfDrain(Start(first, name, excess'), name, 0, window', later);
      assert Traced(f.releases[u], Start(first, name, excess'), f, name, 0);
      assert second.releases[t] == first.releases[t];
    }
  }

  /** Every node on whose record the pass calls Release bears the pool's label. */
  ghost predicate ReleasesItsOwn(s: State, name: string, excess: int, window: int, env: BufferEnv) {
    name in s.pools ==>
    var recs := s.pools[name].records;
    forall k: nat :: Reached(recs, name, 0, k, excess, s.nodes.Keys, window, env)
                  && Calls(recs[k], name, k, s.nodes.Keys, env)
                  ==> s.nodes[recs[k].nodeName].pool == name
  }

  /**
   * Unless the pool is reconciled in between: after a pass that loses a release, a pool reconcile whose calls
   * succeed restores the ledger if and only if the pass released only nodes that bear the pool's label.
   */
  lemma PoolReconcileHealsIff(s: State, name: string, excess: int, window: int, env: BufferEnv, poolEnv: PoolEnv,
                              order: seq<string>)
    requires Grounded(s) && Ledger(s) && poolEnv.providerOk && poolEnv.listOk && poolEnv.updateOk
    requires PassLoses(s, name, excess, window, env)
    ensures Ledger(ReconcilePool(ScaleDownPool(s, name, excess, window, env).s, name, poolEnv, order))
        <==> ReleasesItsOwn(s, name, excess, window, env)
  {
    var t := ScaleDownPool(s, name, excess, window, env).s;
    var u := ReconcilePool(t, name, poolEnv, order);
    PassInInputs(s, name, excess, window, env);
    PassKeepsGone(s, name, excess, window, env, s.releases);
    PassAddsNewOnes(s, name, excess, window, env);
    PoolStepKeepsRecords(t, name, poolEnv, order);
    AllGoneKept(t, u, s.releases);
    assert NewOnes(s, u);
    NewLedgerIff(s, u);
    forall i | |s.releases| <= i < |u.releases|
      ensures u.releases[i].index < |s.pools[name].records| && s.pools[name].records[u.releases[i].index].nodeName in s.nodes
      ensures Gone(u, u.releases[i]) <==> s.nodes[s.pools[name].records[u.releases[i].index].nodeName].pool == name
    {
      LostRelease(s, name, excess, window, env, i);
      HealedRecord(s, t, name, poolEnv, order, u.releases[i]);
    }
    OwnInLog(s, name, excess, window, env, t.releases);
  }

  /** As it does wherever the counters are safe. */
  lemma SafeReleasesItsOwn(s: State, name: string, excess: int, window: int, env: BufferEnv)
    requires CounterSafety.Safe(s)
    ensures ReleasesItsOwn(s, name, excess, window, env)
  {
    if name in s.pools {
      var recs := s.pools[name].records;
      assert CounterSafety.PoolOk(s, name, s.pools[name]);
      forall k: nat | Reached(recs, name, 0, k, excess, s.nodes.Keys, window, env)
                   && Calls(recs[k], name, k, s.nodes.Keys, env)
        ensures s.nodes[recs[k].nodeName].pool == name
      {
        assert CounterSafety.Homed(s, name, recs[k]);
      }
    }
  }

  /** The release is of a record that is still buffered, of a node that is there and cordoned. */
  ghost predicate Lost(s: State, t: State, name: string, r: Release) {
    && t.pools == s.pools && r.pool == name && name in s.pools && r.index < |s.pools[name].records|
    && var rec := s.pools[name].records[r.index];
       && rec.state == Buffered && rec.launchedAt == r.launchedAt && rec.nodeName != ""
       && rec.nodeName in s.nodes && rec.nodeName in t.nodes
       && t.nodes[rec.nodeName].unschedulable && t.nodes[rec.nodeName].pool == s.nodes[rec.nodeName].pool
  }

  lemma LostRelease(s: State, name: string, excess: int, window: int, env: BufferEnv, i: nat)
    requires ScaleDownPool(s, name, excess, window, env).failed
    requires |s.releases| <= i < |ScaleDownPool(s, name, excess, window, env).s.releases|
    ensures var t := ScaleDownPool(s, name, excess, window, env).s; Lost(s, t, name, t.releases[i])
  {
    var d := Start(s, name, excess);
    var e := DrainFrom(d, name, 0, window, env);
    TraceOfDrain(d, name, 0, window, env);
    assert Traced(e.releases[i], d, e, name, 0);
    CounterSafety.DrainOnlyCordons(s.nodes, name, d, 0, window, env);
  }

  lemma HealedRecord(s: State, t: State, name: string, poolEnv: PoolEnv, order: seq<string>, r: Release)
    requires Lost(s, t, name, r) && t.nodes.Keys <= t.joined
    requires poolEnv.providerOk && poolEnv.listOk && poolEnv.updateOk
    ensures Gone(ReconcilePool(t, name, poolEnv, order), r)
        <==> s.nodes[s.pools[name].records[r.index].nodeName].pool == name
  {
    var rec, listed := s.pools[name].records[r.index], Listed(t.nodes, name);
    assert (t.pools[name].records + Discoveries(name, order))[r.index] == rec;
    assert ReconcilePool(t, name, poolEnv, order).pools[name].records[r.index] == Restate(rec, listed);
  }

  /** The log shows which nodes were released. */
  lemma OwnInLog(s: State, name: string, excess: int, window: int, env: BufferEnv, log: seq<Release>)
    requires name in s.pools && log == DrainFrom(Start(s, name, excess), name, 0, window, env).releases
    requires forall i :: |s.releases| <= i < |log| ==>
               log[i].index < |s.pools[name].records| && s.pools[name].records[log[i].index].nodeName in s.nodes
    ensures ReleasesItsOwn(s, name, excess, window, env)
        <==> forall i :: |s.releases| <= i < |log| ==> s.nodes[s.pools[name].records[log[i].index].nodeName].pool == name
  {
    var d, recs := Start(s, name, excess), s.pools[name].records;
    if ReleasesItsOwn(s, name, excess, window, env) {
      forall i | |s.releases| <= i < |log| ensures s.nodes[recs[log[i].index].nodeName].pool == name {
        ReleasesIff(d, name, 0, window, env, log[i].index);
      }
    } else {
      var k: nat :| Reached(recs, name, 0, k, excess, s.nodes.Keys, window, env)
                 && Calls(recs[k], name, k, s.nodes.Keys, env) && s.nodes[recs[k].nodeName].pool != name;
      ReleasesIff(d, name, 0, window, env, k);
    }
  }
}
