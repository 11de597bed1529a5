/** Exactly the relabellings that strand a buffered record open the way to a negative counter. */
module Relabelling {
  import opened Cluster
  import opened PoolController
  import opened BufferController
  import opened BufferProperties
  import opened ControlLoop
  import opened CounterSafety
  import opened ReleaseSafety
  import opened ReleaseRuns
  import opened Seqs

  /** Some continuation that strands no record makes a buffered counter negative. */
  ghost predicate CanUnderflow(t: State) {
    exists es, n :: ValidRun(t, es) && NoneStranded(t, es) && Negative(Run(t, es), n)
  }

  ghost predicate Negative(s: State, n: string) {
    n in s.pools && s.pools[n].counts.buffered < 0
  }

  lemma {:induction false} NoRelabelling(s: State, es: seq<Event>)
    requires forall i :: 0 <= i < |es| ==> !es[i].NodeRelabelled?
    ensures NoneStranded(s, es)
    decreases |es|
  {
    if es != [] {
      NoRelabelling(Apply(s, es[0]), es[1..]);
    }
  }

  // ---------- The counter is too small ----------

  /** A buffered record whose node is there but no longer listed under the pool. */
  ghost predicate Stranded(rec: NodeRecord, nodes: map<string, Node>, pool: string) {
    rec.state == Buffered && rec.nodeName in nodes && nodes[rec.nodeName].pool != pool
  }

  /** Rederiving the pool's records does not count it, but leaves it buffered. */
  lemma {:induction false} TallyMisses(recs: seq<NodeRecord>, nodes: map<string, Node>, pool: string, k: nat)
    requires "" !in nodes && (k < |recs| ==> Stranded(recs[k], nodes, pool))
    ensures var listed := Listed(nodes, pool);
            Tally(recs, listed).buffered + (if k < |recs| then 1 else 0)
            <= LiveBuffered(RestateAll(recs, listed), nodes.Keys)
    decreases |recs|
  {
    if recs != [] {
      var listed, init := Listed(nodes, pool), recs[..|recs| - 1];
      TallyMisses(init, nodes, pool, k);
      assert RestateAll(recs, listed)[..|recs| - 1] == RestateAll(init, listed);
    }
  }

  /** Enough excess pays for every live buffered record, once the window of all of them is past. */
  lemma {:induction false} PaysForAll(recs: seq<NodeRecord>, i: nat, excess: int, names: set<string>, now: Instant)
    requires i <= |recs| && excess >= |recs| - i && "" !in names
    requires forall j :: 0 <= j < |recs| ==> recs[j].launchedAt <= now
    ensures LiveBuffered(recs, names) == LiveBuffered(recs[..i], names) + Paid(recs, i, excess, names, 0, now)
    decreases |recs| - i
  {
    if i == |recs| {
      assert recs[..i] == recs;
    } else {
      var cost := if Candidate(recs[i], 0, now) then 1 else 0;
      PaysForAll(recs, i + 1, excess - cost, names, now);
      assert recs[..i + 1][..i] == recs[..i];
    }
  }

  lemma {:induction false} Latest(recs: seq<NodeRecord>) returns (now: Instant)
    ensures forall j :: 0 <= j < |recs| ==> recs[j].launchedAt <= now
    decreases |recs|
  {
    now := 0;
    if recs != [] {
      var rest := Latest(recs[1..]);
      now := if recs[0].launchedAt > rest then recs[0].launchedAt else rest;
      forall j | 0 <= j < |recs| ensures recs[j].launchedAt <= now {
        assert j > 0 ==> recs[j] == recs[1..][j - 1];
      }
    }
  }

  /** Draining all of them leaves the counter less their number. */
  lemma DrainedCounter(u: State, pool: string, now: Instant)
    requires pool in u.pools && "" !in u.nodes
    requires forall j :: 0 <= j < |u.pools[pool].records| ==> u.pools[pool].records[j].launchedAt <= now
    ensures var v := Run(u, DrainSteps(u, pool, |u.pools[pool].records| + 1, 0, now));
            && pool in v.pools
            && v.pools[pool].counts.buffered
               == u.pools[pool].counts.buffered - LiveBuffered(u.pools[pool].records, u.nodes.Keys)
  {
    var recs := u.pools[pool].records;
    var excess := |recs| + 1;
    DrainStepsRun(u, pool, excess, 0, now);
    var d := Start(WithDrainage(u, pool, excess, 0), pool, excess);
    DrainPays(d, pool, 0, 0, NoFaults(now));
    PaysForAll(recs, 0, excess, u.nodes.Keys, now);
    assert recs[..0] == [];
  }

  // ---------- The way to it ----------

  lemma CanReconcile(t: State, pool: string, k: nat) returns (e: Event)
    requires pool in t.pools && k < |t.pools[pool].records| && "" !in t.nodes
    requires Stranded(t.pools[pool].records[k], t.nodes, pool)
    ensures e.PoolReconcile? && Enabled(t, e)
    ensures var u := Apply(t, e);
            && pool in u.pools && "" !in u.nodes
            && u.pools[pool].counts.buffered < LiveBuffered(u.pools[pool].records, u.nodes.Keys)
  {
    var recs, listed := t.pools[pool].records, Listed(t.nodes, pool);
    var order := Enumeration(listed.Keys - KnownNames(recs));
    e := PoolReconcile(pool, AllOk, order);
    var all := recs + Discoveries(pool, order);
    assert all[k] == recs[k];
    TallyMisses(all, t.nodes, pool, k);
  }

  lemma StrandedUnderflows(t: State, pool: string, k: nat)
    requires pool in t.pools && k < |t.pools[pool].records| && "" !in t.nodes
    requires Stranded(t.pools[pool].records[k], t.nodes, pool)
    ensures CanUnderflow(t)
  {
    var e := CanReconcile(t, pool, k);
    var u := Apply(t, e);
    var now := Latest(u.pools[pool].records);
    var drain := DrainSteps(u, pool, |u.pools[pool].records| + 1, 0, now);
    DrainedCounter(u, pool, now);
    DrainStepsRun(u, pool, |u.pools[pool].records| + 1, 0, now);
    OneStepRun(t, e);
    RunSplit(t, [e], drain);
    NoRelabelling(t, [e] + drain);
    assert Negative(Run(t, [e] + drain), pool);
  }

  /**
   * From a state with safe counters, a step opens the way to a negative buffered counter if and only if it
   * moves a node away from a pool that has a buffered record of it.
   */
  lemma UnderflowIff(s: State, e: Event)
    requires Safe(s) && Enabled(s, e)
    ensures CanUnderflow(Apply(s, e)) <==> Strands(s, e)
  {
    var t := Apply(s, e);
    if Strands(s, e) {
      var n, i :| n in s.pools && 0 <= i < |s.pools[n].records| && BufferedRecord(s.pools[n].records[i], e.node);
      assert PoolOk(s, n, s.pools[n]) && Homed(s, n, s.pools[n].records[i]);
      StrandedUnderflows(t, n, i);
    } else {
      StepSafeIff(s, e);
      forall es, n | ValidRun(t, es) && NoneStranded(t, es) ensures !Negative(Run(t, es), n) {
        RunSafeIff(t, es);
        assert n in Run(t, es).pools ==> PoolOk(Run(t, es), n, Run(t, es).pools[n]);
      }
    }
  }
}
