/** Which records scale-down releases, in terms of the policy's own words and the stored records. */
module ReleaseWindows {
  import opened Cluster
  import opened BufferController
  import opened BufferProperties
  import opened ControlLoop
  import opened CordonSafety
  import opened ReleaseSafety
  import opened Seqs
  import Greedy

  /** Since the launch as much time has passed as the policy asks for: what it says, or else ten minutes. */
  predicate Waited(t: DurationText, launchedAt: Instant, now: Instant) {
    match t
    case Written(d) => launchedAt + d <= now
    case Blank => launchedAt + 600000000000 <= now
    case Malformed => launchedAt + 600000000000 <= now
  }

  predicate Due(t: DurationText, rec: NodeRecord, now: Instant) {
    rec.state == Buffered && Waited(t, rec.launchedAt, now)
  }

  lemma DueIsCandidate(t: DurationText, rec: NodeRecord, now: Instant)
    ensures Due(t, rec, now) <==> Candidate(rec, Window(t), now)
  {
  }

  // ---------- Nothing is released early ----------

  /** The later log extends the earlier by releases at this time, of nodes launched long enough ago. */
  ghost predicate LogsPast(before: seq<Release>, after: seq<Release>, window: int, now: Instant) {
    && before <= after
    && forall k :: |before| <= k < |after| ==> after[k].now == now && after[k].launchedAt + window <= now
  }

  lemma LogsPastTwice(a: seq<Release>, b: seq<Release>, c: seq<Release>, window: int, now: Instant)
    requires LogsPast(a, b, window, now) && LogsPast(b, c, window, now)
    ensures LogsPast(a, c, window, now)
  {
    forall k | |a| <= k < |c| ensures c[k].now == now && c[k].launchedAt + window <= now {
      if k < |b| {
        assert c[k] == b[k];
      }
    }
  }

  lemma {:induction false} DrainLogsPast(d: Drain, name: string, i: nat, window: int, env: BufferEnv)
    ensures LogsPast(d.releases, DrainFrom(d, name, i, window, env).releases, window, env.now)
    decreases |d.pool.records| - i
  {
    if i < |d.pool.records| && !d.failed && d.excess > 0 {
      if !Candidate(d.pool.records[i], window, env.now) {
        DrainLogsPast(d, name, i + 1, window, env);
      } else {
        var m := DrainAndRelease(d, name, i, window, env);
        assert LogsPast(d.releases, m.releases, window, env.now);
        if !m.failed {
          var next := m.(excess := m.excess - 1);
          DrainLogsPast(next, name, i + 1, window, env);
          LogsPastTwice(d.releases, m.releases, DrainFrom(next, name, i + 1, window, env).releases, window, env.now);
        }
      }
    }
  }

  lemma {:induction false} ScaleDownLogsPast(s: State, refs: seq<string>, excess: int, window: int, env: BufferEnv)
    ensures LogsPast(s.releases, ScaleDown(s, refs, excess, window, env).s.releases, window, env.now)
    decreases |refs|
  {
    if refs != [] {
      if refs[0] in s.pools {
        DrainLogsPast(Start(s, refs[0], excess), refs[0], 0, window, env);
      }
      var r := ScaleDownPool(s, refs[0], excess, window, env);
      if !r.failed {
        ScaleDownLogsPast(r.s, refs[1..], r.excess, window, env);
        LogsPastTwice(s.releases, r.s.releases, ScaleDown(r.s, refs[1..], r.excess, window, env).s.releases, window, env.now);
      }
    }
  }

  /** The release is by a reconcile of a stored policy, and the node had waited as that policy asks. */
  ghost predicate ReleasedBy(s: State, e: Event, r: Release) {
    && e.BufferReconcile? && e.policy in s.policies
    && r.now == e.bufferEnv.now && Waited(s.policies[e.policy].stabilization, r.launchedAt, r.now)
  }

  /** Every step keeps the log, and adds only releases of nodes that have waited as the reconciled policy asks. */
  lemma StepReleasesPastWindow(s: State, e: Event)
    ensures s.releases <= Apply(s, e).releases
    ensures forall k :: |s.releases| <= k < |Apply(s, e).releases| ==> ReleasedBy(s, e, Apply(s, e).releases[k])
  {
    if e.BufferReconcile? && e.policy in s.policies {
      var p, env := s.policies[e.policy], e.bufferEnv;
      ProvisionAllKeepsNodes(s, e.plan, env);
      ScaleDownLogsPast(s, Answered(p.pools, env.gets.scaleDown), -Need(s, p, env), Window(p.stabilization), env);
    } else if e.HealthReconcile? {
      HealthKeepsLog(s, e);
    } else {
      assert Apply(s, e).releases == s.releases;
    }
  }

  lemma HealthKeepsLog(s: State, e: Event)
    requires e.HealthReconcile?
    ensures Apply(s, e).releases == s.releases
  {
  }

  /** The release at place k of the log was made by the j-th step of the run. */
  ghost predicate MadeBy(s: State, es: seq<Event>, k: nat, j: nat) {
    && j < |es| && k < |Run(s, es).releases|
    && |Run(s, es[..j]).releases| <= k < |Apply(Run(s, es[..j]), es[j]).releases|
    && ReleasedBy(Run(s, es[..j]), es[j], Run(s, es).releases[k])
  }

  lemma {:induction false} RunKeepsLog(s: State, es: seq<Event>)
    ensures s.releases <= Run(s, es).releases
    decreases |es|
  {
    if es != [] {
      StepReleasesPastWindow(s, es[0]);
      RunKeepsLog(Apply(s, es[0]), es[1..]);
    }
  }

  /**
   * In every run, whatever fails and whoever uncordons what, each release by scale-down was made by a reconcile
   * of a policy as it was stored then, and the node had waited as that policy asked.
   */
  lemma {:induction false} ReleasedPastWindow(s: State, es: seq<Event>, k: nat) returns (j: nat)
    requires |s.releases| <= k < |Run(s, es).releases|
    ensures MadeBy(s, es, k, j)
    decreases |es|
  {
    var t, rest := Apply(s, es[0]), es[1..];
    StepReleasesPastWindow(s, es[0]);
    RunKeepsLog(t, rest);
    if k < |t.releases| {
      j := 0;
      assert es[..0] == [] && Run(s, es[..0]) == s;
      assert Run(s, es).releases[k] == t.releases[k];
    } else {
      var i := ReleasedPastWindow(t, rest, k);
      j := i + 1;
      assert es[..j][0] == es[0] && es[..j][1..] == rest[..i];
      assert Run(s, es[..j]) == Run(t, rest[..i]);
    }
  }

  // ---------- Exactly what a reconcile without faults releases ----------

  /** The places below k of the records that are due. */
  function DueBelow(t: DurationText, recs: seq<NodeRecord>, k: nat, now: Instant): set<nat> {
    set i: nat | i < k && i < |recs| && Due(t, recs[i], now)
  }

  /** How many records are due in the pools before the j-th reference. */
  function DueInPools(t: DurationText, s: State, refs: seq<string>, j: nat, now: Instant): nat
    requires j <= |refs|
    decreases j
  {
    if j == 0 then 0
    else
      DueInPools(t, s, refs[1..], j - 1, now)
      + if refs[0] in s.pools then |DueBelow(t, s.pools[refs[0]].records, |s.pools[refs[0]].records|, now)| else 0
  }

  lemma {:induction false} CandidatesSnoc(recs: seq<NodeRecord>, i: nat, k: nat, window: int, now: Instant)
    requires i <= k < |recs|
    ensures CandidatesBetween(recs, i, k + 1, window, now)
         == CandidatesBetween(recs, i, k, window, now) + if Candidate(recs[k], window, now) then 1 else 0
    decreases k - i
  {
    if i < k {
      CandidatesSnoc(recs, i + 1, k, window, now);
    }
  }

  lemma DueOneMore(t: DurationText, recs: seq<NodeRecord>, k: nat, now: Instant)
    requires k < |recs|
    ensures |DueBelow(t, recs, k + 1, now)| == |DueBelow(t, recs, k, now)| + if Due(t, recs[k], now) then 1 else 0
  {
    assert DueBelow(t, recs, k + 1, now) == DueBelow(t, recs, k, now) + if Due(t, recs[k], now) then {k} else {};
  }

  lemma {:induction false} DueIsCount(t: DurationText, recs: seq<NodeRecord>, k: nat, now: Instant)
    requires k <= |recs|
    ensures |DueBelow(t, recs, k, now)| == CandidatesBetween(recs, 0, k, Window(t), now)
    decreases k
  {
    if k == 0 {
      assert DueBelow(t, recs, 0, now) == {};
    } else {
      DueIsCount(t, recs, k - 1, now);
      DueOneMore(t, recs, k - 1, now);
      CandidatesSnoc(recs, 0, k - 1, Window(t), now);
      DueIsCandidate(t, recs[k - 1], now);
    }
  }

  lemma {:induction false} DueAlike(t: DurationText, a: State, b: State, refs: seq<string>, j: nat, now: Instant)
    requires Alike(a, b, refs) && j <= |refs|
    ensures DueInPools(t, a, refs, j, now) == DueInPools(t, b, refs, j, now)
    decreases j
  {
    if j > 0 {
      AlikeTail(a, b, refs);
      DueAlike(t, a, b, refs[1..], j - 1, now);
    }
  }

  /** Release was called on the pool's k-th record. */
  ghost predicate LogsOf(before: seq<Release>, after: seq<Release>, pool: string, k: nat) {
    exists i :: |before| <= i < |after| && after[i].pool == pool && after[i].index == k
  }

  /** The entries a pass or all passes add are for pools they visit. */
  ghost predicate LogsAmong(before: seq<Release>, after: seq<Release>, refs: seq<string>) {
    before <= after && forall i :: |before| <= i < |after| ==> after[i].pool in refs
  }

  lemma PassLogsOwn(s: State, name: string, excess: int, window: int, env: BufferEnv)
    ensures LogsAmong(s.releases, ScaleDownPool(s, name, excess, window, env).s.releases, [name])
  {
    if name in s.pools {
      var d := Start(s, name, excess);
      var e := DrainFrom(d, name, 0, window, env);
      TraceOfDrain(d, name, 0, window, env);
      forall i | |s.releases| <= i < |e.releases| ensures e.releases[i].pool in [name] {
        assert Traced(e.releases[i], d, e, name, 0);
      }
    }
  }

  lemma {:induction false} ScaleDownLogsAmong(s: State, refs: seq<string>, excess: int, window: int, env: BufferEnv)
    ensures LogsAmong(s.releases, ScaleDown(s, refs, excess, window, env).s.releases, refs)
    decreases |refs|
  {
    if refs != [] {
      var r := ScaleDownPool(s, refs[0], excess, window, env);
      PassLogsOwn(s, refs[0], excess, window, env);
      if !r.failed {
        ScaleDownLogsAmong(r.s, refs[1..], r.excess, window, env);
        AmongBoth(s.releases, r.s.releases, ScaleDown(s, refs, excess, window, env).s.releases, refs);
      }
    }
  }

  lemma AmongBoth(a: seq<Release>, b: seq<Release>, c: seq<Release>, refs: seq<string>)
    requires refs != [] && LogsAmong(a, b, [refs[0]]) && LogsAmong(b, c, refs[1..])
    ensures LogsAmong(a, c, refs)
  {
    forall i | |a| <= i < |c| ensures c[i].pool in refs {
      if i < |b| {
        assert c[i] == b[i];
      }
    }
  }

  /** What is logged in two stages is logged in the first or in the second. */
  lemma LogsOfBoth(a: seq<Release>, b: seq<Release>, c: seq<Release>, pool: string, k: nat)
    requires a <= b <= c
    ensures LogsOf(a, c, pool, k) <==> LogsOf(a, b, pool, k) || LogsOf(b, c, pool, k)
  {
    if LogsOf(a, b, pool, k) {
      var i :| |a| <= i < |b| && b[i].pool == pool && b[i].index == k;
      assert c[i] == b[i];
    }
    if LogsOf(a, c, pool, k) {
      var i :| |a| <= i < |c| && c[i].pool == pool && c[i].index == k;
      assert i < |b| ==> b[i] == c[i];
    }
  }

  lemma NotLoggedOutside(a: seq<Release>, b: seq<Release>, refs: seq<string>, pool: string, k: nat)
    requires LogsAmong(a, b, refs) && pool !in refs
    ensures !LogsOf(a, b, pool, k)
  {
  }

  /** The record is due, its node is there, and the due records before it leave some of the excess. */
  ghost predicate ShouldRelease(t: DurationText, s: State, refs: seq<string>, j: nat, k: nat, excess: int, now: Instant) {
    && j < |refs| && refs[j] in s.pools && k < |s.pools[refs[j]].records|
    && var rec := s.pools[refs[j]].records[k];
       && Due(t, rec, now) && rec.nodeName != "" && rec.nodeName in s.nodes
       && DueInPools(t, s, refs, j, now) + |DueBelow(t, s.pools[refs[j]].records, k, now)| < excess
  }

  lemma PassReleasesIff(t: DurationText, s: State, name: string, excess: int, env: BufferEnv, k: nat)
    requires name in s.pools && k < |s.pools[name].records| && Faultless([name], env)
    ensures var r := ScaleDownPool(s, name, excess, Window(t), env);
            && !r.failed
            && (LogsOf(s.releases, r.s.releases, name, k) <==> ShouldRelease(t, s, [name], 0, k, excess, env.now))
  {
    var d := Start(s, name, excess);
    var recs, e := d.pool.records, DrainFrom(d, name, 0, Window(t), env);
    assert [name][0] == name && forall j: nat :: env.drain(name, j) == NoFault;
    FaultlessReleasesIff(d, name, Window(t), env, k);
    DueIsCandidate(t, recs[k], env.now);
    DueIsCount(t, recs, k, env.now);
    PassLogsOwn(s, name, excess, Window(t), env);
    assert LogsOf(s.releases, e.releases, name, k) <==> Logs(s.releases, e.releases, k);
  }

  lemma NothingMissing(t: DurationText, s: State, name: string, excess: int, env: BufferEnv)
    requires excess >= 0 && Faultless([name], env)
    ensures var r := ScaleDownPool(s, name, excess, Window(t), env);
            && !r.failed && r.excess >= 0 && r.s.nodes.Keys == s.nodes.Keys
            && r.excess == Less(excess, DueInPools(t, s, [name], 1, env.now))
  {
    assert [name][0] == name && [name][1..] == [];
    PassLeaves(s, name, excess, Window(t), env);
    if name in s.pools {
      var d := Start(s, name, excess);
      DrainPays(d, name, 0, Window(t), env);
      DueIsCount(t, s.pools[name].records, |s.pools[name].records|, env.now);
    }
  }

  lemma {:induction false} ScaleDownReleasesIff(t: DurationText, s: State, refs: seq<string>, excess: int, env: BufferEnv,
                                                j: nat, k: nat)
    requires NoDuplicates(refs) && Faultless(refs, env) && excess >= 0
    requires j < |refs| && refs[j] in s.pools && k < |s.pools[refs[j]].records|
    ensures LogsOf(s.releases, ScaleDown(s, refs, excess, Window(t), env).s.releases, refs[j], k)
        <==> ShouldRelease(t, s, refs, j, k, excess, env.now)
    decreases |refs|
  {
    var name, tail := refs[0], refs[1..];
    var r := ScaleDownPool(s, name, excess, Window(t), env);
    assert refs[0] == name && forall i :: 0 <= i < |tail| ==> tail[i] == refs[i + 1];
    NothingMissing(t, s, name, excess, env);
    LoggedByFirst(s, refs, excess, Window(t), env, j, k);
    if j == 0 {
      PassReleasesIff(t, s, name, excess, env, k);
    } else {
      ScaleDownReleasesIff(t, r.s, tail, r.excess, env, j - 1, k);
      LaterPools(t, s, r.s, refs, j, k, excess, r.excess, env.now);
    }
  }

  /** The first pool's pass logs its own releases; those of the others are logged later. */
  lemma LoggedByFirst(s: State, refs: seq<string>, excess: int, window: int, env: BufferEnv, j: nat, k: nat)
    requires NoDuplicates(refs) && j < |refs| && !ScaleDownPool(s, refs[0], excess, window, env).failed
    ensures var r := ScaleDownPool(s, refs[0], excess, window, env);
            var later := ScaleDown(r.s, refs[1..], r.excess, window, env).s.releases;
            LogsOf(s.releases, ScaleDown(s, refs, excess, window, env).s.releases, refs[j], k)
            <==> if j == 0 then LogsOf(s.releases, r.s.releases, refs[0], k) else LogsOf(r.s.releases, later, refs[j], k)
  {
    var r := ScaleDownPool(s, refs[0], excess, window, env);
    var later := ScaleDown(r.s, refs[1..], r.excess, window, env).s.releases;
    PassLogsOwn(s, refs[0], excess, window, env);
    ScaleDownLogsAmong(r.s, refs[1..], r.excess, window, env);
    LogsOfBoth(s.releases, r.s.releases, later, refs[j], k);
    if j == 0 {
      NotLoggedOutside(r.s.releases, later, refs[1..], refs[0], k);
    } else {
      NotLoggedOutside(s.releases, r.s.releases, [refs[0]], refs[j], k);
    }
  }

  /** For the later pools it comes to the same whether the first one's due records are counted or paid for. */
  lemma LaterPools(t: DurationText, s: State, after: State, refs: seq<string>, j: nat, k: nat, excess: int, left: int,
                   now: Instant)
    requires 0 < j < |refs| && refs[j] in s.pools && k < |s.pools[refs[j]].records|
    requires Alike(s, after, refs[1..]) && left == Less(excess, DueInPools(t, s, [refs[0]], 1, now))
    ensures ShouldRelease(t, after, refs[1..], j - 1, k, left, now) <==> ShouldRelease(t, s, refs, j, k, excess, now)
  {
    var tail := refs[1..];
    assert tail[j - 1] == refs[j] && [refs[0]][0] == refs[0];
    DueAlike(t, s, after, tail, j - 1, now);
    assert DueInPools(t, s, refs, j, now) == DueInPools(t, s, tail, j - 1, now) + DueInPools(t, s, [refs[0]], 1, now);
  }

  /**
   * A reconcile above its target that meets no fault calls Release on a record of the pools it reads if and only
   * if the record is buffered and has waited as the policy asks, its node is there, and the due records
   * before it, in this pool and in the pools referred to earlier, are fewer than the excess seen.
   */
  lemma ReconcileReleasesIff(s: State, name: string, env: BufferEnv, plan: seq<Greedy.PlanEntry>, j: nat, k: nat)
    requires name in s.policies && NoDuplicates(s.policies[name].pools)
    requires var p := s.policies[name];
             var refs := Answered(p.pools, env.gets.scaleDown);
             && Need(s, p, env) < 0 && Faultless(refs, env)
             && j < |refs| && refs[j] in s.pools && k < |s.pools[refs[j]].records|
    ensures var p := s.policies[name];
            var refs := Answered(p.pools, env.gets.scaleDown);
            LogsOf(s.releases, ReconcilePolicy(s, name, env, plan).releases, refs[j], k)
            <==> ShouldRelease(p.stabilization, s, refs, j, k, SeenWarm(s, p, env) - DesiredWarm(p), env.now)
  {
    var p := s.policies[name];
    var excess := -Need(s, p, env);
    AnsweredAmong(p.pools, env.gets.scaleDown);
    ScaleDownReleasesIff(p.stabilization, s, Answered(p.pools, env.gets.scaleDown), excess, env, j, k);
  }
}
