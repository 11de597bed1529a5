/** Releases by both controllers together, and exactly which steps open the way to a second release of a record. */
module ReleaseRuns {
  import opened Cluster
  import opened PoolController
  import opened BufferController
  import opened HealthController
  import opened ControlLoop
  import opened CordonSafety
  import opened ReleaseSafety
  import opened BufferProperties
  import opened Seqs
  import Greedy

  // ---------- Both controllers together ----------

  ghost predicate Apart(a: seq<Release>, b: seq<Release>) {
    forall i, j :: 0 <= i < |a| && 0 <= j < |b| ==> a[i].pool != b[j].pool || a[i].index != b[j].index
  }

  /** Whatever scale-down or Xid handling released is gone and was released once. */
  ghost predicate JointLedger(s: State) {
    Ledger(s) && AllGone(s, s.xidReleases) && OncePerRecord(s.xidReleases) && Apart(s.releases, s.xidReleases)
  }

  lemma PassKeepsJointIff(s: State, name: string, excess: int, window: int, env: BufferEnv)
    requires Grounded(s) && JointLedger(s)
    ensures var r := ScaleDownPool(s, name, excess, window, env);
            JointLedger(r.s) <==> !PassLoses(s, name, excess, window, env)
  {
    var t := ScaleDownPool(s, name, excess, window, env).s;
    PassKeepsLedgerIff(s, name, excess, window, env);
    PassKeepsGone(s, name, excess, window, env, s.xidReleases);
    PassAddsNewOnes(s, name, excess, window, env);
    forall k, j | 0 <= k < |t.releases| && 0 <= j < |t.xidReleases|
      ensures t.releases[k].pool != t.xidReleases[j].pool || t.releases[k].index != t.xidReleases[j].index
    {
      if k < |s.releases| {
        assert t.releases[k] == s.releases[k];
      } else {
        assert NewOne(s, t.releases[k]) && Gone(s, s.xidReleases[j]);
      }
    }
  }

  lemma {:induction false} ScaleDownKeepsJointIff(s: State, refs: seq<string>, excess: int, window: int, env: BufferEnv)
    requires Grounded(s) && JointLedger(s) && excess >= 0
    ensures JointLedger(ScaleDown(s, refs, excess, window, env).s) <==> !LosesRelease(s, refs, excess, window, env)
    decreases |refs|
  {
    if refs != [] {
      PassInInputs(s, refs[0], excess, window, env);
      PassLeaves(s, refs[0], excess, window, env);
      PassKeepsJointIff(s, refs[0], excess, window, env);
      PassKeepsGone(s, refs[0], excess, window, env, []);
      var r := ScaleDownPool(s, refs[0], excess, window, env);
      if !r.failed {
        ScaleDownKeepsJointIff(r.s, refs[1..], r.excess, window, env);
      }
    }
  }

  lemma JointOfSame(t: State, u: State)
    requires u.pools == t.pools && u.nodes == t.nodes && u.joined == t.joined
    requires u.releases == t.releases && u.xidReleases == t.xidReleases
    ensures JointLedger(u) <==> JointLedger(t)
  {
  }

  lemma BufferKeepsJointIff(s: State, name: string, env: BufferEnv, plan: seq<Greedy.PlanEntry>)
    requires Grounded(s) && JointLedger(s) && Planned(s, name, env, plan)
    ensures JointLedger(ReconcilePolicy(s, name, env, plan)) <==> !Loses(s, BufferReconcile(name, env, plan))
  {
    if name in s.policies {
      var p := s.policies[name];
      var need := Need(s, p, env);
      if need > 0 {
        PlanIsPositive(s, p, env, plan);
        ProvisionAllKeepsGone(s, plan, env, s.releases);
        ProvisionAllKeepsGone(s, plan, env, s.xidReleases);
      } else if need < 0 {
        ScaleDownKeepsJointIff(s, Answered(p.pools, env.gets.scaleDown), -need, Window(p.stabilization), env);
      }
      JointOfSame(Rebalance(s, p, env, plan), ReconcilePolicy(s, name, env, plan));
    }
  }

  // ---------- Xid handling ----------

  ghost predicate Holds(rs: seq<Release>, pool: string, i: nat) {
    exists k :: 0 <= k < |rs| && rs[k].pool == pool && rs[k].index == i
  }

  /** Xid handling releases the pool's i-th record. */
  ghost predicate XidReleasesRecord(s: State, e: Event, i: nat) {
    && e.HealthReconcile? && e.node in s.nodes && s.nodes[e.node].gpu && s.nodes[e.node].xidCritical
    && e.healthEnv.nodeUpdateOk && Reachable(s, s.nodes[e.node].pool, e.healthEnv)
    && i < |s.pools[s.nodes[e.node].pool].records| && s.pools[s.nodes[e.node].pool].records[i].nodeName == e.node
  }

  /** It does so although the record was released before, or the pool, which has it as buffered, is not told. */
  ghost predicate XidRepeats(s: State, e: Event) {
    exists i: nat :: XidReleasesRecord(s, e, i) &&
      var pool := s.nodes[e.node].pool;
      || Holds(s.releases, pool, i) || Holds(s.xidReleases, pool, i)
      || (!e.healthEnv.poolUpdateOk && s.pools[pool].records[i].state == Buffered)
  }

  /** The call is made now, waiting for no window, for a record of the pool that bears the name. */
  ghost predicate CallFor(r: Release, recs: seq<NodeRecord>, pool: string, name: string, now: Instant) {
    r.now == now && r.window == 0 &&
    r.pool == pool && r.index < |recs| && recs[r.index].nodeName == name && r.launchedAt == recs[r.index].launchedAt
  }

  lemma {:induction false} CallAt(recs: seq<NodeRecord>, pool: string, name: string, now: Instant, k: nat)
    requires k < |XidReleases(recs, pool, name, now)|
    ensures CallFor(XidReleases(recs, pool, name, now)[k], recs, pool, name, now)
    decreases |recs|
  {
    var init := recs[..|recs| - 1];
    if k < |XidReleases(init, pool, name, now)| {
      CallAt(init, pool, name, now, k);
    }
  }

  lemma {:induction false} CallsAscend(recs: seq<NodeRecord>, pool: string, name: string, now: Instant, k: nat, l: nat)
    requires k < l < |XidReleases(recs, pool, name, now)|
    ensures XidReleases(recs, pool, name, now)[k].index < XidReleases(recs, pool, name, now)[l].index
    decreases |recs|
  {
    var init := recs[..|recs| - 1];
    if l < |XidReleases(init, pool, name, now)| {
      CallsAscend(init, pool, name, now, k, l);
    } else {
      CallAt(init, pool, name, now, k);
    }
  }

  /** Every record of the node has its call. */
  lemma {:induction false} CallOf(recs: seq<NodeRecord>, pool: string, name: string, now: Instant, i: nat) returns (k: nat)
    requires i < |recs| && recs[i].nodeName == name
    ensures k < |XidReleases(recs, pool, name, now)|
    ensures XidReleases(recs, pool, name, now)[k].pool == pool && XidReleases(recs, pool, name, now)[k].index == i
    decreases |recs|
  {
    var init := recs[..|recs| - 1];
    if i < |init| {
      k := CallOf(init, pool, name, now, i);
    } else {
      k := |XidReleases(init, pool, name, now)|;
    }
  }

  /** What a step of Xid handling appends to the log. */
  ghost function XidCalls(s: State, e: Event): seq<Release> {
    if e.HealthReconcile? && e.node in s.nodes && s.nodes[e.node].gpu && s.nodes[e.node].xidCritical
       && e.healthEnv.nodeUpdateOk && Reachable(s, s.nodes[e.node].pool, e.healthEnv)
    then XidReleases(s.pools[s.nodes[e.node].pool].records, s.nodes[e.node].pool, e.node, e.healthEnv.now)
    else []
  }

  lemma XidAppends(s: State, e: Event)
    requires e.HealthReconcile?
    ensures Apply(s, e).xidReleases == s.xidReleases + XidCalls(s, e)
  {
  }

  /** A call is for a record of the node, and it is gone afterwards unless the pool keeps it as buffered. */
  lemma XidCallIs(s: State, e: Event, k: nat)
    requires Grounded(s) && k < |XidCalls(s, e)|
    ensures var r := XidCalls(s, e)[k];
            && XidReleasesRecord(s, e, r.index) && r.pool == s.nodes[e.node].pool
            && r.now == e.healthEnv.now && r.window == 0
            && (Gone(Apply(s, e), r)
                <==> e.healthEnv.poolUpdateOk || s.pools[r.pool].records[r.index].state != Buffered)
  {
    var pool := s.nodes[e.node].pool;
    CallAt(s.pools[pool].records, pool, e.node, e.healthEnv.now, k);
  }

  lemma XidRecordIsCalled(s: State, e: Event, i: nat) returns (k: nat)
    requires XidReleasesRecord(s, e, i)
    ensures k < |XidCalls(s, e)| && XidCalls(s, e)[k].pool == s.nodes[e.node].pool && XidCalls(s, e)[k].index == i
  {
    var pool := s.nodes[e.node].pool;
    k := CallOf(s.pools[pool].records, pool, e.node, e.healthEnv.now, i);
  }

  /** A repeated call breaks the joint ledger. */
  lemma XidRepeatBreaks(s: State, e: Event)
    requires Grounded(s) && JointLedger(s) && e.HealthReconcile? && XidRepeats(s, e)
    ensures !JointLedger(Apply(s, e))
  {
    var t := Apply(s, e);
    var pool := s.nodes[e.node].pool;
    var i: nat :| XidReleasesRecord(s, e, i)
               && (Holds(s.releases, pool, i) || Holds(s.xidReleases, pool, i)
                   || (!e.healthEnv.poolUpdateOk && s.pools[pool].records[i].state == Buffered));
    var k := XidRecordIsCalled(s, e, i);
    XidAppends(s, e);
    HealthStepKeepsRecords(s, e.node, e.healthEnv);
    var at := |s.xidReleases| + k;
    assert t.xidReleases[at] == XidCalls(s, e)[k];
    if Holds(s.releases, pool, i) || Holds(s.xidReleases, pool, i) {
      TwiceInLogs(s, t, pool, i, at);
      if JointLedger(t) {
        JointOnce(t);
      }
    } else {
      XidCallIs(s, e, k);
      assert !Gone(t, t.xidReleases[at]);
    }
  }

  /** First calls do not: what they are for was released by nobody and is gone. */
  lemma FirstCallsKeep(s: State, e: Event)
    requires Grounded(s) && JointLedger(s) && e.HealthReconcile? && !XidRepeats(s, e)
    ensures JointLedger(Apply(s, e))
  {
    var t := Apply(s, e);
    var calls, n := XidCalls(s, e), |s.xidReleases|;
    XidAppends(s, e);
    HealthStepKeepsRecords(s, e.node, e.healthEnv);
    AllGoneKept(s, t, s.releases);
    AllGoneKept(s, t, s.xidReleases);
    CallsOnce(s, e);
    forall k | 0 <= k < |calls|
      ensures Gone(t, calls[k])
      ensures !Holds(s.releases, calls[k].pool, calls[k].index) && !Holds(s.xidReleases, calls[k].pool, calls[k].index)
    {
      CallIsFirst(s, e, k);
    }
    NewCallsKeep(s, t, calls);
  }

  lemma CallIsFirst(s: State, e: Event, k: nat)
    requires Grounded(s) && e.HealthReconcile? && !XidRepeats(s, e) && k < |XidCalls(s, e)|
    ensures var r := XidCalls(s, e)[k];
            Gone(Apply(s, e), r) && !Holds(s.releases, r.pool, r.index) && !Holds(s.xidReleases, r.pool, r.index)
  {
    XidCallIs(s, e, k);
  }

  lemma NewCallsKeep(s: State, t: State, calls: seq<Release>)
    requires JointLedger(s) && t.releases == s.releases && t.xidReleases == s.xidReleases + calls
    requires AllGone(t, s.releases) && AllGone(t, s.xidReleases) && AllGone(t, calls) && OncePerRecord(calls)
    requires forall k :: 0 <= k < |calls| ==>
               !Holds(s.releases, calls[k].pool, calls[k].index) && !Holds(s.xidReleases, calls[k].pool, calls[k].index)
    ensures JointLedger(t)
  {
    forall j | 0 <= j < |t.xidReleases|
      ensures Gone(t, t.xidReleases[j])
      ensures j >= |s.xidReleases| ==> !Holds(s.releases, t.xidReleases[j].pool, t.xidReleases[j].index)
    {
      if j >= |s.xidReleases| {
        assert t.xidReleases[j] == calls[j - |s.xidReleases|];
      }
    }
  }

  lemma CallsOnce(s: State, e: Event)
    ensures OncePerRecord(XidCalls(s, e))
  {
    var calls := XidCalls(s, e);
    forall k, l | 0 <= k < l < |calls| ensures calls[k].index < calls[l].index {
      var pool := s.nodes[e.node].pool;
      CallsAscend(s.pools[pool].records, pool, e.node, e.healthEnv.now, k, l);
    }
  }

  // ---------- Steps and runs ----------

  /** Nothing is lost, repeated or freed, by either controller. */
  ghost predicate JointlyCareful(s: State, e: Event) {
    Careful(s, e) && !Frees(s, s.xidReleases, e) && !XidRepeats(s, e)
  }

  /** Every step keeps the joint ledger if and only if it is jointly careful. */
  lemma StepKeepsJointIff(s: State, e: Event)
    requires Grounded(s) && JointLedger(s) && Enabled(s, e)
    ensures JointLedger(Apply(s, e)) <==> JointlyCareful(s, e)
  {
    StepKeepsLedgerIff(s, e);
    match e
    case BufferReconcile(policy, env, plan) => BufferKeepsJointIff(s, policy, env, plan);
    case Uncordoned(_) => UncordonIff(s, s.xidReleases, e);
    case HealthReconcile(_, _) =>
      if XidRepeats(s, e) {
        XidRepeatBreaks(s, e);
      } else {
        FirstCallsKeep(s, e);
      }
    case _ =>
      OtherStepKeepsRecords(s, e);
      AllGoneKept(s, Apply(s, e), s.xidReleases);
      assert Apply(s, e).xidReleases == s.xidReleases;
  }

  ghost predicate JointlyCarefulRun(s: State, es: seq<Event>)
    decreases |es|
  {
    es == [] || (JointlyCareful(s, es[0]) && JointlyCarefulRun(Apply(s, es[0]), es[1..]))
  }

  ghost predicate AlwaysJoint(s: State, es: seq<Event>)
    decreases |es|
  {
    JointLedger(s) && (es == [] || AlwaysJoint(Apply(s, es[0]), es[1..]))
  }

  /** The joint ledger holds throughout a run if and only if every step of it is jointly careful. */
  lemma {:induction false} RunKeepsJointIff(s: State, es: seq<Event>)
    requires Grounded(s) && JointLedger(s) && ValidRun(s, es)
    ensures AlwaysJoint(s, es) <==> JointlyCarefulRun(s, es)
    ensures JointlyCarefulRun(s, es) ==> JointLedger(Run(s, es))
    decreases |es|
  {
    if es != [] {
      StepKeepsJointIff(s, es[0]);
      StepKeepsGrounded(s, es[0]);
      if JointlyCareful(s, es[0]) {
        RunKeepsJointIff(Apply(s, es[0]), es[1..]);
      }
    }
  }

  lemma JointOnce(s: State)
    requires JointLedger(s)
    ensures OncePerRecord(s.releases + s.xidReleases)
  {
    var all := s.releases + s.xidReleases;
    forall i, j | 0 <= i < j < |all| ensures all[i].pool != all[j].pool || all[i].index != all[j].index {
      if i < |s.releases| <= j {
        assert all[i] == s.releases[i] && all[j] == s.xidReleases[j - |s.releases|];
      } else if i >= |s.releases| {
        assert all[i] == s.xidReleases[i - |s.releases|] && all[j] == s.xidReleases[j - |s.releases|];
      }
    }
  }

  /** In such a run from the empty cluster both controllers together release each record at most once. */
  lemma ReleasedOnceByEither(es: seq<Event>)
    requires ValidRun(Initial(), es) && JointlyCarefulRun(Initial(), es)
    ensures OncePerRecord(Run(Initial(), es).releases + Run(Initial(), es).xidReleases)
  {
    RunKeepsJointIff(Initial(), es);
    JointOnce(Run(Initial(), es));
  }

  // ---------- Draining a pool ----------

  lemma {:induction false} CarefulSplit(s: State, es: seq<Event>, more: seq<Event>)
    ensures JointlyCarefulRun(s, es + more) <==> JointlyCarefulRun(s, es) && JointlyCarefulRun(Run(s, es), more)
    ensures CarefulRun(s, es + more) <==> CarefulRun(s, es) && CarefulRun(Run(s, es), more)
    decreases |es|
  {
    if es == [] {
      assert es + more == more;
    } else {
      assert (es + more)[1..] == es[1..] + more && (es + more)[0] == es[0];
      CarefulSplit(Apply(s, es[0]), es[1..], more);
    }
  }

  lemma OneStepRun(t: State, e: Event)
    requires Enabled(t, e) && JointlyCareful(t, e)
    ensures ValidRun(t, [e]) && JointlyCarefulRun(t, [e]) && Run(t, [e]) == Apply(t, e)
  {
    assert [e][1..] == [] && Run(Apply(t, e), []) == Apply(t, e);
  }

  lemma StepLast(t: State, es: seq<Event>, e: Event)
    requires ValidRun(t, es) && JointlyCarefulRun(t, es)
    requires Enabled(Run(t, es), e) && JointlyCareful(Run(t, es), e)
    ensures ValidRun(t, es + [e]) && JointlyCarefulRun(t, es + [e]) && Run(t, es + [e]) == Apply(Run(t, es), e)
  {
    OneStepRun(Run(t, es), e);
    RunSplit(t, es, [e]);
    CarefulSplit(t, es, [e]);
  }

  /** A policy that wants to keep so many warm nodes in the pool. */
  function Drainage(pool: string, target: int, window: int): Policy {
    Policy(Target(true, true, 0.0, target, target), [pool], Written(window), 0.0, 0)
  }

  function NoFaults(now: Instant): BufferEnv {
    BufferEnv(now, Gets(k => true, k => true, k => true, k => true),
              n => PoolFaults(true, true, true, true, k => OutOfCapacity, true), (n, i) => NoFault, true)
  }

  /** The policy is written whose reconcile then drains the excess from the pool, without faults. */
  function DrainSteps(t: State, pool: string, excess: int, window: int, now: Instant): seq<Event> {
    [PolicyWritten("drainage", Drainage(pool, CountWarm(t.pools, [pool]) - excess, window)),
     BufferReconcile("drainage", NoFaults(now), [])]
  }

  function WithDrainage(t: State, pool: string, excess: int, window: int): State {
    t.(policies := t.policies["drainage" := Drainage(pool, CountWarm(t.pools, [pool]) - excess, window)])
  }

  lemma NothingFails(s: State, name: string, excess: int, window: int, now: Instant)
    ensures !PassFails(s, name, excess, window, NoFaults(now))
  {
  }

  lemma DrainReconcile(t: State, pool: string, excess: nat, window: int, now: Instant)
    requires excess > 0
    ensures var u, e := WithDrainage(t, pool, excess, window), BufferReconcile("drainage", NoFaults(now), []);
            var v := Apply(u, e);
            var w := ScaleDownPool(u, pool, excess, window, NoFaults(now)).s;
            && Enabled(u, e) && JointlyCareful(u, e)
            && v.pools == w.pools && v.releases == w.releases && v.xidReleases == t.xidReleases
  {
    var u, env := WithDrainage(t, pool, excess, window), NoFaults(now);
    var p := u.policies["drainage"];
    AnsweredAll([pool], env.gets.count);
    AnsweredAll([pool], env.gets.scaleDown);
    assert Need(u, p, env) + excess == 0;
    ScaleDownOnly(u, pool, excess, window, env);
    NothingFails(u, pool, excess, window, now);
    assert [pool][1..] == [];
    assert !LosesRelease(u, [pool], excess, window, env);
  }

  lemma DrainStepsRun(t: State, pool: string, excess: nat, window: int, now: Instant)
    requires excess > 0
    ensures var es, v := DrainSteps(t, pool, excess, window, now), Run(t, DrainSteps(t, pool, excess, window, now));
            var w := ScaleDownPool(WithDrainage(t, pool, excess, window), pool, excess, window, NoFaults(now)).s;
            && ValidRun(t, es) && JointlyCarefulRun(t, es)
            && v.pools == w.pools && v.releases == w.releases && v.xidReleases == t.xidReleases
  {
    var es, u := DrainSteps(t, pool, excess, window, now), WithDrainage(t, pool, excess, window);
    DrainReconcile(t, pool, excess, window, now);
    OneStepRun(t, es[0]);
    StepLast(t, [es[0]], es[1]);
    assert es == [es[0]] + [es[1]];
  }

  // ---------- Repetition ----------

  /** The pool's k-th record is buffered and its node is there. */
  ghost predicate StillDrainable(t: State, pool: string, k: nat) {
    && pool in t.pools && k < |t.pools[pool].records|
    && var rec := t.pools[pool].records[k]; rec.state == Buffered && rec.nodeName != "" && rec.nodeName in t.nodes
  }

  /** Such a record can be released, in careful steps. */
  lemma CanDrain(t: State, pool: string, k: nat) returns (es: seq<Event>)
    requires StillDrainable(t, pool, k)
    ensures ValidRun(t, es) && JointlyCarefulRun(t, es)
    ensures var v := Run(t, es);
            && t.releases <= v.releases && v.xidReleases == t.xidReleases
            && exists i :: |t.releases| <= i < |v.releases| && v.releases[i].pool == pool && v.releases[i].index == k
  {
    var now := t.pools[pool].records[k].launchedAt;
    es := DrainSteps(t, pool, k + 1, 0, now);
    DrainStepsRun(t, pool, k + 1, 0, now);
    var d := Start(WithDrainage(t, pool, k + 1, 0), pool, k + 1);
    FaultlessReleasesIff(d, pool, 0, NoFaults(now), k);
    TraceOfDrain(d, pool, 0, 0, NoFaults(now));
    var e := DrainFrom(d, pool, 0, 0, NoFaults(now));
    var i :| |d.releases| <= i < |e.releases| && e.releases[i].index == k;
    assert Traced(e.releases[i], d, e, pool, 0);
  }

  lemma {:induction false} JointlyCarefulIsCareful(s: State, es: seq<Event>)
    requires JointlyCarefulRun(s, es)
    ensures CarefulRun(s, es)
    decreases |es|
  {
    if es != [] {
      JointlyCarefulIsCareful(Apply(s, es[0]), es[1..]);
    }
  }

  /** Some careful continuation makes scale-down release a record a second time. */
  ghost predicate CanRepeat(t: State) {
    exists es :: ValidRun(t, es) && CarefulRun(t, es) && !OncePerRecord(Run(t, es).releases)
  }

  /** Some jointly careful continuation makes either controller release a record that either has released. */
  ghost predicate CanRepeatJointly(t: State) {
    exists es :: ValidRun(t, es) && JointlyCarefulRun(t, es) && !OncePerRecord(Run(t, es).releases + Run(t, es).xidReleases)
  }

  /** A released record that can be drained can be released again. */
  lemma DrainRepeats(t: State, pool: string, k: nat)
    requires StillDrainable(t, pool, k)
    ensures Holds(t.releases, pool, k) ==> CanRepeat(t)
    ensures Holds(t.releases, pool, k) || Holds(t.xidReleases, pool, k) ==> CanRepeatJointly(t)
  {
    var es := CanDrain(t, pool, k);
    var v := Run(t, es);
    JointlyCarefulIsCareful(t, es);
    var i :| |t.releases| <= i < |v.releases| && v.releases[i].pool == pool && v.releases[i].index == k;
    var all := v.releases + v.xidReleases;
    assert all[i] == v.releases[i];
    if Holds(t.releases, pool, k) {
      var j :| 0 <= j < |t.releases| && t.releases[j].pool == pool && t.releases[j].index == k;
      assert v.releases[j] == t.releases[j] && all[j] == t.releases[j];
    }
    if Holds(t.xidReleases, pool, k) {
      var j :| 0 <= j < |t.xidReleases| && t.xidReleases[j].pool == pool && t.xidReleases[j].index == k;
      assert all[|v.releases| + j] == v.xidReleases[j];
    }
  }

  // ---------- After a loss ----------

  lemma PassLoss(s: State, name: string, excess: int, window: int, env: BufferEnv) returns (pool: string, k: nat)
    requires PassLoses(s, name, excess, window, env)
    ensures var t := ScaleDownPool(s, name, excess, window, env).s;
            Holds(t.releases, pool, k) && StillDrainable(t, pool, k)
  {
    PassInInputs(s, name, excess, window, env);
    var e := DrainFrom(Start(s, name, excess), name, 0, window, env);
    TraceOfDrain(Start(s, name, excess), name, 0, window, env);
    var i := |s.releases|;
    assert s.releases <= e.releases;
    assert Traced(e.releases[i], Start(s, name, excess), e, name, 0);
    pool, k := name, e.releases[i].index;
  }

  lemma {:induction false} ScaleDownLoss(s: State, refs: seq<string>, excess: int, window: int,
                                         env: BufferEnv) returns (pool: string, k: nat)
    requires LosesRelease(s, refs, excess, window, env) && excess >= 0
    ensures var t := ScaleDown(s, refs, excess, window, env).s;
            Holds(t.releases, pool, k) && StillDrainable(t, pool, k)
    decreases |refs|
  {
    var r := ScaleDownPool(s, refs[0], excess, window, env);
    PassInInputs(s, refs[0], excess, window, env);
    PassLeaves(s, refs[0], excess, window, env);
    if r.failed {
      pool, k := PassLoss(s, refs[0], excess, window, env);
    } else {
      pool, k := ScaleDownLoss(r.s, refs[1..], r.excess, window, env);
    }
  }

  lemma LossRepeats(s: State, e: Event)
    requires Loses(s, e)
    ensures CanRepeat(Apply(s, e)) && CanRepeatJointly(Apply(s, e))
  {
    var p, env := s.policies[e.policy], e.bufferEnv;
    var pool, k := ScaleDownLoss(s, Answered(p.pools, env.gets.scaleDown), -Need(s, p, env), Window(p.stabilization), env);
    assert StillDrainable(Apply(s, e), pool, k);
    DrainRepeats(Apply(s, e), pool, k);
  }

  // ---------- After a released node was freed ----------

  const AllOk := PoolEnv(true, NoReport, true, true)

  function Labelled(t: State, node: string, pool: string): State
    requires node in t.nodes
  {
    WithNode(t, node, t.nodes[node].(eligible := true, pool := pool))
  }

  /** A node can be made eligible and labelled with the pool. */
  lemma CanLabel(t: State, node: string, pool: string) returns (es: seq<Event>)
    requires node in t.nodes
    ensures ValidRun(t, es) && JointlyCarefulRun(t, es) && Run(t, es) == Labelled(t, node, pool)
  {
    es := [EligibilitySet(node, true)];
    OneStepRun(t, EligibilitySet(node, true));
    StepLast(t, es, NodeRelabelled(node, pool));
    es := es + [NodeRelabelled(node, pool)];
    assert Run(t, es).nodes == Labelled(t, node, pool).nodes;
  }

  /** A record whose node is there and not cordoned can be made buffered. */
  lemma CanRecover(t: State, pool: string, k: nat) returns (es: seq<Event>)
    requires pool in t.pools && k < |t.pools[pool].records| && t.pools[pool].records[k].nodeName != ""
    requires t.pools[pool].records[k].nodeName in t.nodes && !t.nodes[t.pools[pool].records[k].nodeName].unschedulable
    ensures ValidRun(t, es) && JointlyCarefulRun(t, es)
    ensures var v := Run(t, es);
            StillDrainable(v, pool, k) && v.releases == t.releases && v.xidReleases == t.xidReleases
  {
    var node := t.pools[pool].records[k].nodeName;
    var u := Labelled(t, node, pool);
    var listed := Listed(u.nodes, pool);
    var order := Enumeration(listed.Keys - KnownNames(t.pools[pool].records));
    es := CanLabel(t, node, pool);
    StepLast(t, es, PoolReconcile(pool, AllOk, order));
    es := es + [PoolReconcile(pool, AllOk, order)];
    var rec := t.pools[pool].records[k];
    assert Restate(rec, listed).state == Buffered;
    assert (t.pools[pool].records + Discoveries(pool, order))[k] == rec;
  }

  /** What can be repeated later can be repeated. */
  lemma RepeatsLater(t: State, es: seq<Event>)
    requires ValidRun(t, es) && JointlyCarefulRun(t, es)
    ensures CanRepeat(Run(t, es)) ==> CanRepeat(t)
    ensures CanRepeatJointly(Run(t, es)) ==> CanRepeatJointly(t)
  {
    var v := Run(t, es);
    JointlyCarefulIsCareful(t, es);
    if CanRepeat(v) {
      var more :| ValidRun(v, more) && CarefulRun(v, more) && !OncePerRecord(Run(v, more).releases);
      RunSplit(t, es, more);
      CarefulSplit(t, es, more);
    }
    if CanRepeatJointly(v) {
      var more :| ValidRun(v, more) && JointlyCarefulRun(v, more)
               && !OncePerRecord(Run(v, more).releases + Run(v, more).xidReleases);
      RunSplit(t, es, more);
      CarefulSplit(t, es, more);
    }
  }

  lemma FreedRepeats(s: State, rs: seq<Release>, e: Event)
    requires Frees(s, rs, e)
    ensures rs == s.releases ==> CanRepeat(Apply(s, e))
    ensures rs == s.releases || rs == s.xidReleases ==> CanRepeatJointly(Apply(s, e))
  {
    var t := Apply(s, e);
    var i :| 0 <= i < |rs| && Gone(s, rs[i]) && s.pools[rs[i].pool].records[rs[i].index].nodeName == e.node;
    var es := CanRecover(t, rs[i].pool, rs[i].index);
    var v := Run(t, es);
    assert Holds(rs, rs[i].pool, rs[i].index);
    DrainRepeats(v, rs[i].pool, rs[i].index);
    RepeatsLater(t, es);
  }

  // ---------- After a repeated or lost release by Xid handling ----------

  lemma XidRepeatRepeats(s: State, e: Event)
    requires Grounded(s) && XidRepeats(s, e)
    ensures CanRepeatJointly(Apply(s, e))
  {
    var t, pool := Apply(s, e), s.nodes[e.node].pool;
    var i: nat :| XidReleasesRecord(s, e, i)
               && (Holds(s.releases, pool, i) || Holds(s.xidReleases, pool, i)
                   || (!e.healthEnv.poolUpdateOk && s.pools[pool].records[i].state == Buffered));
    var k := XidRecordIsCalled(s, e, i);
    XidAppends(s, e);
    var at := |s.xidReleases| + k;
    assert t.xidReleases[at] == XidCalls(s, e)[k];
    if Holds(s.releases, pool, i) || Holds(s.xidReleases, pool, i) {
      TwiceInLogs(s, t, pool, i, at);
      assert ValidRun(t, []) && JointlyCarefulRun(t, []) && Run(t, []) == t;
    } else {
      assert Holds(t.xidReleases, pool, i);
      DrainRepeats(t, pool, i);
    }
  }

  lemma TwiceInLogs(s: State, t: State, pool: string, i: nat, at: nat)
    requires Holds(s.releases, pool, i) || Holds(s.xidReleases, pool, i)
    requires t.releases == s.releases && s.xidReleases <= t.xidReleases && |s.xidReleases| <= at < |t.xidReleases|
    requires t.xidReleases[at].pool == pool && t.xidReleases[at].index == i
    ensures !OncePerRecord(t.releases + t.xidReleases)
  {
    var all := t.releases + t.xidReleases;
    assert all[|t.releases| + at] == t.xidReleases[at];
    if Holds(s.releases, pool, i) {
      var l :| 0 <= l < |s.releases| && s.releases[l].pool == pool && s.releases[l].index == i;
      assert all[l] == s.releases[l];
    } else {
      var l :| 0 <= l < |s.xidReleases| && s.xidReleases[l].pool == pool && s.xidReleases[l].index == i;
      assert all[|t.releases| + l] == s.xidReleases[l];
    }
  }

  /** Exactly the steps that are not careful open the way to a second release of a record by scale-down. */
  lemma RepeatIff(s: State, e: Event)
    requires Grounded(s) && Ledger(s) && Enabled(s, e)
    ensures CanRepeat(Apply(s, e)) <==> !Careful(s, e)
  {
    var t := Apply(s, e);
    StepKeepsGrounded(s, e);
    if Loses(s, e) {
      LossRepeats(s, e);
    } else if Frees(s, s.releases, e) {
      FreedRepeats(s, s.releases, e);
    } else {
      StepKeepsLedgerIff(s, e);
      forall es | ValidRun(t, es) && CarefulRun(t, es) ensures OncePerRecord(Run(t, es).releases) {
        RunKeepsLedgerIff(t, es);
      }
    }
  }

  /** Exactly the steps that are not jointly careful open the way to a second release of a record by either controller. */
  lemma JointRepeatIff(s: State, e: Event)
    requires Grounded(s) && JointLedger(s) && Enabled(s, e)
    ensures CanRepeatJointly(Apply(s, e)) <==> !JointlyCareful(s, e)
  {
    var t := Apply(s, e);
    StepKeepsGrounded(s, e);
    if Loses(s, e) {
      LossRepeats(s, e);
    } else if Frees(s, s.releases, e) {
      FreedRepeats(s, s.releases, e);
    } else if Frees(s, s.xidReleases, e) {
      FreedRepeats(s, s.xidReleases, e);
    } else if XidRepeats(s, e) {
      XidRepeatRepeats(s, e);
    } else {
      StepKeepsJointIff(s, e);
      forall es | ValidRun(t, es) && JointlyCarefulRun(t, es)
        ensures OncePerRecord(Run(t, es).releases + Run(t, es).xidReleases)
      {
        RunKeepsJointIff(t, es);
        JointOnce(Run(t, es));
      }
    }
  }
}
