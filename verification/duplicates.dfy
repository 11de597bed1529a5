/** What goes wrong when a policy refers to a pool twice or a pool cannot be read, and that nothing else goes wrong. */
module DuplicateReferences {
  import opened Cluster
  import opened Greedy
  import opened BufferController
  import opened BufferProperties
  import opened Seqs

  // ---------- A single pool, referred to any number of times ----------

  function Copies(refs: seq<string>, n: string): nat {
    if refs == [] then 0 else Copies(refs[1..], n) + if refs[0] == n then 1 else 0
  }

  lemma {:induction false} CopiesAfter(refs: seq<string>, n: string, j: nat)
    requires j < |refs| && refs[j] == n
    ensures Copies(refs, n) >= 1
    decreases |refs|
  {
    if j > 0 {
      CopiesAfter(refs[1..], n, j - 1);
    }
  }

  lemma {:induction false} CopiesOfTwo(refs: seq<string>, i: nat, j: nat)
    requires i < j < |refs| && refs[i] == refs[j]
    ensures Copies(refs, refs[i]) >= 2
    decreases |refs|
  {
    if i == 0 {
      CopiesAfter(refs[1..], refs[0], j - 1);
    } else {
      CopiesOfTwo(refs[1..], i - 1, j - 1);
    }
  }

  /** Every reference to the one stored pool counts its warm nodes again. */
  lemma {:induction false} LoneWarm(pools: map<string, Pool>, refs: seq<string>, n: string)
    requires pools.Keys == {n} && 0 <= WarmOf(pools, n) <= 1
    ensures CountWarm(pools, refs) == if WarmOf(pools, n) == 1 then Copies(refs, n) else 0
    decreases |refs|
  {
    if refs != [] {
      LoneWarm(pools, refs[1..], n);
    }
  }

  /** And offers its whole headroom again. */
  lemma {:induction false} LoneViews(pools: map<string, Pool>, refs: seq<string>, n: string, now: Instant)
    requires pools.Keys == {n}
    ensures |BuildViews(pools, refs, now)| == Copies(refs, n)
    ensures forall i :: 0 <= i < Copies(refs, n) ==> BuildViews(pools, refs, now)[i] == ViewOf(n, pools[n], now)
    decreases |refs|
  {
    if refs != [] {
      LoneViews(pools, refs[1..], n, now);
      if refs[0] == n {
        assert BuildViews(pools, refs, now) == [ViewOf(n, pools[n], now)] + BuildViews(pools, refs[1..], now);
      } else {
        assert BuildViews(pools, refs, now) == BuildViews(pools, refs[1..], now);
      }
    }
  }

  // ---------- The input ----------

  /** A pool with some buffered nodes, room for one more, and no spend ceiling. */
  function LonePool(warm: nat): Pool {
    Pool(PoolSpec(false, 0, Limits(warm + 1, 0.0)), Observed(0, 0.0, ZERO_TIME), NodeCounts(0, warm, 0), [])
  }

  /** The pool n, and a policy that refers to refs and wants some warm nodes. */
  function Example(refs: seq<string>, n: string, warm: nat, want: nat): State {
    State(map[n := LonePool(warm)], map[],
          map["policy" := Policy(Target(false, false, 0.0, want, 0), refs, Blank, 0.0, 0)], {}, [], [])
  }

  /** Nothing fails but some reads and the policy's status update, and launched instances have no name yet. */
  function Answering(count: nat -> bool, views: nat -> bool): BufferEnv {
    BufferEnv(0, Gets(count, views, k => true, k => true),
              n => PoolFaults(true, true, true, true, k => Launched(Handle("", "", 0)), true), (n, i) => NoFault, false)
  }

  function AllAnswered(): BufferEnv {
    Answering(k => true, k => true)
  }

  function OneNode(n: string): PlanEntry {
    PlanEntry(n, 1)
  }

  /** A first view with room for one node takes one. */
  lemma FirstTakesOne(need: int, views: seq<PoolView>)
    requires need >= 1 && views != [] && EffectiveCap(views[0]) == 1
    ensures Allocate(need, views) == [OneNode(views[0].name)] + Allocate(need - 1, views[1..])
  {
    assert Grant(need, views[0]) == 1;
    AllocateHead(need, views);
  }

  /** Among equal views with room for one node each, every node goes to another view. */
  lemma EqualViewsPlan(views: seq<PoolView>, v: PoolView)
    requires |views| >= 2 && EffectiveCap(v) == 1 && forall i :: 0 <= i < |views| ==> views[i] == v
    ensures SortOf(views, views)
    ensures Allocate(1, views) == [OneNode(v.name)]
    ensures Allocate(2, views) == [OneNode(v.name), OneNode(v.name)]
  {
    var rest := views[1..];
    FirstTakesOne(1, views);
    FirstTakesOne(2, views);
    FirstTakesOne(1, rest);
    assert Allocate(0, rest) == [] && Allocate(0, rest[1..]) == [];
  }

  /** The pool has no warm nodes, so none are seen, whatever the count reads. */
  lemma ExampleIsCold(refs: seq<string>, n: string, want: nat, count: nat -> bool)
    ensures CountWarm(Example(refs, n, 0, want).pools, refs) == 0
    ensures var s := Example(refs, n, 0, want);
            SeenWarm(s, s.policies["policy"], Answering(count, k => true)) == 0
  {
    LoneWarm(Example(refs, n, 0, want).pools, refs, n);
    LoneWarm(Example(refs, n, 0, want).pools, Answered(refs, count), n);
  }

  /** Each view of the pool takes one of the wanted nodes. */
  lemma ExamplePlan(refs: seq<string>, n: string, want: nat, count: nat -> bool, plan: seq<PlanEntry>)
    requires Copies(refs, n) >= 2
    requires (want == 1 && plan == [OneNode(n)]) || (want == 2 && plan == [OneNode(n), OneNode(n)])
    ensures Planned(Example(refs, n, 0, want), "policy", Answering(count, k => true), plan)
    ensures CountWarm(Example(refs, n, 0, want).pools, refs) == 0
  {
    ExampleIsCold(refs, n, want, count);
    AnsweredAll(refs, k => true);
    ExampleViews(refs, n, Example(refs, n, 0, want).pools, want, plan);
  }

  lemma ExampleViews(refs: seq<string>, n: string, pools: map<string, Pool>, want: nat, plan: seq<PlanEntry>)
    requires Copies(refs, n) >= 2 && pools == map[n := LonePool(0)]
    requires (want == 1 && plan == [OneNode(n)]) || (want == 2 && plan == [OneNode(n), OneNode(n)])
    ensures IsPlan(plan, want, BuildViews(pools, refs, 0))
  {
    LoneViews(pools, refs, n, 0);
    EqualViewsPlan(BuildViews(pools, refs, 0), ViewOf(n, pools[n], 0));
  }

  /** Provisioning one node of such a pool succeeds, whatever its counters. */
  lemma OneMore(s: State, n: string, env: BufferEnv)
    requires n in s.pools && !s.pools[n].spec.isStatic && s.pools[n].spec.limits.maxHourlyUSD <= 0.0
    requires env.pool(n) == PoolFaults(true, true, true, true, env.pool(n).launch, true) && env.pool(n).launch(0).Launched?
    ensures var t := ProvisionAll(s, [OneNode(n)], env);
            && t == ProvisionPool(s, n, 1, env.pool(n)) && t.pools.Keys == s.pools.Keys
            && t.pools[n].spec == s.pools[n].spec
            && t.pools[n].counts == s.pools[n].counts.(provisioning := s.pools[n].counts.provisioning + 1)
  {
    assert [OneNode(n)][1..] == [];
    ProvisionEffect(s, n, 1, env.pool(n));
    assert Smooth(s, n, 1, env.pool(n));
  }

  // ---------- A pool that is not read ----------

  /** An unread pool with warm nodes is missing from what is seen. */
  lemma {:induction false} SeesLess(pools: map<string, Pool>, refs: seq<string>, got: nat -> bool, k: nat)
    requires NaturalWarm(pools) && k < |refs| && !got(k) && WarmOf(pools, refs[k]) > 0
    ensures CountWarm(pools, Answered(refs, got)) < CountWarm(pools, refs)
    decreases |refs|
  {
    var init, last := refs[..|refs| - 1], refs[|refs| - 1];
    assert refs == init + [last] && WarmOf(pools, last) >= 0;
    CountWarmSnoc(pools, init, last);
    SeenAtMost(pools, init, got);
    if k < |init| {
      SeesLess(pools, init, got, k);
    }
    if got(|refs| - 1) {
      CountWarmSnoc(pools, Answered(init, got), last);
    } else {
      assert Answered(refs, got) == Answered(init, got);
    }
  }

  lemma {:induction false} OnlyOneAnswered(refs: seq<string>, k: nat)
    requires k < |refs|
    ensures Answered(refs, i => i == k) == [refs[k]]
    decreases |refs|
  {
    var init := refs[..|refs| - 1];
    if k < |init| {
      OnlyOneAnswered(init, k);
    } else {
      NoneAnswered(init, k);
    }
  }

  lemma {:induction false} NoneAnswered(refs: seq<string>, k: nat)
    requires |refs| <= k
    ensures Answered(refs, i => i == k) == []
    decreases |refs|
  {
    if refs != [] {
      NoneAnswered(refs[..|refs| - 1], k);
    }
  }

  /** A warmer pool makes the count greater for every reference. */
  lemma {:induction false} LoneGrows(a: map<string, Pool>, b: map<string, Pool>, refs: seq<string>, n: string)
    requires a.Keys == {n} == b.Keys && WarmOf(b, n) > WarmOf(a, n)
    ensures CountWarm(b, refs) >= CountWarm(a, refs) + Copies(refs, n)
    decreases |refs|
  {
    if refs != [] {
      LoneGrows(a, b, refs[1..], n);
    }
  }

  /** At the target already, and provisioning one node all the same. */
  function Unread(refs: seq<string>, k: nat): State
    requires k < |refs|
  {
    var warm := CountWarm(map[refs[k] := LonePool(1)], refs);
    Example(refs, refs[k], 1, if warm < 0 then 0 else warm)
  }

  lemma UnreadProvisions(refs: seq<string>, got: nat -> bool, k: nat)
    requires k < |refs| && !got(k)
    ensures var s, env, plan := Unread(refs, k), Answering(got, i => i == k), [OneNode(refs[k])];
            && CountWarm(s.pools, refs) == DesiredWarm(s.policies["policy"])
            && Planned(s, "policy", env, plan)
            && CountWarm(ReconcilePolicy(s, "policy", env, plan).pools, refs) > DesiredWarm(s.policies["policy"])
  {
    var n := refs[k];
    var s, env, plan := Unread(refs, k), Answering(got, i => i == k), [OneNode(n)];
    SeesLess(s.pools, refs, got, k);
    LoneWarm(s.pools, refs, n);
    OnlyOneAnswered(refs, k);
    UnreadPlan(s.pools, n, Need(s, s.policies["policy"], env));
    OneMore(s, n, env);
    LoneGrows(s.pools, ProvisionAll(s, plan, env).pools, refs, n);
    CopiesAfter(refs, n, k);
  }

  lemma UnreadPlan(pools: map<string, Pool>, n: string, need: int)
    requires need >= 1 && n in pools && pools[n] == LonePool(1)
    ensures IsPlan([OneNode(n)], need, BuildViews(pools, [n], 0))
  {
    var v := ViewOf(n, pools[n], 0);
    assert [n][1..] == [] && BuildViews(pools, [n], 0) == [v];
    AllocateHead(need, [v]);
    assert [v][1..] == [];
    assert SortOf([v], [v]) && Allocate(need, [v]) == [OneNode(n)];
  }

  // ---------- The target ----------

  /** The reconcile leaves the stretch between the warm count and its target. */
  ghost predicate Crosses(refs: seq<string>, s: State, name: string, env: BufferEnv, plan: seq<PlanEntry>) {
    && name in s.policies && s.policies[name].pools == refs && Planned(s, name, env, plan)
    && var before, desired := CountWarm(s.pools, refs), DesiredWarm(s.policies[name]);
       var after := CountWarm(ReconcilePolicy(s, name, env, plan).pools, refs);
       !(before <= after <= desired || desired <= after <= before)
  }

  lemma DoesNotCross(refs: seq<string>, s: State, name: string, env: BufferEnv, plan: seq<PlanEntry>)
    requires NoDuplicates(refs) && AllRead(refs, env.gets.count)
    ensures !Crosses(refs, s, name, env, plan)
  {
    if Crosses(refs, s, name, env, plan) {
      NeverCrossesTarget(s, name, env, plan);
    }
  }

  lemma OvershootsWhenRepeated(refs: seq<string>, count: nat -> bool)
    returns (s: State, name: string, env: BufferEnv, plan: seq<PlanEntry>)
    requires !NoDuplicates(refs)
    ensures name in s.policies && s.policies[name].pools == refs && env.gets.count == count && Planned(s, name, env, plan)
    ensures CountWarm(s.pools, refs) < DesiredWarm(s.policies[name])
    ensures DesiredWarm(s.policies[name]) < CountWarm(ReconcilePolicy(s, name, env, plan).pools, refs)
  {
    var i, j :| 0 <= i < j < |refs| && refs[i] == refs[j];
    var n := refs[i];
    CopiesOfTwo(refs, i, j);
    s, name, env, plan := Example(refs, n, 0, 1), "policy", Answering(count, k => true), [OneNode(n)];
    ExamplePlan(refs, n, 1, count, plan);
    OneMore(s, n, env);
    ExampleIsCold(refs, n, 1, count);
    LoneWarm(ProvisionAll(s, plan, env).pools, refs, n);
  }

  /**
   * No reconcile of a policy with these references, whose count reads these pools, ever crosses its target
   * if and only if the references are distinct and every one of them is read.
   */
  lemma NeverCrossesIff(refs: seq<string>, got: nat -> bool)
    ensures (forall s: State, name: string, env: BufferEnv, plan: seq<PlanEntry> ::
               env.gets.count == got ==> !Crosses(refs, s, name, env, plan))
        <==> NoDuplicates(refs) && AllRead(refs, got)
  {
    if !NoDuplicates(refs) {
      var s, name, env, plan := OvershootsWhenRepeated(refs, got);
      assert Crosses(refs, s, name, env, plan);
    } else if !AllRead(refs, got) {
      var k :| 0 <= k < |refs| && !got(k);
      UnreadProvisions(refs, got, k);
      assert Crosses(refs, Unread(refs, k), "policy", Answering(got, i => i == k), [OneNode(refs[k])]);
    } else {
      forall s: State, name: string, env: BufferEnv, plan: seq<PlanEntry> | env.gets.count == got
        ensures !Crosses(refs, s, name, env, plan)
      {
        DoesNotCross(refs, s, name, env, plan);
      }
    }
  }

  // ---------- The second pass ----------

  /** A pass reaches the target, and a next one still changes something. */
  ghost predicate Restless(refs: seq<string>, s: State, name: string, env: BufferEnv, plan: seq<PlanEntry>,
                           env': BufferEnv, plan': seq<PlanEntry>) {
    && name in s.policies && s.policies[name].pools == refs && Planned(s, name, env, plan)
    && var t := ReconcilePolicy(s, name, env, plan);
       && CountWarm(t.pools, refs) == DesiredWarm(s.policies[name]) && Planned(t, name, env', plan')
       && !OnlyStatus(t, ReconcilePolicy(t, name, env', plan'), name)
  }

  lemma NotRestless(refs: seq<string>, s: State, name: string, env: BufferEnv, plan: seq<PlanEntry>,
                    env': BufferEnv, plan': seq<PlanEntry>)
    requires AllRead(refs, env'.gets.count)
    ensures !Restless(refs, s, name, env, plan, env', plan')
  {
    if Restless(refs, s, name, env, plan, env', plan') {
      SecondPassIsIdle(s, name, env, plan, env', plan');
    }
  }

  lemma UnreadIsRestless(refs: seq<string>, got: nat -> bool, k: nat)
    requires k < |refs| && !got(k)
    ensures Restless(refs, Unread(refs, k), "policy", AllAnswered(), [], Answering(got, i => i == k), [OneNode(refs[k])])
  {
    var s := Unread(refs, k);
    UnreadProvisions(refs, got, k);
    AnsweredAll(refs, AllAnswered().gets.count);
    assert ReconcilePolicy(s, "policy", AllAnswered(), []) == s;
  }

  /** After a pass that reached the target, a next one is always idle iff its count reads every referenced pool. */
  lemma SecondPassIdleIff(refs: seq<string>, got: nat -> bool)
    ensures (forall s: State, name: string, env: BufferEnv, plan: seq<PlanEntry>, env': BufferEnv, plan': seq<PlanEntry> ::
               env'.gets.count == got ==> !Restless(refs, s, name, env, plan, env', plan'))
        <==> AllRead(refs, got)
  {
    if AllRead(refs, got) {
      forall s: State, name: string, env: BufferEnv, plan: seq<PlanEntry>, env': BufferEnv, plan': seq<PlanEntry>
        | env'.gets.count == got
        ensures !Restless(refs, s, name, env, plan, env', plan')
      {
        NotRestless(refs, s, name, env, plan, env', plan');
      }
    } else {
      var k :| 0 <= k < |refs| && !got(k);
      UnreadIsRestless(refs, got, k);
      assert Answering(got, i => i == k).gets.count == got;
    }
  }

  // ---------- The node limit ----------

  /** The reconcile raises a pool past its limits. */
  ghost predicate BreaksLimits(refs: seq<string>, s: State, name: string, env: BufferEnv, plan: seq<PlanEntry>) {
    && name in s.policies && s.policies[name].pools == refs && Planned(s, name, env, plan)
    && !PoolStepOk(s, ReconcilePolicy(s, name, env, plan))
  }

  /** Two views of one pool each carry the full headroom, so two grants pass MaxNodes. */
  lemma LimitBrokenWhenRepeated(refs: seq<string>) returns (s: State, name: string, env: BufferEnv, plan: seq<PlanEntry>)
    requires !NoDuplicates(refs)
    ensures BreaksLimits(refs, s, name, env, plan)
    ensures exists n :: n in s.pools && n in ReconcilePolicy(s, name, env, plan).pools
                     && s.pools[n].counts.Total() <= s.pools[n].spec.limits.maxNodes
                     && ReconcilePolicy(s, name, env, plan).pools[n].counts.Total() > s.pools[n].spec.limits.maxNodes
  {
    var i, j :| 0 <= i < j < |refs| && refs[i] == refs[j];
    var n := refs[i];
    CopiesOfTwo(refs, i, j);
    s, name, env, plan := Example(refs, n, 0, 2), "policy", AllAnswered(), [OneNode(n), OneNode(n)];
    ExamplePlan(refs, n, 2, AllAnswered().gets.count, plan);
    ExampleIsCold(refs, n, 2, AllAnswered().gets.count);
    OneMore(s, n, env);
    var t := ProvisionAll(s, [OneNode(n)], env);
    OneMore(t, n, env);
    assert plan[1..] == [OneNode(n)];
    assert ProvisionAll(s, plan, env) == ProvisionAll(t, [OneNode(n)], env);
  }

  /** No reconcile of a policy with these references ever breaks a limit if and only if they are distinct. */
  lemma LimitsHoldIff(refs: seq<string>)
    ensures (forall s: State, name: string, env: BufferEnv, plan: seq<PlanEntry> :: !BreaksLimits(refs, s, name, env, plan))
        <==> NoDuplicates(refs)
  {
    if NoDuplicates(refs) {
      forall s: State, name: string, env: BufferEnv, plan: seq<PlanEntry> ensures !BreaksLimits(refs, s, name, env, plan) {
        if name in s.policies && s.policies[name].pools == refs && Planned(s, name, env, plan) {
          LimitsHold(s, name, env, plan);
        }
      }
    } else {
      var s, name, env, plan := LimitBrokenWhenRepeated(refs);
      assert BreaksLimits(refs, s, name, env, plan);
    }
  }

  // ---------- How far past the target ----------

  lemma TwinPlan(s: State, n: string, now: Instant, need: int, plan: seq<PlanEntry>)
    requires n in s.pools && 1 <= need <= EffectiveCap(ViewOf(n, s.pools[n], now))
    requires IsPlan(plan, need, BuildViews(s.pools, [n, n], now))
    ensures plan == [PlanEntry(n, need)]
  {
    var v := ViewOf(n, s.pools[n], now);
    assert [n, n][1..] == [n] && [n][1..] == [];
    assert BuildViews(s.pools, [n], now) == [v];
    var views := BuildViews(s.pools, [n, n], now);
    assert views == [v, v];
    var order: seq<PoolView> :| SortOf(order, views) && plan == Allocate(need, order);
    assert |multiset(order)| == |order| && forall i :: 0 <= i < |order| ==> order[i] in multiset(order);
    assert order == [v, v];
    AllocateHead(need, order);
  }

  /**
   * With one pool referenced twice, in every state every node that smoothly closes the gap counts twice,
   * so the warm count passes the target by the whole gap.
   */
  lemma TwinOvershoots(s: State, name: string, n: string, env: BufferEnv, plan: seq<PlanEntry>)
    requires name in s.policies && s.policies[name].pools == [n, n] && Planned(s, name, env, plan)
    requires AllRead([n, n], env.gets.count) && AllRead([n, n], env.gets.views)
    requires var need := DesiredWarm(s.policies[name]) - CountWarm(s.pools, [n, n]);
             && n in s.pools && 1 <= need <= EffectiveCap(ViewOf(n, s.pools[n], env.now))
             && Smooth(s, n, need, env.pool(n))
    ensures var p := s.policies[name];
            var need := DesiredWarm(p) - CountWarm(s.pools, p.pools);
            CountWarm(ReconcilePolicy(s, name, env, plan).pools, p.pools) == DesiredWarm(p) + need
  {
    var need := DesiredWarm(s.policies[name]) - CountWarm(s.pools, [n, n]);
    AnsweredAll([n, n], env.gets.count);
    AnsweredAll([n, n], env.gets.views);
    TwinPlan(s, n, env.now, need, plan);
    ProvisionEffect(s, n, need, env.pool(n));
    var t := ProvisionPool(s, n, need, env.pool(n));
    assert plan[1..] == [];
    assert ProvisionAll(s, plan, env) == t;
    TwinCount(s.pools, n);
    TwinCount(t.pools, n);
  }

  lemma TwinCount(pools: map<string, Pool>, n: string)
    ensures CountWarm(pools, [n, n]) == 2 * WarmOf(pools, n)
  {
    assert [n, n][1..] == [n] && [n][1..] == [];
    assert CountWarm(pools, [n]) == WarmOf(pools, n);
  }
}
