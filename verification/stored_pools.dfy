/** What the buffer controller does with a policy's and a pool's stored figures. */
module StoredPools {
  import opened Cluster
  import opened Greedy
  import opened Reports
  import opened PoolController
  import opened BufferController
  import opened BufferProperties
  import opened Seqs

  // ---------- The target ----------

  /**
   * Without a dynamic target the desired count is the minimum, or 0 if that is negative. With one it is the whole
   * part of the minimum plus k times the demand, as far as both are positive, up to the maximum.
   */
  lemma DesiredFollowsDemand(p: Policy)
    ensures var t, d := p.target, DesiredWarm(p);
            if t.dynamicMode && t.hasDynamic then
              var grown := t.minWarm as real + if t.k > 0.0 && p.demand > 0.0 then t.k * p.demand else 0.0;
              && d <= t.maxWarm
              && (d < t.maxWarm ==> d as real <= grown < d as real + 1.0)
              && (d == t.maxWarm ==> d as real <= grown)
            else
              d == if t.minWarm >= 0 then t.minWarm else 0
  {
    var t := p.target;
    if t.k > 0.0 && p.demand > 0.0 {
      PositiveProduct(t.k, p.demand);
    }
  }

  lemma PositiveProduct(a: real, b: real)
    requires a > 0.0 && b > 0.0
    ensures a * b > 0.0
  {
  }

  // ---------- The plan ----------

  function Nodes(p: Pool): int {
    p.counts.active + p.counts.buffered + p.counts.provisioning
  }

  /** The pool may grow by n nodes: up to its maximum, and by no more than was last reported available. */
  predicate MayGrow(p: Pool, n: nat) {
    && (n == 0 || Nodes(p) + n <= p.spec.limits.maxNodes)
    && (p.observed.available > 0 ==> n <= p.observed.available)
  }

  /** Priority plus hourly price, which counts twice for 15 minutes after the pool lacked capacity. */
  function Dearness(p: Pool, now: Instant): real {
    p.spec.priority as real
    + if now < p.observed.lastICE + 900000000000 then p.observed.hourlyUSD * 2.0 else p.observed.hourlyUSD
  }

  /** The plan's number of nodes for a pool. */
  function GrantOf(plan: seq<PlanEntry>, name: string): nat {
    At(Granted(plan), name)
  }

  lemma {:induction false} ViewOfRef(pools: map<string, Pool>, refs: seq<string>, now: Instant, i: nat) returns (v: nat)
    requires i < |refs| && refs[i] in pools
    ensures v < |BuildViews(pools, refs, now)| && BuildViews(pools, refs, now)[v] == ViewOf(refs[i], pools[refs[i]], now)
    decreases |refs|
  {
    if i == 0 {
      v := 0;
    } else {
      var rest := ViewOfRef(pools, refs[1..], now, i - 1);
      v := rest + if refs[0] in pools then 1 else 0;
    }
  }

  lemma ViewShowsPool(name: string, p: Pool, now: Instant, n: nat)
    ensures MayReceive(ViewOf(name, p, now), n) <==> MayGrow(p, n)
    ensures Cost(ViewOf(name, p, now)) == Dearness(p, now)
  {
  }

  lemma ViewIsRespected(plan: seq<PlanEntry>, need: nat, views: seq<PoolView>, v: nat, n: nat)
    requires Distinct(views) && IsPlan(plan, need, views) && v < |views| && n == GrantOf(plan, views[v].name)
    ensures MayReceive(views[v], n) && Total(Granted(plan), views).nodes <= need
    ensures Total(Granted(plan), views).nodes < need ==> !MayReceive(views[v], n + 1)
  {
    PlanRespectsReports(plan, need, views);
  }

  /**
   * The plan of a reconcile lets every pool it could read grow only as far as its limits and its last report
   * allow. All together they get no more than needed, and if less, then every one of them gets all it may.
   */
  lemma PlanFollowsPools(s: State, p: Policy, env: BufferEnv, plan: seq<PlanEntry>, i: nat, need: nat, n: nat)
    requires NoDuplicates(p.pools) && PlannedFor(s, p, env, plan) && need == Need(s, p, env) > 0
    requires var refs := Answered(p.pools, env.gets.views);
             i < |refs| && refs[i] in s.pools && n == GrantOf(plan, refs[i])
    ensures var pool := s.pools[Answered(p.pools, env.gets.views)[i]];
            var handedOut := Total(Granted(plan), Views(s, p, env)).nodes;
            MayGrow(pool, n) && handedOut <= need && (handedOut < need ==> !MayGrow(pool, n + 1))
  {
    var refs := Answered(p.pools, env.gets.views);
    AnsweredAmong(p.pools, env.gets.views);
    ViewsAreDistinct(s.pools, refs, env.now);
    var v := ViewOfRef(s.pools, refs, env.now, i);
    ViewIsRespected(plan, need, Views(s, p, env), v, n);
    ViewShowsPool(refs[i], s.pools[refs[i]], env.now, n);
    ViewShowsPool(refs[i], s.pools[refs[i]], env.now, n + 1);
  }

  /** A pool that is less dear gets all it may before a dearer one gets anything. */
  lemma CheaperPoolFirst(s: State, p: Policy, env: BufferEnv, plan: seq<PlanEntry>, i: nat, j: nat)
    requires NoDuplicates(p.pools) && PlannedFor(s, p, env, plan) && Need(s, p, env) > 0
    requires var refs := Answered(p.pools, env.gets.views);
             && i < |refs| && refs[i] in s.pools && j < |refs| && refs[j] in s.pools
             && Dearness(s.pools[refs[i]], env.now) < Dearness(s.pools[refs[j]], env.now)
             && GrantOf(plan, refs[j]) > 0
    ensures var refs := Answered(p.pools, env.gets.views);
            !MayGrow(s.pools[refs[i]], GrantOf(plan, refs[i]) + 1)
  {
    var refs, views := Answered(p.pools, env.gets.views), Views(s, p, env);
    AnsweredAmong(p.pools, env.gets.views);
    ViewsAreDistinct(s.pools, refs, env.now);
    var v := ViewOfRef(s.pools, refs, env.now, i);
    var w := ViewOfRef(s.pools, refs, env.now, j);
    ViewShowsPool(refs[i], s.pools[refs[i]], env.now, GrantOf(plan, refs[i]) + 1);
    ViewShowsPool(refs[j], s.pools[refs[j]], env.now, 0);
    DearerLater(plan, Need(s, p, env), views, v, w);
  }

  lemma DearerLater(plan: seq<PlanEntry>, need: nat, views: seq<PoolView>, v: nat, w: nat)
    requires Distinct(views) && IsPlan(plan, need, views) && v < |views| && w < |views|
    requires Cost(views[v]) < Cost(views[w]) && GrantOf(plan, views[w].name) > 0
    ensures !MayReceive(views[v], GrantOf(plan, views[v].name) + 1)
  {
    CheaperIsFullFirst(plan, need, views, v, w);
  }

  // ---------- Money ----------

  /** So many nodes cost no more per hour than the pool may spend; a node without a price is taken to cost 1. */
  predicate Affordable(p: Pool, nodes: int) {
    var limit := p.spec.limits.maxHourlyUSD;
    limit <= 0.0 || (if p.observed.hourlyUSD > 0.0 then p.observed.hourlyUSD * nodes as real else nodes as real) <= limit
  }

  /** The nodes the API server lists under the pool's label. */
  function LabelledNodes(s: State, name: string): set<string> {
    set n | n in s.nodes && s.nodes[n].pool == name
  }

  /**
   * When the other calls succeed, the nodes are ordered if and only if the pool can afford them on top of all it
   * has, and it is not a static pool whose nodes can be listed and are as many already.
   */
  lemma ProvisionsIff(s: State, name: string, count: int, f: PoolFaults)
    requires count >= 1 && name in s.pools && f.getOk && f.providerOk && f.quoteOk && f.updateOk
    requires forall k: nat :: k < count ==> f.launch(k).Launched?
    ensures var p, t := s.pools[name], ProvisionPool(s, name, count, f);
            && (t != s <==>
                  Affordable(p, Nodes(p) + count) && !(p.spec.isStatic && f.listOk && |LabelledNodes(s, name)| >= count))
            && (t != s ==> name in t.pools && Nodes(t.pools[name]) == Nodes(p) + count)
  {
    ProvisionEffect(s, name, count, f);
    assert Listed(s.nodes, name).Keys == LabelledNodes(s, name);
    SpendIsAffordable(s.pools[name], count);
  }

  lemma SpendIsAffordable(p: Pool, count: int)
    ensures SpendAllowed(p, count) <==> Affordable(p, Nodes(p) + count)
  {
  }

  /** Whatever the references, a pool that a reconcile makes larger can afford what it then has. */
  lemma LargerIsAffordable(s: State, name: string, env: BufferEnv, plan: seq<PlanEntry>, n: string)
    requires Planned(s, name, env, plan) && n in s.pools
    ensures var t := ReconcilePolicy(s, name, env, plan);
            n in t.pools && (Nodes(t.pools[n]) > Nodes(s.pools[n]) ==> Affordable(t.pools[n], Nodes(t.pools[n])))
  {
    CeilingHolds(s, name, env, plan, n);
  }

  // ---------- The policy's status ----------

  function WarmNodes(pools: map<string, Pool>, name: string): int {
    if name in pools then pools[name].counts.buffered + pools[name].counts.provisioning else 0
  }

  /** The status shows what the reconcile left behind, as far as it could be read, and no other policy changes. */
  lemma StatusShowsWarm(s: State, name: string, env: BufferEnv, plan: seq<PlanEntry>)
    requires name in s.policies
    ensures var p, t := s.policies[name], ReconcilePolicy(s, name, env, plan);
            var warm := CountWarm(t.pools, Answered(p.pools, env.gets.recount));
            && t.policies == (if env.statusOk then s.policies[name := p.(currentWarm := warm)] else s.policies)
            && (AllRead(p.pools, env.gets.recount) ==> warm == CountWarm(t.pools, p.pools))
  {
    if AllRead(s.policies[name].pools, env.gets.recount) {
      AnsweredAll(s.policies[name].pools, env.gets.recount);
    }
    RebalanceKeepsPolicies(s, s.policies[name], env, plan);
  }

  /** The warm count of a list is the sum over its references. */
  lemma {:induction false} WarmIsSum(pools: map<string, Pool>, refs: seq<string>, k: nat)
    requires k < |refs|
    ensures CountWarm(pools, refs) == CountWarm(pools, refs[..k]) + WarmNodes(pools, refs[k]) + CountWarm(pools, refs[k + 1..])
    decreases |refs|
  {
    if k > 0 {
      WarmIsSum(pools, refs[1..], k - 1);
      assert refs[..k][1..] == refs[1..][..k - 1] && refs[1..][k..] == refs[k + 1..];
    } else {
      assert refs[..0] == [];
    }
  }

  // ---------- Lack of capacity ----------

  /** A provisioning is told apart as lacking capacity if and only if the first launch that fails does for that reason. */
  lemma {:induction false} IceIff(p: Pool, name: string, i: nat, count: int, launch: nat -> Launch)
    requires i <= count
    ensures LaunchFrom(p, name, i, count, launch).1 == Ice
        <==> exists k: nat :: i <= k < count && launch(k) == OutOfCapacity && LaunchesSucceed(i, k, launch)
    decreases count - i
  {
    if i < count && launch(i).Launched? {
      IceIff(Recorded(p, name, launch(i).handle), name, i + 1, count, launch);
      forall k: nat | i < k < count ensures LaunchesSucceed(i, k, launch) <==> LaunchesSucceed(i + 1, k, launch) {
      }
    } else if i < count {
      assert LaunchesSucceed(i, i, launch);
    }
  }

  /** A report is stored; the last lack of capacity in it makes the pool dearer by its price for 15 minutes. */
  lemma ReportIsFelt(s: State, name: string, env: PoolEnv, order: seq<string>, now: Instant)
    requires name in s.pools && env.providerOk && env.updateOk && env.report.Report?
    ensures var r, q := env.report, ReconcilePool(s, name, env, order).pools[name];
            var last := if r.recentICE != [] then r.recentICE[|r.recentICE| - 1] else s.pools[name].observed.lastICE;
            && q.observed.available == r.available && q.observed.hourlyUSD == r.hourlyUSD && q.spec == s.pools[name].spec
            && Dearness(q, now) == q.spec.priority as real + r.hourlyUSD * if now < last + 900000000000 then 2.0 else 1.0
  {
  }
}
