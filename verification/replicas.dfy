/** What endpoint reconciles promise over whole runs: bounds, rollout safety, settling, and where rollouts stall. */
module EndpointRuns {
  import opened Decimal
  import opened EndpointController

  /** The pods, the endpoint object and the controller's memory; the endpoint's name and scaling stay fixed. */
  datatype World = World(pods: Pods, ep: Endpoint, idleSince: map<string, int>)

  datatype Event =
    | Reconciled(env: EndpointEnv)
    | Annotated(annotation: Annotation)
    | SpecChanged(hash: string, engineOk: bool)
    | PodDeleted(pod: string)
    | PodReadiness(pod: string, ready: bool)
    | ForeignPod(pod: string, p: Pod)

  predicate Enabled(w: World, e: Event) {
    match e
    case SpecChanged(hash, _) => hash != ""
    case ForeignPod(n, p) => n !in w.pods && !p.made
    case _ => true
  }

  function Apply(w: World, e: Event): World {
    match e
    case Reconciled(env) =>
      w.(pods := ReconcilePods(w.pods, w.ep, w.idleSince, env),
         idleSince := if w.ep.engineOk then IdleAfter(w.ep, w.idleSince, env.now) else w.idleSince)
    case Annotated(a) => w.(ep := w.ep.(annotation := a))
    case SpecChanged(hash, ok) => w.(ep := w.ep.(hash := hash, engineOk := ok))
    case PodDeleted(n) => w.(pods := w.pods - {n})
    case PodReadiness(n, b) => if n in w.pods then w.(pods := w.pods[n := w.pods[n].(ready := b)]) else w
    case ForeignPod(n, p) => w.(pods := w.pods[n := p])
  }

  ghost predicate ValidRun(w: World, es: seq<Event>)
    decreases |es|
  {
    es == [] || (Enabled(w, es[0]) && ValidRun(Apply(w, es[0]), es[1..]))
  }

  function Run(w: World, es: seq<Event>): World
    decreases |es|
  {
    if es == [] then w else Run(Apply(w, es[0]), es[1..])
  }

  predicate SaneScaling(s: Scaling) {
    0 <= s.minReplicas <= s.maxReplicas
  }

  // ---------- Pod names ----------

  lemma PodNameInjective(ep: string, i: nat, j: nat)
    requires PodName(ep, i) == PodName(ep, j)
    ensures i == j
  {
    var k := |ep + "-replica-"|;
    assert PodName(ep, i)[k..] == Numeral(i) && PodName(ep, j)[k..] == Numeral(j);
    NumeralInjective(i, j);
  }

  /** The names of the indices below m. */
  function Slots(ep: string, m: nat): set<string> {
    if m == 0 then {} else Slots(ep, m - 1) + {PodName(ep, m - 1)}
  }

  lemma {:induction false} SlotsAre(ep: string, m: nat, n: string)
    ensures n in Slots(ep, m) <==> exists i: nat :: i < m && PodName(ep, i) == n
    decreases m
  {
    if m > 0 {
      SlotsAre(ep, m - 1, n);
      assert PodName(ep, m - 1) in Slots(ep, m);
    }
  }

  /** m indices have exactly m names. */
  lemma {:induction false} SlotsCount(ep: string, m: nat)
    ensures |Slots(ep, m)| == m
    decreases m
  {
    if m > 0 {
      SlotsCount(ep, m - 1);
      var last := PodName(ep, m - 1);
      SlotsAre(ep, m - 1, last);
      assert last !in Slots(ep, m - 1) by {
        forall i: nat | i < m - 1 ensures PodName(ep, i) != last {
          if PodName(ep, i) == last {
            PodNameInjective(ep, i, m - 1);
          }
        }
      }
    }
  }

  lemma SubsetCount(a: set<string>, b: set<string>)
    requires a <= b
    ensures |a| <= |b|
  {
    assert b == a + (b - a);
  }

  // ---------- Desired replicas ----------

  /** With sane scaling the desired count neither depends on the clock nor leaves [0, max]: the hold-off delays nothing. */
  lemma DesiredIsTimeless(ep: Endpoint, idleSince: map<string, int>, now: int, idleSince': map<string, int>, now': int)
    requires SaneScaling(ep.scaling)
    ensures Desired(ep, idleSince, now) == Desired(ep, idleSince', now')
    ensures 0 <= Desired(ep, idleSince, now) <= ep.scaling.maxReplicas
    ensures ep.scaling.minReplicas <= Desired(ep, idleSince, now)
    ensures ep.annotation == Replicas(0) ==> Desired(ep, idleSince, now) == ep.scaling.minReplicas
  {
  }

  /** It is the number in [min, max] that is nearest to what the annotation asks for, and min if that is no number. */
  lemma DesiredIsNearest(ep: Endpoint, idleSince: map<string, int>, now: int)
    requires SaneScaling(ep.scaling)
    ensures var d, low, high := Desired(ep, idleSince, now), ep.scaling.minReplicas, ep.scaling.maxReplicas;
            match ep.annotation
            case Replicas(n) =>
              && (low <= n <= high ==> d == n)
              && (n < low ==> d == low)
              && (n > high ==> d == high)
            case Absent => d == low
            case NotANumber => d == low
  {
  }

  /** The controller's memory after reconciles at these times. */
  function IdleSinceAfter(ep: Endpoint, idleSince: map<string, int>, times: seq<int>): map<string, int> {
    if times == [] then idleSince
    else IdleAfter(ep, IdleSinceAfter(ep, idleSince, times[..|times| - 1]), times[|times| - 1])
  }

  /**
   * While an endpoint keeps asking for zero the hold-off counts from the first reconcile that saw it, and only a
   * scaling with a negative minimum makes a difference between during and after; any other number forgets it.
   */
  lemma {:induction false} HoldOffFromFirst(ep: Endpoint, idleSince: map<string, int>, times: seq<int>, now: int, d: int)
    requires ep.annotation == Replicas(0) && ep.scaling.scaleToZeroAfter == After(d)
    requires ep.name !in idleSince && times != []
    ensures var idle, low := IdleSinceAfter(ep, idleSince, times), ep.scaling.minReplicas;
            && idle == idleSince[ep.name := times[0]]
            && Desired(ep, idle, now) == (if now - times[0] < d || low > 0 then low else 0)
            && forall n :: n != 0 ==> IdleAfter(ep.(annotation := Replicas(n)), idle, now) == idleSince
    decreases |times|
  {
    if |times| == 1 {
      assert times[..0] == [];
    } else {
      HoldOffFromFirst(ep, idleSince, times[..|times| - 1], now, d);
    }
  }

  // ---------- The parts of a reconcile ----------

  /** The same pods up to the cold-start mark. */
  ghost predicate SamePods(a: Pods, b: Pods) {
    a.Keys == b.Keys && forall n :: n in a ==> b[n] == a[n].(recorded := b[n].recorded)
  }

  lemma SameCounts(a: Pods, b: Pods, ep: Endpoint)
    requires SamePods(a, b)
    ensures Current(a, ep) == Current(b, ep) && ReadyCurrent(a, ep) == ReadyCurrent(b, ep)
  {
    assert forall n :: n in a ==> b[n].endpoint == a[n].endpoint && b[n].hash == a[n].hash && b[n].ready == a[n].ready;
    assert forall n :: n in Current(a, ep) <==> n in Current(b, ep);
    assert forall n :: n in ReadyCurrent(a, ep) <==> n in ReadyCurrent(b, ep);
  }

  /** Creation keeps every pod and adds only unready pods of the current hash, at indices below desired. */
  ghost predicate OnlyAdds(a: Pods, b: Pods, ep: Endpoint, desired: int, now: int) {
    && (forall n :: n in a ==> n in b && b[n] == a[n])
    && (forall n :: n in b && n !in a ==> b[n] == NewPod(ep, now) && exists i: nat :: i < desired && PodName(ep.name, i) == n)
  }

  lemma {:induction false} CreateOnlyAdds(pods: Pods, ep: Endpoint, i: nat, desired: int, env: EndpointEnv)
    ensures OnlyAdds(pods, CreateFrom(pods, ep, i, desired, env).0, ep, desired, env.now)
    decreases desired - i
  {
    if i < desired && env.create(i) == CreateOk {
      var name := PodName(ep.name, i);
      CreateOnlyAdds(if name in pods then pods else pods[name := NewPod(ep, env.now)], ep, i + 1, desired, env);
    }
  }

  /** If every index below desired is taken, nothing is created. */
  lemma {:induction false} AllTakenCreatesNothing(pods: Pods, ep: Endpoint, i: nat, desired: int, env: EndpointEnv)
    requires forall k: nat :: k < desired ==> PodName(ep.name, k) in pods
    ensures CreateFrom(pods, ep, i, desired, env).0 == pods
    decreases desired - i
  {
    if i < desired && env.create(i) == CreateOk {
      AllTakenCreatesNothing(pods, ep, i + 1, desired, env);
    }
  }

  /** A reconcile is marking, then perhaps creating, then perhaps draining. */
  lemma Anatomy(pods: Pods, ep: Endpoint, idleSince: map<string, int>, env: EndpointEnv)
    returns (marked: Pods, made: Pods, from: nat)
    ensures SamePods(pods, marked)
    ensures made == marked || made == CreateFrom(marked, ep, from, Desired(ep, idleSince, env.now), env).0
    ensures env.listReadyOk ==> from >= |Current(pods, ep)|
    ensures OnlyAdds(marked, made, ep, Desired(ep, idleSince, env.now), env.now)
    ensures var after := ReconcilePods(pods, ep, idleSince, env);
            || after == made
            || (&& after == Drained(made, ep, env.deleteOk)
                && Desired(ep, idleSince, env.now) != 0
                && env.listReadyOk && |ReadyCurrent(pods, ep)| >= Desired(ep, idleSince, env.now))
            || (&& after == Drained(made, ep, env.deleteOk) && Desired(ep, idleSince, env.now) < 0)
    ensures (forall k: nat :: k < Desired(ep, idleSince, env.now) ==> PodName(ep.name, k) in pods) ==> made == marked
  {
    var desired := Desired(ep, idleSince, env.now);
    marked := if ep.engineOk then Marked(pods, ep, env) else pods;
    made, from := marked, |Current(pods, ep)|;
    if ep.engineOk && env.statusOk && desired != 0 {
      var ready := if env.listReadyOk then |ReadyCurrent(pods, ep)| else 0;
      var starting := if env.listReadyOk then |Current(pods, ep)| else 0;
      from := ready + starting;
      made := CreateFrom(marked, ep, from, desired, env).0;
      CreateOnlyAdds(marked, ep, from, desired, env);
      var oldReady := if env.listOldOk then |ReadyOnes(pods, Old(pods, ep))| else 0;
      RolledOutIs(marked, ep, desired, ready, starting, oldReady, env);
      if forall k: nat :: k < desired ==> PodName(ep.name, k) in pods {
        AllTakenCreatesNothing(marked, ep, from, desired, env);
      }
    }
  }

  lemma RolledOutIs(pods: Pods, ep: Endpoint, desired: int, ready: nat, starting: nat, oldReady: nat, env: EndpointEnv)
    ensures var made := CreateFrom(pods, ep, ready + starting, desired, env).0;
            var after := RolledOut(pods, ep, desired, ready, starting, oldReady, env);
            after == made || (after == Drained(made, ep, env.deleteOk) && ready >= desired)
  {
  }

  // ---------- Never more than MaxReplicas ----------

  function Made(pods: Pods): set<string> {
    set n | n in pods && pods[n].made
  }

  ghost predicate Bounded(w: World) {
    SaneScaling(w.ep.scaling) && Made(w.pods) <= Slots(w.ep.name, w.ep.scaling.maxReplicas)
  }

  lemma ReconcileBounded(w: World, env: EndpointEnv)
    requires Bounded(w)
    ensures Bounded(Apply(w, Reconciled(env)))
  {
    var marked, made, _ := Anatomy(w.pods, w.ep, w.idleSince, env);
    var after := ReconcilePods(w.pods, w.ep, w.idleSince, env);
    DesiredIsTimeless(w.ep, w.idleSince, env.now, w.idleSince, env.now);
    forall n | n in Made(after) ensures n in Slots(w.ep.name, w.ep.scaling.maxReplicas) {
      assert n in made && made[n].made;
      if n in marked {
        assert n in Made(w.pods);
      } else {
        SlotsAre(w.ep.name, w.ep.scaling.maxReplicas, n);
      }
    }
  }

  lemma StepBounded(w: World, e: Event)
    requires Bounded(w) && Enabled(w, e)
    ensures Bounded(Apply(w, e))
    ensures Apply(w, e).ep.scaling == w.ep.scaling && Apply(w, e).ep.name == w.ep.name
  {
    if e.Reconciled? {
      ReconcileBounded(w, e.env);
    } else {
      assert Made(Apply(w, e).pods) <= Made(w.pods);
    }
  }

  lemma {:induction false} RunBounded(w: World, es: seq<Event>)
    requires Bounded(w) && ValidRun(w, es)
    ensures Bounded(Run(w, es)) && Run(w, es).ep.scaling == w.ep.scaling
    decreases |es|
  {
    if es != [] {
      StepBounded(w, es[0]);
      RunBounded(Apply(w, es[0]), es[1..]);
    }
  }

  /**
   * Over any run of reconciles, annotation and spec changes, readiness changes and deletions, and whatever
   * calls fail, there are never more than MaxReplicas controller-made pods across all generations.
   */
  lemma NeverAboveMaxReplicas(w: World, es: seq<Event>)
    requires SaneScaling(w.ep.scaling) && Made(w.pods) == {} && ValidRun(w, es)
    ensures |Made(Run(w, es).pods)| <= w.ep.scaling.maxReplicas
  {
    RunBounded(w, es);
    var v := Run(w, es);
    SubsetCount(Made(v.pods), Slots(v.ep.name, v.ep.scaling.maxReplicas));
    SlotsCount(v.ep.name, v.ep.scaling.maxReplicas);
  }

  // ---------- Rollout safety ----------

  /**
   * In any state: a reconcile deletes no pod of the current hash, and if it deletes anything, at least
   * desired >= 1 ready pods of the current hash remain.
   */
  lemma RolloutIsSafe(pods: Pods, ep: Endpoint, idleSince: map<string, int>, env: EndpointEnv)
    requires SaneScaling(ep.scaling)
    ensures var after := ReconcilePods(pods, ep, idleSince, env);
            var desired := Desired(ep, idleSince, env.now);
            && (forall n :: n in pods && pods[n].hash == ep.hash ==>
                  n in after && after[n] == pods[n].(recorded := after[n].recorded))
            && ((exists n :: n in pods && n !in after) ==> 1 <= desired <= |ReadyCurrent(after, ep)|)
  {
    var after := ReconcilePods(pods, ep, idleSince, env);
    var marked, made, _ := Anatomy(pods, ep, idleSince, env);
    DesiredIsTimeless(ep, idleSince, env.now, idleSince, env.now);
    assert forall n :: n in pods && pods[n].hash == ep.hash ==> n in after && after[n] == marked[n];
    assert ReadyCurrent(pods, ep) <= ReadyCurrent(after, ep) by {
      forall n | n in ReadyCurrent(pods, ep) ensures n in ReadyCurrent(after, ep) {
        assert after[n] == marked[n] && marked[n].ready && marked[n].endpoint == ep.name;
      }
    }
    SubsetCount(ReadyCurrent(pods, ep), ReadyCurrent(after, ep));
  }

  // ---------- Settling ----------

  /** Only reconciles and readiness changes. */
  ghost predicate Quiet(es: seq<Event>) {
    forall i :: 0 <= i < |es| ==> es[i].Reconciled? || es[i].PodReadiness?
  }

  /** The same pods up to readiness and the cold-start mark. */
  ghost predicate SamePopulation(a: Pods, b: Pods) {
    a.Keys == b.Keys && forall n :: n in a ==> b[n] == a[n].(recorded := b[n].recorded, ready := b[n].ready)
  }

  /**
   * Every index below the desired count is taken, and either no pod of another hash exists or no pod
   * of the current hash does.
   */
  ghost predicate Frozen(w: World) {
    && SaneScaling(w.ep.scaling)
    && (forall k: nat :: k < Desired(w.ep, map[], 0) ==> PodName(w.ep.name, k) in w.pods)
    && (Old(w.pods, w.ep) == {} || Current(w.pods, w.ep) == {})
  }

  lemma FrozenReconcile(w: World, env: EndpointEnv)
    requires Frozen(w)
    ensures SamePods(w.pods, ReconcilePods(w.pods, w.ep, w.idleSince, env))
  {
    var marked, made, _ := Anatomy(w.pods, w.ep, w.idleSince, env);
    var after := ReconcilePods(w.pods, w.ep, w.idleSince, env);
    DesiredIsTimeless(w.ep, w.idleSince, env.now, map[], 0);
    assert made == marked;
    if Old(w.pods, w.ep) == {} {
      assert forall n :: n in marked ==> !Doomed(marked[n], w.ep) by {
        forall n | n in marked ensures !Doomed(marked[n], w.ep) {
          assert n !in Old(w.pods, w.ep);
        }
      }
      assert Drained(marked, w.ep, env.deleteOk) == marked;
    } else {
      assert ReadyCurrent(w.pods, w.ep) == {};
      assert |ReadyCurrent(w.pods, w.ep)| == 0;
    }
  }

  lemma {:induction false} RunFrozen(w: World, es: seq<Event>)
    requires Frozen(w) && Quiet(es)
    ensures SamePopulation(w.pods, Run(w, es).pods)
    decreases |es|
  {
    if es != [] {
      assert es[0].Reconciled? || es[0].PodReadiness?;
      assert forall i :: 0 <= i < |es[1..]| ==> es[1..][i] == es[i + 1];
      if es[0].Reconciled? {
        FrozenReconcile(w, es[0].env);
      }
      assert SamePopulation(w.pods, Apply(w, es[0]).pods);
      RunFrozen(Apply(w, es[0]), es[1..]);
    }
  }

  lemma {:induction false} CreateFromEmpty(pods: Pods, ep: Endpoint, i: nat, desired: nat, env: EndpointEnv)
    requires i <= desired && pods.Keys == Slots(ep.name, i)
    requires forall n :: n in pods ==> pods[n] == NewPod(ep, env.now)
    requires forall k: nat :: k < desired ==> env.create(k) == CreateOk
    ensures var (made, ok) := CreateFrom(pods, ep, i, desired, env);
            ok && made.Keys == Slots(ep.name, desired) && forall n :: n in made ==> made[n] == NewPod(ep, env.now)
    decreases desired - i
  {
    if i < desired {
      var name := PodName(ep.name, i);
      CreateFromEmpty(if name in pods then pods else pods[name := NewPod(ep, env.now)], ep, i + 1, desired, env);
    }
  }

  lemma ReconcileOfNothing(ep: Endpoint, idleSince: map<string, int>, env: EndpointEnv, desired: nat)
    requires ep.engineOk && env.statusOk && desired == Desired(ep, idleSince, env.now)
    ensures ReconcilePods(map[], ep, idleSince, env) == CreateFrom(map[], ep, 0, desired, env).0
  {
    assert Current(map[], ep) == {} && ReadyCurrent(map[], ep) == {} && Marked(map[], ep, env) == map[];
  }

  /** From no pods, one reconcile whose calls succeed makes exactly the pods 0, ..., desired - 1. */
  lemma ColdStartMakesAll(ep: Endpoint, idleSince: map<string, int>, env: EndpointEnv)
    requires SaneScaling(ep.scaling) && ep.engineOk && env.statusOk
    requires forall k: nat :: env.create(k) == CreateOk
    ensures var after := ReconcilePods(map[], ep, idleSince, env);
            var desired := Desired(ep, idleSince, env.now);
            && desired >= 0 && after.Keys == Slots(ep.name, desired) && |after| == desired
            && forall n :: n in after ==> after[n] == NewPod(ep, env.now)
  {
    var desired := Desired(ep, idleSince, env.now);
    DesiredIsTimeless(ep, idleSince, env.now, idleSince, env.now);
    ReconcileOfNothing(ep, idleSince, env, desired);
    CreateFromEmpty(map[], ep, 0, desired, env);
    SlotsCount(ep.name, desired);
    assert |CreateFrom(map[], ep, 0, desired, env).0.Keys| == desired;
  }

  /**
   * A cold start settles in one pass: afterwards, however readiness evolves and whatever calls fail,
   * no reconcile with the same spec and annotation creates or deletes a pod.
   */
  lemma ColdStartSettles(ep: Endpoint, idleSince: map<string, int>, env: EndpointEnv, es: seq<Event>)
    requires SaneScaling(ep.scaling) && ep.engineOk && env.statusOk
    requires (forall k: nat :: env.create(k) == CreateOk) && Quiet(es)
    ensures var w := Apply(World(map[], ep, idleSince), Reconciled(env));
            |w.pods| == Desired(ep, idleSince, env.now) && SamePopulation(w.pods, Run(w, es).pods)
  {
    var w := Apply(World(map[], ep, idleSince), Reconciled(env));
    var desired := Desired(ep, idleSince, env.now);
    ColdStartMakesAll(ep, idleSince, env);
    DesiredIsTimeless(ep, idleSince, env.now, map[], 0);
    forall k: nat | k < desired ensures PodName(ep.name, k) in w.pods {
      SlotsAre(ep.name, desired, PodName(ep.name, k));
    }
    assert Old(w.pods, ep) == {};
    RunFrozen(w, es);
  }

  // ---------- When one pass reaches the desired count ----------

  /** The indices from i up to desired whose names are free. */
  function Free(pods: Pods, ep: string, i: nat, desired: int): nat
    decreases desired - i
  {
    if i >= desired then 0 else Free(pods, ep, i + 1, desired) + if PodName(ep, i) in pods then 0 else 1
  }

  lemma {:induction false} FreeBounds(pods: Pods, ep: string, i: nat, desired: int)
    requires i <= desired
    ensures Free(pods, ep, i, desired) <= desired - i
    ensures Free(pods, ep, i, desired) == desired - i <==> forall k: nat :: i <= k < desired ==> PodName(ep, k) !in pods
    decreases desired - i
  {
    if i < desired {
      FreeBounds(pods, ep, i + 1, desired);
    }
  }

  lemma {:induction false} FreeElsewhere(pods: Pods, ep: string, j: nat, p: Pod, i: nat, desired: int)
    requires j < i
    ensures Free(pods[PodName(ep, j) := p], ep, i, desired) == Free(pods, ep, i, desired)
    decreases desired - i
  {
    if i < desired {
      FreeElsewhere(pods, ep, j, p, i + 1, desired);
      if PodName(ep, i) == PodName(ep, j) {
        PodNameInjective(ep, i, j);
      }
    }
  }

  lemma {:induction false} CreateCounts(pods: Pods, ep: Endpoint, i: nat, desired: int, env: EndpointEnv)
    requires forall k: nat :: env.create(k) == CreateOk
    ensures var (made, ok) := CreateFrom(pods, ep, i, desired, env);
            ok && |Current(made, ep)| == |Current(pods, ep)| + Free(pods, ep.name, i, desired)
    decreases desired - i
  {
    if i < desired {
      var name := PodName(ep.name, i);
      if name in pods {
        CreateCounts(pods, ep, i + 1, desired, env);
      } else {
        var next := pods[name := NewPod(ep, env.now)];
        CreateCounts(next, ep, i + 1, desired, env);
        FreeElsewhere(pods, ep.name, i, NewPod(ep, env.now), i + 1, desired);
        assert Current(next, ep) == Current(pods, ep) + {name};
      }
    }
  }

  lemma DrainKeepsCurrent(pods: Pods, ep: Endpoint, deleteOk: string -> bool)
    ensures Current(Drained(pods, ep, deleteOk), ep) == Current(pods, ep)
  {
  }

  /** After a pass whose calls succeed, the current generation has grown by the free indices it tried. */
  lemma CurrentAfter(pods: Pods, ep: Endpoint, idleSince: map<string, int>, env: EndpointEnv)
    requires ep.engineOk && env.statusOk && env.listReadyOk && forall k: nat :: env.create(k) == CreateOk
    requires Desired(ep, idleSince, env.now) != 0
    ensures var ready, total := |ReadyCurrent(pods, ep)|, |Current(pods, ep)|;
            |Current(ReconcilePods(pods, ep, idleSince, env), ep)|
            == total + Free(pods, ep.name, ready + total, Desired(ep, idleSince, env.now))
  {
    var desired := Desired(ep, idleSince, env.now);
    var marked := Marked(pods, ep, env);
    var ready, total := |ReadyCurrent(pods, ep)|, |Current(pods, ep)|;
    SameCounts(pods, marked, ep);
    CreateCounts(marked, ep, ready + total, desired, env);
    FreeOfSame(pods, marked, ep.name, ready + total, desired);
    DrainKeepsCurrent(CreateFrom(marked, ep, ready + total, desired, env).0, ep, env.deleteOk);
  }

  lemma {:induction false} FreeOfSame(a: Pods, b: Pods, ep: string, i: nat, desired: int)
    requires a.Keys == b.Keys
    ensures Free(a, ep, i, desired) == Free(b, ep, i, desired)
    decreases desired - i
  {
    if i < desired {
      FreeOfSame(a, b, ep, i + 1, desired);
    }
  }

  /**
   * Even when every call succeeds, one pass brings the current generation to the desired count if and
   * only if it is there already, or none of its pods is ready and all further indices are free.
   */
  lemma OnePassSufficesIff(pods: Pods, ep: Endpoint, idleSince: map<string, int>, env: EndpointEnv)
    requires ep.engineOk && env.statusOk && env.listReadyOk && forall k: nat :: env.create(k) == CreateOk
    requires Desired(ep, idleSince, env.now) > 0
    ensures var desired := Desired(ep, idleSince, env.now);
            var total := |Current(pods, ep)|;
            |Current(ReconcilePods(pods, ep, idleSince, env), ep)| >= desired
            <==> total >= desired
                 || (ReadyCurrent(pods, ep) == {}
                     && forall k: nat :: total <= k < desired ==> PodName(ep.name, k) !in pods)
  {
    var desired := Desired(ep, idleSince, env.now);
    var ready, total := |ReadyCurrent(pods, ep)|, |Current(pods, ep)|;
    CurrentAfter(pods, ep, idleSince, env);
    if total < desired {
      if ready == 0 {
        FreeBounds(pods, ep.name, total, desired);
      } else if ready + total <= desired {
        FreeBounds(pods, ep.name, ready + total, desired);
      }
    }
  }
}
