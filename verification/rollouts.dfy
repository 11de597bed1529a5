/** Exactly when a rollout can finish, over all runs of reconciles and readiness changes. */
module EndpointRollouts {
  import opened EndpointController
  import opened EndpointRuns

  /** What desired is, whatever the clock says. */
  function Goal(w: World): int {
    Desired(w.ep, map[], 0)
  }

  /** The runs considered: quiet ones, and, when lists is set, only those in which the pods can be listed. */
  ghost predicate Considered(es: seq<Event>, lists: bool) {
    Quiet(es) && (lists ==> forall i :: 0 <= i < |es| && es[i].Reconciled? ==> es[i].env.listReadyOk)
  }

  /** The current generation is at the goal and no pod of another generation is left. */
  ghost predicate Finished(w: World) {
    |Current(w.pods, w.ep)| >= Goal(w) && forall n :: n in w.pods ==> !Doomed(w.pods[n], w.ep)
  }

  /**
   * How far the current generation can get: its size and the free names it can still take. When the pods are
   * listed, only names from its size on are tried.
   */
  function Reach(pods: Pods, ep: Endpoint, goal: int, lists: bool): nat {
    var size := |Current(pods, ep)|;
    size + Free(pods, ep.name, if lists then size else 0, goal)
  }

  // ---------- Creation never extends the reach ----------

  lemma {:induction false} FreeAfterTaking(pods: Pods, ep: string, j: nat, i: nat, p: Pod, goal: int)
    requires j <= i < goal && PodName(ep, i) !in pods
    ensures Free(pods[PodName(ep, i) := p], ep, j, goal) == Free(pods, ep, j, goal) - 1
    decreases i - j
  {
    if j == i {
      FreeElsewhere(pods, ep, i, p, i + 1, goal);
    } else {
      FreeAfterTaking(pods, ep, j + 1, i, p, goal);
      if PodName(ep, j) == PodName(ep, i) {
        PodNameInjective(ep, j, i);
      }
    }
  }

  lemma CurrentAfterOne(pods: Pods, ep: Endpoint, name: string, now: int)
    requires name !in pods
    ensures |Current(pods[name := NewPod(ep, now)], ep)| == |Current(pods, ep)| + 1
  {
    assert Current(pods[name := NewPod(ep, now)], ep) == Current(pods, ep) + {name};
  }

  lemma ReachAfterOne(pods: Pods, ep: Endpoint, i: nat, goal: int, now: int, lists: bool)
    requires i < goal && PodName(ep.name, i) !in pods && (lists ==> i >= |Current(pods, ep)|)
    ensures Reach(pods[PodName(ep.name, i) := NewPod(ep, now)], ep, goal, lists) <= Reach(pods, ep, goal, lists)
  {
    var next := pods[PodName(ep.name, i) := NewPod(ep, now)];
    var size := |Current(pods, ep)|;
    CurrentAfterOne(pods, ep, PodName(ep.name, i), now);
    FreeAfterTaking(pods, ep.name, if lists then size else 0, i, NewPod(ep, now), goal);
    assert lists ==> Free(next, ep.name, size, goal) >= Free(next, ep.name, size + 1, goal);
  }

  lemma {:induction false} CreateKeepsReach(pods: Pods, ep: Endpoint, i: nat, goal: int, env: EndpointEnv, lists: bool)
    requires lists ==> i >= |Current(pods, ep)|
    ensures Reach(CreateFrom(pods, ep, i, goal, env).0, ep, goal, lists) <= Reach(pods, ep, goal, lists)
    decreases goal - i
  {
    if i < goal && env.create(i) == CreateOk {
      var name := PodName(ep.name, i);
      if name in pods {
        CreateKeepsReach(pods, ep, i + 1, goal, env, lists);
      } else {
        ReachAfterOne(pods, ep, i, goal, env.now, lists);
        CurrentAfterOne(pods, ep, name, env.now);
        CreateKeepsReach(pods[name := NewPod(ep, env.now)], ep, i + 1, goal, env, lists);
      }
    }
  }

  // ---------- A rollout out of reach ----------

  ghost predicate OutOfReach(w: World, lists: bool) {
    SaneScaling(w.ep.scaling) && Reach(w.pods, w.ep, Goal(w), lists) < Goal(w)
  }

  /** Every pod is still there, with its endpoint, generation and maker. */
  ghost predicate NothingDeleted(a: Pods, b: Pods) {
    forall n :: n in a ==> n in b && b[n] == a[n].(recorded := b[n].recorded, ready := b[n].ready)
  }

  lemma SameReach(a: Pods, b: Pods, ep: Endpoint, goal: int, lists: bool)
    requires SamePopulation(a, b)
    ensures Reach(a, ep, goal, lists) == Reach(b, ep, goal, lists)
  {
    assert forall n :: n in Current(a, ep) <==> n in Current(b, ep);
    assert Current(a, ep) == Current(b, ep);
    FreeOfSame(a, b, ep.name, if lists then |Current(a, ep)| else 0, goal);
  }

  lemma StuckReconcile(w: World, env: EndpointEnv, lists: bool)
    requires OutOfReach(w, lists) && (lists ==> env.listReadyOk)
    ensures var v := Apply(w, Reconciled(env));
            OutOfReach(v, lists) && NothingDeleted(w.pods, v.pods)
  {
    var marked, made, from := Anatomy(w.pods, w.ep, w.idleSince, env);
    DesiredIsTimeless(w.ep, w.idleSince, env.now, map[], 0);
    SubsetCount(ReadyCurrent(w.pods, w.ep), Current(w.pods, w.ep));
    assert ReconcilePods(w.pods, w.ep, w.idleSince, env) == made;
    SameReach(w.pods, marked, w.ep, Goal(w), lists);
    SameCounts(w.pods, marked, w.ep);
    if made != marked {
      CreateKeepsReach(marked, w.ep, from, Goal(w), env, lists);
    }
  }

  /** Out of reach, whatever calls fail: the goal is never reached and no pod is ever deleted. */
  lemma {:induction false} RunStuck(w: World, es: seq<Event>, lists: bool)
    requires OutOfReach(w, lists) && Considered(es, lists)
    ensures var v := Run(w, es);
            && v.ep == w.ep && NothingDeleted(w.pods, v.pods)
            && |Current(v.pods, v.ep)| < Goal(w)
    decreases |es|
  {
    if es != [] {
      assert forall i :: 0 <= i < |es[1..]| ==> es[1..][i] == es[i + 1];
      if es[0].Reconciled? {
        StuckReconcile(w, es[0].env, lists);
      } else {
        SameReach(w.pods, Apply(w, es[0]).pods, w.ep, Goal(w), lists);
      }
      RunStuck(Apply(w, es[0]), es[1..], lists);
    }
  }

  // ---------- A rollout within reach ----------

  lemma {:induction false} RunOfTwo(w: World, a: seq<Event>, b: seq<Event>)
    ensures Run(w, a + b) == Run(Run(w, a), b)
    decreases |a|
  {
    if a == [] {
      assert a + b == b;
    } else {
      assert (a + b)[0] == a[0] && (a + b)[1..] == a[1..] + b;
      RunOfTwo(Apply(w, a[0]), a[1..], b);
    }
  }

  function WithReadiness(pods: Pods, names: set<string>, ready: bool): Pods {
    map n | n in pods :: if n in names then pods[n].(ready := ready) else pods[n]
  }

  /** Readiness changes can make any pods ready, or not. */
  lemma {:induction false} SetReadiness(w: World, names: set<string>, ready: bool) returns (es: seq<Event>)
    requires names <= w.pods.Keys
    ensures Considered(es, true) && Run(w, es) == w.(pods := WithReadiness(w.pods, names, ready))
    decreases |names|
  {
    if names == {} {
      es := [];
      assert WithReadiness(w.pods, names, ready) == w.pods;
    } else {
      var n :| n in names;
      var first := PodReadiness(n, ready);
      var v := Apply(w, first);
      var rest := SetReadiness(v, names - {n}, ready);
      es := [first] + rest;
      assert es[1..] == rest;
      assert WithReadiness(v.pods, names - {n}, ready) == WithReadiness(w.pods, names, ready);
    }
  }

  /** Every call succeeds, except that the pods may not be listed. */
  function Answers(listed: bool): EndpointEnv {
    EndpointEnv(0, listed, true, true, n => true, true, k => CreateOk, true, n => true)
  }

  /** With no pod ready, one pass takes every name within reach. */
  lemma FirstPass(w: World, lists: bool)
    requires w.ep.engineOk && SaneScaling(w.ep.scaling) && Goal(w) > 0
    requires forall n :: n in w.pods ==> !w.pods[n].ready
    ensures var v := Apply(w, Reconciled(Answers(lists)));
            |Current(v.pods, v.ep)| == Reach(w.pods, w.ep, Goal(w), lists) && v.ep == w.ep
  {
    var env := Answers(lists);
    var marked := Marked(w.pods, w.ep, env);
    var from := if lists then |Current(w.pods, w.ep)| else 0;
    DesiredIsTimeless(w.ep, w.idleSince, env.now, map[], 0);
    assert marked == w.pods;
    assert ReadyCurrent(w.pods, w.ep) == {};
    CreateCounts(marked, w.ep, from, Goal(w), env);
    assert ReconcilePods(w.pods, w.ep, w.idleSince, env) == CreateFrom(marked, w.ep, from, Goal(w), env).0;
  }

  /** With every pod ready and the goal reached, one pass deletes the other generations. */
  lemma LastPass(w: World)
    requires w.ep.engineOk && SaneScaling(w.ep.scaling) && Goal(w) > 0
    requires |Current(w.pods, w.ep)| >= Goal(w) && forall n :: n in w.pods ==> w.pods[n].ready
    ensures Finished(Apply(w, Reconciled(Answers(true))))
  {
    var env := Answers(true);
    var marked := Marked(w.pods, w.ep, env);
    DesiredIsTimeless(w.ep, w.idleSince, env.now, map[], 0);
    assert ReadyCurrent(w.pods, w.ep) == Current(w.pods, w.ep);
    assert ReadyOnes(w.pods, Old(w.pods, w.ep)) == Old(w.pods, w.ep);
    SameCounts(w.pods, marked, w.ep);
    var v := Apply(w, Reconciled(env));
    if Old(w.pods, w.ep) == {} {
      assert v.pods == marked;
      assert forall n :: n in marked ==> n !in Old(w.pods, w.ep) && !Doomed(marked[n], w.ep);
    } else {
      assert v.pods == Drained(marked, w.ep, env.deleteOk);
      DrainKeepsCurrent(marked, w.ep, env.deleteOk);
    }
  }

  lemma RunOfFour(w: World, a: seq<Event>, e: Event, b: seq<Event>, f: Event)
    ensures Run(w, a + [e] + b + [f]) == Apply(Run(Apply(Run(w, a), e), b), f)
  {
    RunOfTwo(w, a + [e] + b, [f]);
    RunOfTwo(w, a + [e], b);
    RunOfTwo(w, a, [e]);
    assert [e][1..] == [] && [f][1..] == [];
  }

  ghost predicate ConsideredEvent(e: Event, lists: bool) {
    (e.Reconciled? && (lists ==> e.env.listReadyOk)) || e.PodReadiness?
  }

  lemma ConsideredOfFour(a: seq<Event>, e: Event, b: seq<Event>, f: Event, lists: bool)
    requires Considered(a, true) && Considered(b, true) && ConsideredEvent(e, lists) && ConsideredEvent(f, lists)
    ensures Considered(a + [e] + b + [f], lists)
  {
    var all := a + [e] + b + [f];
    forall i | 0 <= i < |all| ensures ConsideredEvent(all[i], lists) {
      assert i < |a| ==> all[i] == a[i];
      assert i == |a| ==> all[i] == e;
      assert |a| < i < |a| + 1 + |b| ==> all[i] == b[i - |a| - 1];
    }
  }

  lemma CanFinish(w: World, lists: bool) returns (es: seq<Event>)
    requires w.ep.engineOk && SaneScaling(w.ep.scaling) && Goal(w) > 0
    requires Reach(w.pods, w.ep, Goal(w), lists) >= Goal(w)
    ensures Considered(es, lists) && Finished(Run(w, es))
  {
    var down := SetReadiness(w, w.pods.Keys, false);
    var w1 := Run(w, down);
    SameReach(w.pods, w1.pods, w.ep, Goal(w), lists);
    FirstPass(w1, lists);
    var w2 := Apply(w1, Reconciled(Answers(lists)));
    var up := SetReadiness(w2, w2.pods.Keys, true);
    var w3 := Run(w2, up);
    assert Current(w3.pods, w3.ep) == Current(w2.pods, w2.ep);
    LastPass(w3);
    es := down + [Reconciled(Answers(lists))] + up + [Reconciled(Answers(true))];
    RunOfFour(w, down, Reconciled(Answers(lists)), up, Reconciled(Answers(true)));
    ConsideredOfFour(down, Reconciled(Answers(lists)), up, Reconciled(Answers(true)), lists);
  }

  // ---------- The exact condition ----------

  /**
   * Some run finishes the rollout if and only if the goal is within reach; and if it is not, no run ever
   * reaches the goal or deletes a pod, whatever calls fail.
   */
  lemma RolloutFinishesIff(w: World, lists: bool)
    requires w.ep.engineOk && SaneScaling(w.ep.scaling) && Goal(w) > 0
    ensures (exists es :: Considered(es, lists) && Finished(Run(w, es))) <==> Reach(w.pods, w.ep, Goal(w), lists) >= Goal(w)
    ensures Reach(w.pods, w.ep, Goal(w), lists) < Goal(w) ==>
              forall es :: Considered(es, lists) ==>
                |Current(Run(w, es).pods, w.ep)| < Goal(w) && NothingDeleted(w.pods, Run(w, es).pods)
  {
    if Reach(w.pods, w.ep, Goal(w), lists) >= Goal(w) {
      var es := CanFinish(w, lists);
    } else {
      forall es | Considered(es, lists)
        ensures |Current(Run(w, es).pods, w.ep)| < Goal(w) && NothingDeleted(w.pods, Run(w, es).pods)
        ensures !Finished(Run(w, es))
      {
        RunStuck(w, es, lists);
      }
    }
  }

  /** The goal is within reach of listing runs iff it is reached, or every name from the size on is free. */
  lemma ReachIff(pods: Pods, ep: Endpoint, goal: int)
    ensures var size := |Current(pods, ep)|;
            Reach(pods, ep, goal, true) >= goal
            <==> size >= goal || forall k: nat :: size <= k < goal ==> PodName(ep.name, k) !in pods
  {
    var size := |Current(pods, ep)|;
    if size < goal {
      FreeBounds(pods, ep.name, size, goal);
    }
  }

  /** The world after a spec change to a generation of which no pod exists. */
  ghost predicate NewGeneration(w: World, hash: string) {
    SaneScaling(w.ep.scaling) && forall n :: n in w.pods ==> w.pods[n].hash != hash
  }

  lemma FreshReach(w: World, hash: string, lists: bool)
    requires NewGeneration(w, hash)
    ensures var v := Apply(w, SpecChanged(hash, w.ep.engineOk));
            && Goal(v) == Goal(w) && Current(v.pods, v.ep) == {}
            && (Reach(v.pods, v.ep, Goal(v), lists) >= Goal(v)
                <==> forall k: nat :: k < Goal(w) ==> PodName(w.ep.name, k) !in w.pods)
  {
    var v := Apply(w, SpecChanged(hash, w.ep.engineOk));
    DesiredIsTimeless(w.ep, map[], 0, map[], 0);
    assert Current(v.pods, v.ep) == {};
    FreeBounds(v.pods, v.ep.name, 0, Goal(v));
  }

  /** After a spec change, some run finishes the rollout if and only if no name below the goal is taken. */
  lemma NewGenerationFinishesIff(w: World, hash: string, lists: bool)
    requires NewGeneration(w, hash) && w.ep.engineOk && Goal(w) > 0
    ensures var v := Apply(w, SpecChanged(hash, w.ep.engineOk));
            (exists es :: Considered(es, lists) && Finished(Run(v, es)))
            <==> forall k: nat :: k < Goal(w) ==> PodName(w.ep.name, k) !in w.pods
  {
    FreshReach(w, hash, lists);
    RolloutFinishesIff(Apply(w, SpecChanged(hash, w.ep.engineOk)), lists);
  }

  /**
   * A rollout stalls: once the spec has changed while some name below the goal is taken, no run ever brings the
   * new generation to the goal or deletes a pod. If all those names are taken, it never has a pod at all.
   */
  lemma RolloutStalls(w: World, hash: string, es: seq<Event>, k: nat)
    requires NewGeneration(w, hash) && Quiet(es) && k < Goal(w) && PodName(w.ep.name, k) in w.pods
    ensures var v := Apply(w, SpecChanged(hash, w.ep.engineOk));
            var u := Run(v, es);
            && |Current(u.pods, v.ep)| < Goal(w) && NothingDeleted(w.pods, u.pods)
            && ((forall i: nat :: i < Goal(w) ==> PodName(w.ep.name, i) in w.pods) ==>
                  SamePopulation(w.pods, u.pods) && Current(u.pods, v.ep) == {})
  {
    var v := Apply(w, SpecChanged(hash, w.ep.engineOk));
    FreshReach(w, hash, false);
    RunStuck(v, es, false);
    if forall i: nat :: i < Goal(w) ==> PodName(w.ep.name, i) in w.pods {
      RunFrozen(v, es);
      var u := Run(v, es);
      assert forall n :: n in u.pods ==> u.pods[n].hash == w.pods[n].hash;
    }
  }
}
