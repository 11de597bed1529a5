/** What one reconcile of an endpoint does to each single pod. */
module EndpointPods {
  import opened EndpointController
  import opened EndpointRuns
  import opened Decimal

  /** The endpoint's ready pods of its current spec, or of any other. */
  function ReadyOf(pods: Pods, ep: Endpoint, current: bool): set<string> {
    set n | n in pods && pods[n].endpoint == ep.name && pods[n].ready && (pods[n].hash == ep.hash) == current
  }

  function CurrentOf(pods: Pods, ep: Endpoint): set<string> {
    set n | n in pods && pods[n].endpoint == ep.name && pods[n].hash == ep.hash
  }

  /** All lists succeed, enough pods of the current spec are ready to do without the others, and some of those are ready. */
  ghost predicate EndsOldGenerations(pods: Pods, ep: Endpoint, desired: int, env: EndpointEnv) {
    && ep.engineOk && env.statusOk && env.listReadyOk && env.listOldOk && env.listDrainOk
    && |ReadyOf(pods, ep, true)| >= desired > 0 && ReadyOf(pods, ep, false) != {}
  }

  /** The first index that is tried: as many as there are current pods, the ready ones counted twice. */
  function FirstIndex(pods: Pods, ep: Endpoint, env: EndpointEnv): nat {
    if env.listReadyOk then |ReadyOf(pods, ep, true)| + |CurrentOf(pods, ep)| else 0
  }

  lemma CountsAreSets(pods: Pods, ep: Endpoint)
    ensures ReadyCurrent(pods, ep) == ReadyOf(pods, ep, true) && Current(pods, ep) == CurrentOf(pods, ep)
    ensures ReadyOnes(pods, Old(pods, ep)) == ReadyOf(pods, ep, false)
  {
  }

  /** The index is reached, all creations up to it succeed, and it has this name. */
  ghost predicate CreatesAt(ep: Endpoint, env: EndpointEnv, n: string, from: nat, desired: int, k: nat) {
    && from <= k < desired && n == ep.name + "-replica-" + Numeral(k)
    && forall i: nat :: from <= i <= k ==> env.create(i) == CreateOk
  }

  lemma LaterIndex(ep: Endpoint, env: EndpointEnv, n: string, from: nat, next: nat, desired: int)
    requires next == from + 1 && PodName(ep.name, from) != n && env.create(from) == CreateOk
    ensures (exists k: nat :: CreatesAt(ep, env, n, from, desired, k))
        <==> exists k: nat :: CreatesAt(ep, env, n, next, desired, k)
  {
    if k: nat :| CreatesAt(ep, env, n, from, desired, k) {
      assert CreatesAt(ep, env, n, next, desired, k);
    }
    if k: nat :| CreatesAt(ep, env, n, next, desired, k) {
      assert CreatesAt(ep, env, n, from, desired, k);
    }
  }

  lemma {:induction false} CreateFromIff(pods: Pods, ep: Endpoint, from: nat, desired: int, env: EndpointEnv, n: string)
    requires n !in pods
    ensures n in CreateFrom(pods, ep, from, desired, env).0 <==> exists k: nat :: CreatesAt(ep, env, n, from, desired, k)
    decreases desired - from
  {
    if from < desired && env.create(from) == CreateOk {
      var name := PodName(ep.name, from);
      var next := if name in pods then pods else pods[name := NewPod(ep, env.now)];
      assert CreateFrom(pods, ep, from, desired, env) == CreateFrom(next, ep, from + 1, desired, env);
      if n == name {
        CreateOnlyAdds(next, ep, from + 1, desired, env);
        assert CreatesAt(ep, env, n, from, desired, from);
      } else {
        CreateFromIff(next, ep, from + 1, desired, env, n);
        LaterIndex(ep, env, n, from, from + 1, desired);
      }
    } else {
      forall k: nat ensures !CreatesAt(ep, env, n, from, desired, k) {
        if from <= k < desired {
          assert env.create(from) != CreateOk;
        }
      }
    }
  }

  /** Creation goes well if and only if no index that is tried meets an error. */
  lemma {:induction false} CreationGoesWellIff(pods: Pods, ep: Endpoint, from: nat, desired: int, env: EndpointEnv)
    ensures CreateFrom(pods, ep, from, desired, env).1 <==> forall i: nat :: from <= i < desired ==> env.create(i) == CreateOk
    decreases desired - from
  {
    if from < desired && env.create(from) == CreateOk {
      var name := PodName(ep.name, from);
      CreationGoesWellIff(if name in pods then pods else pods[name := NewPod(ep, env.now)], ep, from + 1, desired, env);
    }
  }

  /** The stages of a reconcile, in terms of these sets. */
  lemma Stages(pods: Pods, ep: Endpoint, idleSince: map<string, int>, env: EndpointEnv, desired: nat)
    requires desired == Desired(ep, idleSince, env.now)
    ensures var marked := if ep.engineOk then Marked(pods, ep, env) else pods;
            var made := CreateFrom(marked, ep, FirstIndex(pods, ep, env), desired, env).0;
            ReconcilePods(pods, ep, idleSince, env)
            == if !ep.engineOk || !env.statusOk then marked
               else if EndsOldGenerations(pods, ep, desired, env) then Drained(made, ep, env.deleteOk) else made
  {
    CountsAreSets(pods, ep);
  }

  /**
   * A pod is deleted if and only if it is the endpoint's, bears another, known hash, the old generations
   * are ended, and its deletion succeeds. Otherwise all that changes is the mark that its start was observed, which a
   * ready pod of the endpoint gets as soon as the patch succeeds.
   */
  lemma DeletedIff(pods: Pods, ep: Endpoint, idleSince: map<string, int>, env: EndpointEnv, n: string)
    requires SaneScaling(ep.scaling) && n in pods
    ensures var p, after := pods[n], ReconcilePods(pods, ep, idleSince, env);
            && (n !in after <==>
                  && p.endpoint == ep.name && p.hash !in {ep.hash, ""}
                  && EndsOldGenerations(pods, ep, Desired(ep, idleSince, env.now), env) && env.deleteOk(n))
            && (n in after ==>
                  var observed := ep.engineOk && env.listColdOk && p.endpoint == ep.name && p.ready && env.patchOk(n);
                  after[n] == p.(recorded := p.recorded || observed))
  {
    var desired := Desired(ep, idleSince, env.now);
    DesiredIsTimeless(ep, idleSince, env.now, idleSince, env.now);
    Stages(pods, ep, idleSince, env, desired);
    var marked := if ep.engineOk then Marked(pods, ep, env) else pods;
    CreateOnlyAdds(marked, ep, FirstIndex(pods, ep, env), desired, env);
  }

  /**
   * A pod is created if and only if it bears the name of a missing index that is reached without an error; it belongs
   * to the current spec, starts now and is neither ready nor observed.
   */
  lemma CreatedIff(pods: Pods, ep: Endpoint, idleSince: map<string, int>, env: EndpointEnv, n: string)
    requires SaneScaling(ep.scaling) && n !in pods
    ensures var after, desired := ReconcilePods(pods, ep, idleSince, env), Desired(ep, idleSince, env.now);
            && (n in after <==>
                  && ep.engineOk && env.statusOk
                  && exists k: nat :: CreatesAt(ep, env, n, FirstIndex(pods, ep, env), desired, k))
            && (n in after ==> after[n] == Pod(ep.name, ep.hash, false, env.now, false, true))
  {
    var desired := Desired(ep, idleSince, env.now);
    DesiredIsTimeless(ep, idleSince, env.now, idleSince, env.now);
    Stages(pods, ep, idleSince, env, desired);
    var marked := if ep.engineOk then Marked(pods, ep, env) else pods;
    assert n !in marked;
    CreateOnlyAdds(marked, ep, FirstIndex(pods, ep, env), desired, env);
    CreateFromIff(marked, ep, FirstIndex(pods, ep, env), desired, env, n);
  }

  /**
   * The starts that are observed are those of the endpoint's ready pods without the mark, and only a pod whose patch
   * fails, or whose listing does, is observed again by a next reconcile.
   */
  lemma StartsAreObservedOnce(pods: Pods, ep: Endpoint, env: EndpointEnv, n: string)
    requires n in pods
    ensures n in ColdOnes(pods, ep) <==> pods[n].endpoint == ep.name && pods[n].ready && !pods[n].recorded
    ensures n in Marked(pods, ep, env)
    ensures n in ColdOnes(Marked(pods, ep, env), ep) <==> n in ColdOnes(pods, ep) && !(env.listColdOk && env.patchOk(n))
  {
  }
}
