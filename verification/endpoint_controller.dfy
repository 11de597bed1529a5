/** The endpoint controller: replica pods, generations and cold-start samples. */
module EndpointController {
  import opened Decimal
  import opened Seqs
  import Percentile

  // ---------- Objects ----------

  /**
   * A pod of the namespace: its endpoint label, spec-hash annotation ("" when absent), readiness, and
   * cold-start annotations. made tells the pods this controller created; it is not stored anywhere.
   */
  datatype Pod = Pod(endpoint: string, hash: string, ready: bool, startedAt: int, recorded: bool, made: bool)

  type Pods = map<string, Pod>

  datatype Annotation = Absent | NotANumber | Replicas(n: int)

  datatype HoldOff = Unset | Unparsable | After(d: int)

  datatype Scaling = Scaling(minReplicas: int, maxReplicas: int, scaleToZeroAfter: HoldOff)

  /** The endpoint object; hash is the digest of its current spec, which is never empty. */
  datatype Endpoint = Endpoint(name: string, hash: string, engineOk: bool, annotation: Annotation, scaling: Scaling)

  // ---------- What the API server answers ----------

  datatype CreateAnswer = CreateOk | BuildFails | CreateFails

  datatype EndpointEnv = EndpointEnv(now: int, listReadyOk: bool, listOldOk: bool, listColdOk: bool, patchOk: string -> bool,
                                     statusOk: bool, create: nat -> CreateAnswer, listDrainOk: bool, deleteOk: string -> bool)

  // ---------- Specification: desired replicas ----------

  /** The fallback when no usable annotation asks for a number. */
  function Floor(s: Scaling): int {
    if s.minReplicas > 0 then s.minReplicas else 0
  }

  function Clamp(n: int, s: Scaling): int {
    if n < s.minReplicas then s.minReplicas else if n > s.maxReplicas then s.maxReplicas else n
  }

  predicate AsksForZero(ep: Endpoint) {
    ep.annotation == Replicas(0) && ep.scaling.scaleToZeroAfter != Unset
  }

  function Desired(ep: Endpoint, idleSince: map<string, int>, now: int): int {
    if !ep.annotation.Replicas? then Floor(ep.scaling)
    else if !AsksForZero(ep) then Clamp(ep.annotation.n, ep.scaling)
    else
      match ep.scaling.scaleToZeroAfter
      case After(d) =>
        var since := if ep.name in idleSince then idleSince[ep.name] else now;
        if now - since < d then ep.scaling.minReplicas else Floor(ep.scaling)
      case _ => Floor(ep.scaling)
  }

  function IdleAfter(ep: Endpoint, idleSince: map<string, int>, now: int): map<string, int> {
    if !ep.annotation.Replicas? then idleSince
    else if !AsksForZero(ep) then idleSince - {ep.name}
    else if ep.scaling.scaleToZeroAfter.After? && ep.name !in idleSince then idleSince[ep.name := now]
    else idleSince
  }

  // ---------- Specification: counting ----------

  function Current(pods: Pods, ep: Endpoint): set<string> {
    set n | n in pods && pods[n].endpoint == ep.name && pods[n].hash == ep.hash
  }

  function Old(pods: Pods, ep: Endpoint): set<string> {
    set n | n in pods && pods[n].endpoint == ep.name && pods[n].hash != ep.hash
  }

  function ReadyOnes(pods: Pods, names: set<string>): set<string> {
    set n | n in names && n in pods && pods[n].ready
  }

  function ReadyCurrent(pods: Pods, ep: Endpoint): set<string> {
    ReadyOnes(pods, Current(pods, ep))
  }

  // ---------- Specification: creating and draining ----------

  function PodName(ep: string, index: nat): string {
    ep + "-replica-" + Numeral(index)
  }

  function NewPod(ep: Endpoint, now: int): Pod {
    Pod(ep.name, ep.hash, false, now, false, true)
  }

  /** Creates the pods with indices i, ..., desired - 1; a taken name is passed over. */
  function CreateFrom(pods: Pods, ep: Endpoint, i: nat, desired: int, env: EndpointEnv): (Pods, bool)
    decreases desired - i
  {
    if i >= desired then (pods, true)
    else if env.create(i) != CreateOk then (pods, false)
    else
      var name := PodName(ep.name, i);
      CreateFrom(if name in pods then pods else pods[name := NewPod(ep, env.now)], ep, i + 1, desired, env)
  }

  predicate Doomed(p: Pod, ep: Endpoint) {
    p.endpoint == ep.name && p.hash != ep.hash && p.hash != ""
  }

  function Drained(pods: Pods, ep: Endpoint, deleteOk: string -> bool): Pods {
    map n | n in pods && !(Doomed(pods[n], ep) && deleteOk(n)) :: pods[n]
  }

  /** The pods whose cold start is observed now. */
  predicate ColdNow(p: Pod, ep: Endpoint) {
    p.endpoint == ep.name && !p.recorded && p.ready
  }

  function ColdOnes(pods: Pods, ep: Endpoint): set<string> {
    set n | n in pods && ColdNow(pods[n], ep)
  }

  /** The marks set so far, when the pods in todo have not been visited. */
  function MarkedBut(pods: Pods, ep: Endpoint, env: EndpointEnv, todo: set<string>): Pods {
    map n | n in pods ::
      if n !in todo && ColdNow(pods[n], ep) && env.patchOk(n) then pods[n].(recorded := true) else pods[n]
  }

  function Marked(pods: Pods, ep: Endpoint, env: EndpointEnv): Pods {
    if env.listColdOk then MarkedBut(pods, ep, env, {}) else pods
  }

  /** One reconcile, as it changes the pods. */
  function ReconcilePods(pods: Pods, ep: Endpoint, idleSince: map<string, int>, env: EndpointEnv): Pods {
    if !ep.engineOk then pods
    else
      var desired := Desired(ep, idleSince, env.now);
      var ready := if env.listReadyOk then |ReadyCurrent(pods, ep)| else 0;
      var starting := if env.listReadyOk then |Current(pods, ep)| else 0;
      var oldReady := if env.listOldOk then |ReadyOnes(pods, Old(pods, ep))| else 0;
      var marked := Marked(pods, ep, env);
      if !env.statusOk || desired == 0 then marked else RolledOut(marked, ep, desired, ready, starting, oldReady, env)
  }

  /** Creation, and the end of the old generations once enough current pods are ready. */
  function RolledOut(pods: Pods, ep: Endpoint, desired: int, ready: nat, starting: nat, oldReady: nat, env: EndpointEnv): Pods {
    var (made, ok) := CreateFrom(pods, ep, ready + starting, desired, env);
    if ok && ready >= desired && oldReady > 0 && env.listDrainOk then Drained(made, ep, env.deleteOk) else made
  }

  // ---------- Specification: the cold-start window ----------

  const WINDOW: nat := 50

  /** The last WINDOW observations. */
  function LastOf(history: seq<real>): seq<real> {
    if |history| > WINDOW then history[|history| - WINDOW..] else history
  }

  function Elapsed(p: Pod, now: int): real {
    if now < p.startedAt then 0.0 else (now - p.startedAt) as real / 1000000000.0
  }

  /** What the cold starts of these pods took, one after the other. */
  function ElapsedOf(pods: Pods, order: seq<string>, now: int): seq<real> {
    if order == [] then []
    else
      var last := order[|order| - 1];
      ElapsedOf(pods, order[..|order| - 1], now) + if last in pods then [Elapsed(pods[last], now)] else []
  }

  /** The names of the pods whose cold start is observed now, each once, those in todo left out. */
  ghost predicate Visited(order: seq<string>, pods: Pods, ep: Endpoint, todo: set<string>) {
    NoDuplicates(order) && forall n :: n in order <==> n in ColdOnes(pods, ep) && n !in todo
  }

  function SamplesOf(m: map<string, seq<real>>, key: string): seq<real> {
    if key in m then m[key] else []
  }

  // ---------- The controller ----------

  class Reconciler {
    var pods: Pods
    var idleSince: map<string, int>
    var coldSamples: map<string, seq<real>>
    /** Every cold start ever observed, per endpoint. */
    ghost var history: map<string, seq<real>>

    ghost predicate Valid()
      reads this
    {
      coldSamples.Keys == history.Keys && forall key :: key in history ==> coldSamples[key] == LastOf(history[key])
    }

    constructor (pods: Pods)
      ensures Valid() && this.pods == pods && idleSince == map[] && coldSamples == map[]
    {
      this.pods, idleSince, coldSamples, history := pods, map[], map[], map[];
    }

    method DesiredReplicas(ep: Endpoint, now: int) returns (desired: int)
      modifies this`idleSince
      ensures desired == Desired(ep, old(idleSince), now)
      ensures idleSince == IdleAfter(ep, old(idleSince), now)
    {
      if ep.annotation.Replicas? {
        var n := ep.annotation.n;
        if n == 0 && ep.scaling.scaleToZeroAfter != Unset {
          if ep.scaling.scaleToZeroAfter.After? {
            if ep.name !in idleSince {
              idleSince := idleSince[ep.name := now];
            }
            if now - idleSince[ep.name] < ep.scaling.scaleToZeroAfter.d {
              return ep.scaling.minReplicas;
            }
          }
        } else {
          idleSince := idleSince - {ep.name};
          if n < ep.scaling.minReplicas {
            return ep.scaling.minReplicas;
          }
          if n > ep.scaling.maxReplicas {
            return ep.scaling.maxReplicas;
          }
          return n;
        }
      }
      if ep.scaling.minReplicas > 0 {
        return ep.scaling.minReplicas;
      }
      return 0;
    }

    /** Counts the pods of the current hash, or of every other hash. */
    method CountReplicaPods(ep: Endpoint, current: bool, listOk: bool) returns (ready: nat, total: nat)
      ensures var names := if current then Current(pods, ep) else Old(pods, ep);
              listOk ==> ready == |ReadyOnes(pods, names)| && total == |names|
      ensures !listOk ==> ready == 0 && total == 0
    {
      ready, total := 0, 0;
      if !listOk {
        return;
      }
      ghost var names := if current then Current(pods, ep) else Old(pods, ep);
      var todo := pods.Keys;
      while todo != {}
        invariant todo <= pods.Keys
        invariant total == |names - todo|
        invariant ready == |ReadyOnes(pods, names) - todo|
        decreases |todo|
      {
        var n :| n in todo;
        CountOneMore(names, todo, n);
        CountOneMore(ReadyOnes(pods, names), todo, n);
        todo := todo - {n};
        var p := pods[n];
        if p.endpoint != ep.name || (p.hash == ep.hash) != current {
          continue;
        }
        total := total + 1;
        if p.ready {
          ready := ready + 1;
        }
      }
    }

    /** Deletes the pods of other generations; a failing deletion is ignored. */
    method DrainOldHashPods(ep: Endpoint, env: EndpointEnv)
      modifies this`pods
      ensures pods == if env.listDrainOk then Drained(old(pods), ep, env.deleteOk) else old(pods)
    {
      if !env.listDrainOk {
        return;
      }
      var before := pods;
      var todo := pods.Keys;
      while todo != {}
        invariant todo <= before.Keys
        invariant pods == map n | n in before && (n in todo || !(Doomed(before[n], ep) && env.deleteOk(n))) :: before[n]
        decreases |todo|
      {
        var n :| n in todo;
        todo := todo - {n};
        var p := before[n];
        if p.endpoint != ep.name || p.hash == ep.hash || p.hash == "" {
          continue;
        }
        if env.deleteOk(n) {
          pods := pods - {n};
        }
      }
    }

    /** Adds one observation to an endpoint's window. */
    method Observe(key: string, elapsed: real) returns (p50: int, p95: int)
      requires Valid()
      modifies this`coldSamples, this`history
      ensures Valid()
      ensures history == old(history)[key := SamplesOf(old(history), key) + [elapsed]]
      ensures (p50, p95) == Percentile.PercentileMs(coldSamples[key])
    {
      ghost var seen := SamplesOf(history, key);
      var samples := (if key in coldSamples then coldSamples[key] else []) + [elapsed];
      assert samples == LastOf(seen) + [elapsed];
      if |samples| > WINDOW {
        samples := samples[|samples| - WINDOW..];
      }
      assert samples == LastOf(seen + [elapsed]);
      coldSamples := coldSamples[key := samples];
      history := history[key := seen + [elapsed]];
      p50, p95 := Percentile.ComputePercentileMs(samples);
    }

    /** Observes a newly ready pod and marks it; a pod whose mark does not stick is observed again later. */
    method VisitPod(ep: Endpoint, env: EndpointEnv, n: string) returns (visited: bool, p50: int, p95: int)
      requires Valid() && n in pods
      modifies this`pods, this`coldSamples, this`history
      ensures Valid() && visited == ColdNow(old(pods)[n], ep)
      ensures pods == if visited && env.patchOk(n) then old(pods)[n := old(pods)[n].(recorded := true)] else old(pods)
      ensures history == if visited
                         then old(history)[ep.name := SamplesOf(old(history), ep.name) + [Elapsed(old(pods)[n], env.now)]]
                         else old(history)
      ensures visited ==> ep.name in coldSamples && (p50, p95) == Percentile.PercentileMs(coldSamples[ep.name])
      ensures !visited ==> coldSamples == old(coldSamples)
    {
      visited, p50, p95 := false, 0, 0;
      var p := pods[n];
      if p.endpoint != ep.name || p.recorded || !p.ready {
        return;
      }
      visited := true;
      p50, p95 := Observe(ep.name, Elapsed(p, env.now));
      if env.patchOk(n) {
        pods := pods[n := p.(recorded := true)];
      }
    }

    /** Visits the pods in the order in which they happen to be listed, and observes each cold start once. */
    method RecordColdStarts(ep: Endpoint, env: EndpointEnv) returns (ghost order: seq<string>)
      requires Valid()
      modifies this`pods, this`coldSamples, this`history
      ensures Valid()
      ensures pods == Marked(old(pods), ep, env)
      ensures if env.listColdOk then Visited(order, old(pods), ep, {}) else order == []
      ensures SamplesOf(history, ep.name) == SamplesOf(old(history), ep.name) + ElapsedOf(old(pods), order, env.now)
    {
      order := [];
      if !env.listColdOk {
        return;
      }
      var before := pods;
      ghost var seen := SamplesOf(history, ep.name);
      var todo := pods.Keys;
      while todo != {}
        invariant Valid() && todo <= before.Keys
        invariant pods == MarkedBut(before, ep, env, todo)
        invariant Visited(order, before, ep, todo)
        invariant SamplesOf(history, ep.name) == seen + ElapsedOf(before, order, env.now)
        decreases |todo|
      {
        var n :| n in todo;
        MarkOne(before, ep, env, todo, n);
        VisitOne(order, before, ep, todo, n, env.now);
        todo := todo - {n};
        var visited, _, _ := VisitPod(ep, env, n);
        if visited {
          Concat3(seen, ElapsedOf(before, order, env.now), [Elapsed(before[n], env.now)]);
          order := order + [n];
        }
      }
    }

    /** Creates the missing indices; stops at the first error other than a taken name. */
    method CreatePods(ep: Endpoint, from: nat, desired: int, env: EndpointEnv) returns (ok: bool)
      modifies this`pods
      ensures (pods, ok) == CreateFrom(old(pods), ep, from, desired, env)
    {
      var i := from;
      while i < desired
        invariant i >= from && CreateFrom(pods, ep, i, desired, env) == CreateFrom(old(pods), ep, from, desired, env)
        decreases desired - i
      {
        if env.create(i) != CreateOk {
          return false;
        }
        var name := PodName(ep.name, i);
        if name !in pods {
          pods := pods[name := NewPod(ep, env.now)];
        }
        i := i + 1;
      }
      return true;
    }

    /** One reconcile of an endpoint. */
    method Reconcile(ep: Endpoint, env: EndpointEnv)
      requires Valid()
      modifies this
      ensures Valid()
      ensures pods == ReconcilePods(old(pods), ep, old(idleSince), env)
      ensures idleSince == if ep.engineOk then IdleAfter(ep, old(idleSince), env.now) else old(idleSince)
    {
      if !ep.engineOk {
        return;
      }
      var desired := DesiredReplicas(ep, env.now);
      var ready, starting := CountReplicaPods(ep, true, env.listReadyOk);
      var oldReady, _ := CountReplicaPods(ep, false, env.listOldOk);
      ghost var _ := RecordColdStarts(ep, env);
      if !env.statusOk {
        return;
      }
      if desired == 0 {
        return;
      }
      RollOut(ep, desired, ready, starting, oldReady, env);
    }

    /** The end of a reconcile: create, and drain once enough current pods are ready. */
    method RollOut(ep: Endpoint, desired: int, ready: nat, starting: nat, oldReady: nat, env: EndpointEnv)
      modifies this`pods
      ensures pods == RolledOut(old(pods), ep, desired, ready, starting, oldReady, env)
    {
      var ok := CreatePods(ep, ready + starting, desired, env);
      if !ok {
        return;
      }
      if ready >= desired && oldReady > 0 {
        DrainOldHashPods(ep, env);
      }
    }
  }

  lemma CountOneMore(names: set<string>, todo: set<string>, n: string)
    requires n in todo
    ensures |names - (todo - {n})| == |names - todo| + if n in names then 1 else 0
  {
    assert names - (todo - {n}) == names - todo + if n in names then {n} else {};
  }

  lemma VisitOne(order: seq<string>, pods: Pods, ep: Endpoint, todo: set<string>, n: string, now: int)
    requires Visited(order, pods, ep, todo) && n in todo && n in pods
    ensures Visited(if ColdNow(pods[n], ep) then order + [n] else order, pods, ep, todo - {n})
    ensures ElapsedOf(pods, order + [n], now) == ElapsedOf(pods, order, now) + [Elapsed(pods[n], now)]
  {
    assert (order + [n])[..|order|] == order && n !in order;
    assert forall x :: x in order + [n] <==> x in order || x == n;
  }

  lemma MarkOne(pods: Pods, ep: Endpoint, env: EndpointEnv, todo: set<string>, n: string)
    requires n in todo && n in pods
    ensures MarkedBut(pods, ep, env, todo - {n})
         == if ColdNow(pods[n], ep) && env.patchOk(n)
            then MarkedBut(pods, ep, env, todo)[n := pods[n].(recorded := true)]
            else MarkedBut(pods, ep, env, todo)
  {
  }

  /** Seconds since the start in nanoseconds, and none before it. */
  lemma ElapsedIsSeconds(p: Pod, now: int)
    ensures Elapsed(p, now) * 1000000000.0 == if now > p.startedAt then (now - p.startedAt) as real else 0.0
  {
  }

  /** The window after a whole history, when every observation is appended and the result trimmed. */
  function WindowAfter(history: seq<real>): seq<real> {
    if history == [] then [] else LastOf(WindowAfter(history[..|history| - 1]) + [history[|history| - 1]])
  }

  /** Trimming after every observation keeps exactly the last 50 of the full history. */
  lemma {:induction false} WindowIsLast(history: seq<real>)
    ensures WindowAfter(history) == if |history| > 50 then history[|history| - 50..] else history
    decreases |history|
  {
    if history != [] {
      var init, last := history[..|history| - 1], history[|history| - 1];
      WindowIsLast(init);
      assert init + [last] == history;
    }
  }
}
