/** The gateway's autoscaler: replica targets and the smoothed demand signal, in real arithmetic. */
module Autoscaler {
  import opened Router

  const ALPHA: real := 0.3
  const KEEP: real := 0.7

  type Signals = map<string, real>

  datatype Scaling = Scaling(minReplicas: int, maxReplicas: int, target: int)

  // ---------- Specification ----------

  function SignalOf(ewma: Signals, name: string): real {
    if name in ewma then ewma[name] else 0.0
  }

  function Smoothed(ewma: Signals, name: string, load: nat): Signals {
    ewma[name := ALPHA * load as real + KEEP * SignalOf(ewma, name)]
  }

  function Wanted(s: Scaling, load: nat): int {
    var per := if s.target <= 0 then 8 else s.target;
    var n := load / per;
    var low := if n < s.minReplicas then s.minReplicas else n;
    if low > s.maxReplicas then s.maxReplicas else low
  }

  /** The sum of all signals; the order of summation does not matter in real arithmetic. */
  ghost function TotalOf(ewma: Signals): real
    decreases |ewma|
  {
    if ewma == map[] then 0.0
    else
      var n :| n in ewma;
      ewma[n] + TotalOf(ewma - {n})
  }

  // ---------- The autoscaler ----------

  class Scaler {
    var ewma: Signals

    constructor ()
      ensures ewma == map[]
    {
      ewma := map[];
    }

    method Evaluate(name: string, s: Scaling, inFlight: nat, queueDepth: nat) returns (desired: int)
      modifies this
      ensures ewma == Smoothed(old(ewma), name, inFlight + queueDepth)
      ensures desired == Wanted(s, inFlight + queueDepth)
    {
      var target := s.target;
      if target <= 0 {
        target := 8;
      }
      desired := (inFlight + queueDepth) / target;
      if desired < s.minReplicas {
        desired := s.minReplicas;
      }
      if desired > s.maxReplicas {
        desired := s.maxReplicas;
      }
      var prev := if name in ewma then ewma[name] else 0.0;
      ewma := ewma[name := ALPHA * (inFlight + queueDepth) as real + KEEP * prev];
    }

    method TotalDemand() returns (total: real)
      ensures total == TotalOf(ewma)
    {
      total := 0.0;
      var rest := ewma;
      while rest != map[]
        invariant rest.Keys <= ewma.Keys && forall n :: n in rest ==> rest[n] == ewma[n]
        invariant total + TotalOf(rest) == TotalOf(ewma)
        decreases |rest|
      {
        var n: string :| n in rest.Keys;
        TotalWithout(rest, n);
        total := total + rest[n];
        rest := rest - {n};
      }
    }

    /** What is written to every buffer policy: the total, or the current load when the total is zero. */
    method ExportDemand(load: nat) returns (demand: real)
      ensures demand == if TotalOf(ewma) == 0.0 then load as real else TotalOf(ewma)
    {
      demand := TotalDemand();
      if demand == 0.0 {
        demand := load as real;
      }
    }
  }

  /** A replica pod as the sync sees it. */
  datatype PodInfo = PodInfo(ip: string, ready: bool)

  function ReadyUrls(pods: seq<PodInfo>): seq<string> {
    if pods == [] then []
    else
      var p := pods[|pods| - 1];
      ReadyUrls(pods[..|pods| - 1]) + if p.ip != "" && p.ready then ["http://" + p.ip + ":8000"] else []
  }

  class K8sSync {
    const router: Router
    const scaler: Scaler

    constructor (router: Router, scaler: Scaler)
      ensures this.router == router && this.scaler == scaler
    {
      this.router, this.scaler := router, scaler;
    }

    /**
     * One sync with no request handler running in between. Registration comes before the counters are
     * read, so the load it scales by is always zero. When the pods cannot be listed nothing happens.
     */
    method SyncEndpoint(name: string, modelID: string, listOk: bool, pods: seq<PodInfo>, s: Scaling)
      returns (synced: bool, desired: int, demand: real)
      modifies router, scaler
      ensures synced == listOk
      ensures !listOk ==> router.endpoints == old(router.endpoints) && scaler.ewma == old(scaler.ewma)
      ensures listOk ==> router.endpoints == Registered(old(router.endpoints), name, modelID, ReadyUrls(pods))
      ensures listOk ==> scaler.ewma == Smoothed(old(scaler.ewma), name, 0)
      ensures listOk ==> desired == Wanted(s, 0) && demand == TotalOf(scaler.ewma)
    {
      synced, desired, demand := listOk, 0, 0.0;
      if !listOk {
        return;
      }
      var urls := [];
      for i := 0 to |pods|
        invariant urls == ReadyUrls(pods[..i])
      {
        assert pods[..i + 1][..i] == pods[..i];
        if pods[i].ip == "" {
          continue;
        }
        if pods[i].ready {
          urls := urls + ["http://" + pods[i].ip + ":8000"];
        }
      }
      assert pods[..|pods|] == pods;
      router.RegisterEndpoint(name, modelID, urls);
      var inFlight := router.InFlight(name);
      var queue := router.QueueDepth(name);
      desired := scaler.Evaluate(name, s, inFlight, queue);
      demand := scaler.ExportDemand(inFlight + queue);
    }
  }

  // ---------- Wanted replicas and registered pods ----------

  /**
   * Each replica takes the target load, or 8 if none is set: unless the maximum is reached, the load is less than
   * one replica more could take, and unless the minimum is, it keeps all replicas busy.
   */
  lemma WantedServesLoad(s: Scaling, load: nat)
    ensures var n, per := Wanted(s, load), if s.target > 0 then s.target else 8;
            && n <= s.maxReplicas
            && (s.minReplicas <= s.maxReplicas ==> s.minReplicas <= n)
            && (s.minReplicas > s.maxReplicas ==> n == s.maxReplicas)
            && (n < s.maxReplicas ==> load < (n + 1) * per)
            && (s.minReplicas < n ==> n * per <= load)
  {
    var per := if s.target > 0 then s.target else 8;
    assert load == load / per * per + load % per;
    LessTimes(load / per, per, Wanted(s, load));
  }

  lemma LessTimes(a: int, per: nat, b: int)
    ensures a <= b ==> (a + 1) * per <= (b + 1) * per
    ensures b <= a ==> b * per <= a * per
  {
    if a <= b {
      assert (b - a) * per >= 0;
    } else {
      assert (a - b) * per >= 0;
    }
  }

  /** The pods that are ready and have an address, in their order. */
  function Reachable(pods: seq<PodInfo>): set<nat> {
    set i: nat | i < |pods| && pods[i].ready && pods[i].ip != ""
  }

  lemma ReachableLast(pods: seq<PodInfo>)
    requires pods != []
    ensures |Reachable(pods)| == |Reachable(pods[..|pods| - 1])| + if |pods| - 1 in Reachable(pods) then 1 else 0
  {
    var last: nat := |pods| - 1;
    assert Reachable(pods) == Reachable(pods[..last]) + if last in Reachable(pods) then {last} else {};
  }

  lemma {:induction false} UrlsOfReadyPods(pods: seq<PodInfo>)
    ensures |ReadyUrls(pods)| == |Reachable(pods)|
    decreases |pods|
  {
    if pods == [] {
      assert Reachable(pods) == {};
    } else {
      UrlsOfReadyPods(pods[..|pods| - 1]);
      ReachableLast(pods);
    }
  }

  /** Every ready pod with an address has its URL, in order; there are no others. */
  lemma {:induction false} UrlOfReadyPod(pods: seq<PodInfo>, i: nat)
    requires i in Reachable(pods)
    ensures |ReadyUrls(pods)| == |Reachable(pods)| > |Reachable(pods[..i])|
    ensures ReadyUrls(pods)[|Reachable(pods[..i])|] == "http://" + pods[i].ip + ":8000"
    decreases |pods|
  {
    var init := pods[..|pods| - 1];
    UrlsOfReadyPods(pods);
    UrlsOfReadyPods(init);
    ReachableLast(pods);
    if i < |init| {
      UrlOfReadyPod(init, i);
      assert init[..i] == pods[..i];
    }
  }

  // ---------- Sums over a map ----------

  lemma {:induction false} TotalWithout(ewma: Signals, n: string)
    requires n in ewma
    ensures TotalOf(ewma) == ewma[n] + TotalOf(ewma - {n})
    decreases |ewma|
  {
    var k :| k in ewma && TotalOf(ewma) == ewma[k] + TotalOf(ewma - {k});
    if k != n {
      TotalWithout(ewma - {k}, n);
      TotalWithout(ewma - {n}, k);
      assert ewma - {k} - {n} == ewma - {n} - {k};
    }
  }

  lemma {:induction false} TotalIsNatural(ewma: Signals)
    requires forall n :: n in ewma ==> ewma[n] >= 0.0
    ensures TotalOf(ewma) >= 0.0
    ensures forall n :: n in ewma ==> ewma[n] <= TotalOf(ewma)
    decreases |ewma|
  {
    if ewma != map[] {
      var k :| k in ewma;
      TotalWithout(ewma, k);
      TotalIsNatural(ewma - {k});
      forall n | n in ewma ensures ewma[n] <= TotalOf(ewma) {
        if n != k {
          assert n in ewma - {k};
        }
      }
    }
  }

  // ---------- The signal as a weighted sum ----------

  datatype Call = Call(name: string, load: nat)

  function RunCalls(ewma: Signals, calls: seq<Call>): Signals
    decreases |calls|
  {
    if calls == [] then ewma
    else
      var last := calls[|calls| - 1];
      Smoothed(RunCalls(ewma, calls[..|calls| - 1]), last.name, last.load)
  }

  /** An endpoint's own loads, oldest first. */
  function LoadsOf(calls: seq<Call>, name: string): seq<nat> {
    if calls == [] then []
    else
      var last := calls[|calls| - 1];
      LoadsOf(calls[..|calls| - 1], name) + if last.name == name then [last.load] else []
  }

  function Power(k: nat): real {
    if k == 0 then 1.0 else 0.7 * Power(k - 1)
  }

  /** The sum over k below upto of 0.3 * 0.7^(n-1-k) * load k, with n the number of loads. */
  function WeightedSum(loads: seq<nat>, upto: nat): real
    requires upto <= |loads|
    decreases upto
  {
    if upto == 0 then 0.0
    else WeightedSum(loads, upto - 1) + 0.3 * Power(|loads| - upto) * loads[upto - 1] as real
  }

  lemma {:induction false} OlderLoadsFade(loads: seq<nat>, x: nat, upto: nat)
    requires upto <= |loads|
    ensures WeightedSum(loads + [x], upto) == KEEP * WeightedSum(loads, upto)
    decreases upto
  {
    if upto > 0 {
      OlderLoadsFade(loads, x, upto - 1);
      var p, l := Power(|loads| - upto), loads[upto - 1] as real;
      assert Power(|loads| + 1 - upto) == KEEP * p;
    }
  }

  /**
   * After any interleaving of calls for any endpoints, an endpoint's signal is the weighted sum of its
   * own loads: other endpoints do not influence it.
   */
  lemma {:induction false} SignalIsWeightedSum(calls: seq<Call>, name: string)
    ensures var loads := LoadsOf(calls, name);
            SignalOf(RunCalls(map[], calls), name) == WeightedSum(loads, |loads|)
    decreases |calls|
  {
    if calls != [] {
      var init, last := calls[..|calls| - 1], calls[|calls| - 1];
      SignalIsWeightedSum(init, name);
      if last.name == name {
        var loads := LoadsOf(init, name);
        OlderLoadsFade(loads, last.load, |loads|);
        assert Power(0) == 1.0;
      } else {
        assert LoadsOf(calls, name) == LoadsOf(init, name) + [] == LoadsOf(init, name);
      }
    }
  }

  /** So the signal lies between 0 and the endpoint's greatest load. */
  lemma {:induction false} SignalIsBounded(calls: seq<Call>, name: string, greatest: nat)
    requires forall i :: 0 <= i < |calls| && calls[i].name == name ==> calls[i].load <= greatest
    ensures 0.0 <= SignalOf(RunCalls(map[], calls), name) <= greatest as real
    decreases |calls|
  {
    if calls != [] {
      SignalIsBounded(calls[..|calls| - 1], name, greatest);
      assert calls[|calls| - 1].name == name ==> calls[|calls| - 1].load <= greatest;
    }
  }

  /** On a constant load every call closes the gap by the factor 0.7. */
  lemma {:induction false} SignalApproachesLoad(ewma: Signals, name: string, load: nat, calls: seq<Call>)
    requires forall i :: 0 <= i < |calls| ==> calls[i] == Call(name, load)
    ensures SignalOf(RunCalls(ewma, calls), name) - load as real
         == Power(|calls|) * (SignalOf(ewma, name) - load as real)
    decreases |calls|
  {
    if calls != [] {
      SignalApproachesLoad(ewma, name, load, calls[..|calls| - 1]);
      var gap := SignalOf(ewma, name) - load as real;
      assert (KEEP * Power(|calls| - 1)) * gap == KEEP * (Power(|calls| - 1) * gap);
    }
  }

  /**
   * After any calls, the zero fallback never changes what is exported: the total is zero only if the
   * load of the latest call is.
   */
  lemma FallbackChangesNothing(calls: seq<Call>)
    requires calls != []
    ensures var total := TotalOf(RunCalls(map[], calls));
            (if total == 0.0 then calls[|calls| - 1].load as real else total) == total
  {
    var ewma, last := RunCalls(map[], calls), calls[|calls| - 1];
    LoadsBounded(calls);
    forall n | n in ewma ensures ewma[n] >= 0.0 {
      SignalIsBounded(calls, n, GreatestLoad(calls));
    }
    TotalIsNatural(ewma);
    var init := calls[..|calls| - 1];
    LoadsBounded(init);
    SignalIsBounded(init, last.name, GreatestLoad(init));
    assert ewma[last.name] == ALPHA * last.load as real + KEEP * SignalOf(RunCalls(map[], init), last.name);
  }

  function GreatestLoad(calls: seq<Call>): nat {
    if calls == [] then 0
    else
      var g, l := GreatestLoad(calls[..|calls| - 1]), calls[|calls| - 1].load;
      if l > g then l else g
  }

  lemma {:induction false} LoadsBounded(calls: seq<Call>)
    ensures forall i :: 0 <= i < |calls| ==> calls[i].load <= GreatestLoad(calls)
    decreases |calls|
  {
    if calls != [] {
      LoadsBounded(calls[..|calls| - 1]);
    }
  }
}

/** How much load a sync can see. */
module SyncedLoad {
  import opened Router
  import opened RouterRuns
  import Autoscaler

  lemma {:induction false} LoadGrowsStepwise(g: Gateway, es: seq<Event>, name: string)
    requires ValidRun(g, es)
    ensures var h := Run(g, es);
            InFlightOf(h.endpoints, name) + DepthOf(h.endpoints, name)
            <= InFlightOf(g.endpoints, name) + DepthOf(g.endpoints, name) + |es|
    decreases |es|
  {
    if es != [] {
      LoadGrowsStepwise(Apply(g, es[0]), es[1..], name);
    }
  }

  /**
   * However many requests are live, the load read after a registration counts only the handler steps
   * that ran in between; with none, the wanted replicas are those of an idle endpoint.
   */
  lemma SyncSeesOnlyTheGap(g: Gateway, name: string, modelID: string, urls: seq<string>, es: seq<Event>,
                           s: Autoscaler.Scaling)
    requires ValidRun(Apply(g, Register(name, modelID, urls)), es)
    ensures var h := Run(Apply(g, Register(name, modelID, urls)), es);
            var load := InFlightOf(h.endpoints, name) + DepthOf(h.endpoints, name);
            load <= |es|
            && (0 <= s.minReplicas <= s.maxReplicas && es == [] ==> Autoscaler.Wanted(s, load) == s.minReplicas)
  {
    LoadGrowsStepwise(Apply(g, Register(name, modelID, urls)), es, name);
  }
}
