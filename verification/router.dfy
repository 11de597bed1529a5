/** The gateway's router: registration, replica choice and queue counters. */
module Router {

  datatype EndpointState = EndpointState(modelID: string, urls: seq<string>, inFlight: nat, queueDepth: nat)

  type Endpoints = map<string, EndpointState>

  datatype Picked = NoReplica | Replica(url: string)

  // ---------- Specification ----------

  /** Registering replaces the whole state: both counters start again at zero. */
  function Registered(eps: Endpoints, name: string, modelID: string, urls: seq<string>): Endpoints {
    eps[name := EndpointState(modelID, urls, 0, 0)]
  }

  predicate CanPick(eps: Endpoints, name: string) {
    name in eps && eps[name].urls != []
  }

  function PickOf(eps: Endpoints, name: string): (r: Picked)
    ensures r.Replica? <==> CanPick(eps, name)
  {
    if !CanPick(eps, name) then NoReplica
    else
      var ep := eps[name];
      Replica(ep.urls[ep.inFlight % |ep.urls|])
  }

  function AfterPick(eps: Endpoints, name: string): Endpoints {
    if CanPick(eps, name) then eps[name := eps[name].(inFlight := eps[name].inFlight + 1)] else eps
  }

  function Queued(eps: Endpoints, name: string): Endpoints {
    if name in eps then eps[name := eps[name].(queueDepth := eps[name].queueDepth + 1)] else eps
  }

  function Dequeued(eps: Endpoints, name: string): Endpoints {
    if name in eps && eps[name].queueDepth > 0
    then eps[name := eps[name].(queueDepth := eps[name].queueDepth - 1)]
    else eps
  }

  function DepthOf(eps: Endpoints, name: string): nat {
    if name in eps then eps[name].queueDepth else 0
  }

  function InFlightOf(eps: Endpoints, name: string): nat {
    if name in eps then eps[name].inFlight else 0
  }

  // ---------- The router; every method holds its lock for its whole body ----------

  class Router {
    var endpoints: Endpoints

    constructor ()
      ensures endpoints == map[]
    {
      endpoints := map[];
    }

    method RegisterEndpoint(name: string, modelID: string, urls: seq<string>)
      modifies this
      ensures endpoints == Registered(old(endpoints), name, modelID, urls)
    {
      endpoints := endpoints[name := EndpointState(modelID, urls, 0, 0)];
    }

    /** The URL chosen, or the empty string. */
    method PickReplica(name: string) returns (url: string)
      modifies this
      ensures endpoints == AfterPick(old(endpoints), name)
      ensures url == match PickOf(old(endpoints), name) case NoReplica => "" case Replica(u) => u
    {
      if name !in endpoints || |endpoints[name].urls| == 0 {
        return "";
      }
      var ep := endpoints[name];
      var idx := ep.inFlight % |ep.urls|;
      endpoints := endpoints[name := ep.(inFlight := ep.inFlight + 1)];
      return ep.urls[idx];
    }

    method IncQueue(name: string)
      modifies this
      ensures endpoints == Queued(old(endpoints), name)
    {
      if name in endpoints {
        endpoints := endpoints[name := endpoints[name].(queueDepth := endpoints[name].queueDepth + 1)];
      }
    }

    method DecQueue(name: string)
      modifies this
      ensures endpoints == Dequeued(old(endpoints), name)
    {
      if name in endpoints && endpoints[name].queueDepth > 0 {
        endpoints := endpoints[name := endpoints[name].(queueDepth := endpoints[name].queueDepth - 1)];
      }
    }

    method InFlight(name: string) returns (n: nat)
      ensures n == InFlightOf(endpoints, name)
    {
      if name in endpoints {
        return endpoints[name].inFlight;
      }
      return 0;
    }

    method QueueDepth(name: string) returns (n: nat)
      ensures n == DepthOf(endpoints, name)
    {
      if name in endpoints {
        return endpoints[name].queueDepth;
      }
      return 0;
    }

    /** The first match in whatever order the map is iterated. */
    method PickEndpointByModel(model: string) returns (found: bool, name: string)
      ensures found <==> exists n :: n in endpoints && (endpoints[n].modelID == model || n == model)
      ensures found ==> name in endpoints && (endpoints[name].modelID == model || name == model)
    {
      var todo := endpoints.Keys;
      while todo != {}
        invariant todo <= endpoints.Keys
        invariant forall n :: n in endpoints && n !in todo ==> endpoints[n].modelID != model && n != model
        decreases |todo|
      {
        var n :| n in todo;
        if endpoints[n].modelID == model || n == model {
          return true, n;
        }
        todo := todo - {n};
      }
      return false, "";
    }
  }
}

/** Request handlers and registrations interleaved. */
module RouterRuns {
  import opened RoundRobin
  import opened Router

  type Id = nat

  datatype Registration = Registration(modelID: string, urls: seq<string>)

  /**
   * The router's map, the endpoint of every request between IncQueue and DecQueue, the endpoints
   * re-registered while a request was live and not idle since, each endpoint's last registration, and the
   * URLs served since then.
   */
  datatype Gateway = Gateway(endpoints: Endpoints, live: map<Id, string>, disturbed: set<string>,
                             given: map<string, Registration>, served: map<string, seq<string>>)

  datatype Event =
    | Register(name: string, modelID: string, urls: seq<string>)
    | Arrive(id: Id, name: string)
    | Dispatch(id: Id)
    | Finish(id: Id)

  predicate Enabled(g: Gateway, e: Event) {
    match e
    case Register(_, _, _) => true
    case Arrive(id, name) => id !in g.live && name in g.endpoints
    case Dispatch(id) => id in g.live
    case Finish(id) => id in g.live
  }

  function LiveOn(live: map<Id, string>, name: string): set<Id> {
    set id | id in live && live[id] == name
  }

  function ServedOf(g: Gateway, name: string): seq<string> {
    if name in g.served then g.served[name] else []
  }

  function Apply(g: Gateway, e: Event): Gateway
    requires Enabled(g, e)
  {
    match e
    case Register(name, modelID, urls) =>
      Gateway(Registered(g.endpoints, name, modelID, urls), g.live,
              if LiveOn(g.live, name) != {} then g.disturbed + {name} else g.disturbed,
              g.given[name := Registration(modelID, urls)], g.served[name := []])
    case Arrive(id, name) =>
      g.(endpoints := Queued(g.endpoints, name), live := g.live[id := name])
    case Dispatch(id) =>
      var name := g.live[id];
      g.(endpoints := AfterPick(g.endpoints, name),
         served := match PickOf(g.endpoints, name)
                   case NoReplica => g.served
                   case Replica(url) => g.served[name := ServedOf(g, name) + [url]])
    case Finish(id) =>
      var name, live := g.live[id], g.live - {id};
      g.(endpoints := Dequeued(g.endpoints, name), live := live,
         disturbed := if LiveOn(live, name) == {} then g.disturbed - {name} else g.disturbed)
  }

  predicate ValidRun(g: Gateway, es: seq<Event>)
    decreases |es|
  {
    es == [] || (Enabled(g, es[0]) && ValidRun(Apply(g, es[0]), es[1..]))
  }

  function Run(g: Gateway, es: seq<Event>): Gateway
    requires ValidRun(g, es)
    decreases |es|
  {
    if es == [] then g else Run(Apply(g, es[0]), es[1..])
  }

  function Initial(): Gateway {
    Gateway(map[], map[], {}, map[], map[])
  }

  // ---------- Queue depth ----------

  /** Live requests are on registered endpoints, and exactly the disturbed endpoints miss some of theirs. */
  ghost predicate DepthOk(g: Gateway, name: string) {
    && (|LiveOn(g.live, name)| > 0 ==> name in g.endpoints)
    && DepthOf(g.endpoints, name) <= |LiveOn(g.live, name)|
    && (name in g.disturbed <==> DepthOf(g.endpoints, name) < |LiveOn(g.live, name)|)
  }

  lemma LiveAfterArrive(live: map<Id, string>, id: Id, name: string, other: string)
    requires id !in live
    ensures |LiveOn(live[id := name], other)| == |LiveOn(live, other)| + if other == name then 1 else 0
  {
    assert LiveOn(live[id := name], other) == LiveOn(live, other) + if other == name then {id} else {};
  }

  lemma LiveAfterFinish(live: map<Id, string>, id: Id, other: string)
    requires id in live
    ensures |LiveOn(live - {id}, other)| == |LiveOn(live, other)| - if other == live[id] then 1 else 0
  {
    assert other == live[id] ==> id in LiveOn(live, other);
    assert LiveOn(live - {id}, other) == LiveOn(live, other) - if other == live[id] then {id} else {};
  }

  lemma StepDepthOk(g: Gateway, e: Event, name: string)
    requires DepthOk(g, name) && Enabled(g, e)
    ensures DepthOk(Apply(g, e), name)
  {
    if e.Arrive? {
      LiveAfterArrive(g.live, e.id, e.name, name);
    } else if e.Finish? {
      assert e.id in LiveOn(g.live, g.live[e.id]);
      LiveAfterFinish(g.live, e.id, name);
    } else {
      assert Apply(g, e).live == g.live;
    }
  }

  /**
   * An endpoint is as it was last registered, the in-flight count is the number of choices since then, and the
   * k-th choice was URL k modulo the number of URLs.
   */
  ghost predicate ServedOk(g: Gateway, name: string) {
    && (name in g.endpoints <==> name in g.given)
    && InFlightOf(g.endpoints, name) == |ServedOf(g, name)|
    && (name in g.given ==>
          && Registration(g.endpoints[name].modelID, g.endpoints[name].urls) == g.given[name]
          && InRotation(ServedOf(g, name), g.given[name].urls, 0))
  }

  /** The URLs in turn, beginning with the one at place start. */
  ghost predicate InRotation(served: seq<string>, urls: seq<string>, start: nat) {
    && (urls == [] ==> served == [])
    && forall k :: 0 <= k < |served| ==> served[k] == urls[(start + k) % |urls|]
  }

  lemma StepServedOk(g: Gateway, e: Event, name: string)
    requires ServedOk(g, name) && Enabled(g, e)
    ensures ServedOk(Apply(g, e), name)
  {
  }

  lemma {:induction false} RunKeepsCounts(g: Gateway, es: seq<Event>, name: string)
    requires DepthOk(g, name) && ServedOk(g, name) && ValidRun(g, es)
    ensures DepthOk(Run(g, es), name) && ServedOk(Run(g, es), name)
    decreases |es|
  {
    if es != [] {
      StepDepthOk(g, es[0], name);
      StepServedOk(g, es[0], name);
      RunKeepsCounts(Apply(g, es[0]), es[1..], name);
    }
  }

  /**
   * In every interleaving, an endpoint's queue depth is at most its number of live requests, and equal
   * to it if and only if the endpoint has been idle since its last registration over a live request.
   */
  lemma QueueDepthCountsLiveRequests(es: seq<Event>, name: string)
    requires ValidRun(Initial(), es)
    ensures var g := Run(Initial(), es);
            && DepthOf(g.endpoints, name) <= |LiveOn(g.live, name)|
            && (name !in g.disturbed <==> DepthOf(g.endpoints, name) == |LiveOn(g.live, name)|)
  {
    RunKeepsCounts(Initial(), es, name);
  }

  // ---------- Fairness ----------

  function Occurrences(a: seq<string>, x: string): nat {
    if a == [] then 0 else Occurrences(a[..|a| - 1], x) + if a[|a| - 1] == x then 1 else 0
  }

  /** How often the places below upto that hold the URL are hit by m consecutive choices. */
  function HitsOn(urls: seq<string>, url: string, upto: nat, start: nat, m: nat): nat
    requires upto <= |urls|
    decreases upto
  {
    if upto == 0 then 0
    else HitsOn(urls, url, upto - 1, start, m) + if urls[upto - 1] == url then Hits(start, m, |urls|, upto - 1) else 0
  }

  /** One more choice is one more hit if its place is below upto and holds the URL. */
  lemma {:induction false} OneMoreHit(urls: seq<string>, url: string, upto: nat, start: nat, m: nat)
    requires upto <= |urls| && urls != [] && m > 0
    ensures var place := (start + m - 1) % |urls|;
            HitsOn(urls, url, upto, start, m)
            == HitsOn(urls, url, upto, start, m - 1) + if place < upto && urls[place] == url then 1 else 0
    decreases upto
  {
    if upto > 0 {
      OneMoreHit(urls, url, upto - 1, start, m);
    }
  }

  lemma {:induction false} NoHits(urls: seq<string>, url: string, upto: nat, start: nat)
    requires upto <= |urls|
    ensures HitsOn(urls, url, upto, start, 0) == 0
    decreases upto
  {
    if upto > 0 {
      NoHits(urls, url, upto - 1, start);
    }
  }

  lemma {:induction false} OccurrencesAreHits(served: seq<string>, urls: seq<string>, start: nat, url: string)
    requires InRotation(served, urls, start) && urls != []
    ensures Occurrences(served, url) == HitsOn(urls, url, |urls|, start, |served|)
    decreases |served|
  {
    if served == [] {
      NoHits(urls, url, |urls|, start);
    } else {
      OccurrencesAreHits(served[..|served| - 1], urls, start, url);
      OneMoreHit(urls, url, |urls|, start, |served|);
    }
  }

  lemma OneTimeMore(c: nat, q: nat)
    ensures (c + 1) * q == c * q + q
  {
  }

  lemma {:induction false} HitsOnSpread(urls: seq<string>, url: string, upto: nat, start: nat, m: nat, low: nat, high: nat)
    requires upto <= |urls| && urls != [] && low == m / |urls| && high == (m + |urls| - 1) / |urls|
    ensures var c := Occurrences(urls[..upto], url);
            c * low <= HitsOn(urls, url, upto, start, m) <= c * high
    decreases upto
  {
    if upto > 0 {
      var c := Occurrences(urls[..upto - 1], url);
      HitsOnSpread(urls, url, upto - 1, start, m, low, high);
      EvenlySpread(start, m, |urls|, upto - 1);
      assert urls[..upto][..upto - 1] == urls[..upto - 1];
      OneTimeMore(c, low);
      OneTimeMore(c, high);
    }
  }

  lemma WindowIsFair(served: seq<string>, urls: seq<string>, from: nat, m: nat, url: string, low: nat, high: nat)
    requires urls != [] && InRotation(served, urls, 0) && from + m <= |served|
    requires low == m / |urls| && high == (m + |urls| - 1) / |urls|
    ensures var c := Occurrences(urls, url);
            c * low <= Occurrences(served[from..from + m], url) <= c * high
  {
    var window := served[from..from + m];
    assert InRotation(window, urls, from);
    OccurrencesAreHits(window, urls, from, url);
    HitsOnSpread(urls, url, |urls|, from, m, low, high);
    assert urls[..|urls|] == urls;
  }

  /**
   * Between two registrations, whatever else happens, the URLs of the last registration are served in turn, and
   * every window of m consecutive choices among n of them serves each floor(m / n) or ceil(m / n) times:
   * as often again for every further place at which the registration lists it.
   */
  lemma RoundRobinIsFair(es: seq<Event>, name: string, from: nat, m: nat, url: string, low: nat, high: nat)
    requires ValidRun(Initial(), es)
    requires var g := Run(Initial(), es);
             && name in g.given && g.given[name].urls != [] && from + m <= |ServedOf(g, name)|
             && low == m / |g.given[name].urls| && high == (m + |g.given[name].urls| - 1) / |g.given[name].urls|
    ensures var g := Run(Initial(), es);
            var urls, served := g.given[name].urls, ServedOf(g, name);
            var c, hits := Occurrences(urls, url), Occurrences(served[from..from + m], url);
            && (forall k :: 0 <= k < |served| ==> served[k] == urls[k % |urls|])
            && c * low <= hits <= c * high && (c == 1 ==> low <= hits <= high)
  {
    var g := Run(Initial(), es);
    RunKeepsCounts(Initial(), es, name);
    WindowIsFair(ServedOf(g, name), g.given[name].urls, from, m, url, low, high);
  }
}
