/** The pool controller: node records and counters re-derived from the node list. */
module PoolController {
  import opened Cluster
  import opened Seqs

  /** What the API server and the provider answer to one reconcile. */
  datatype PoolEnv = PoolEnv(providerOk: bool, report: Report, listOk: bool, updateOk: bool)

  /** The provider's capacity report, or the failure to get one. */
  datatype Report = NoReport | Report(available: int, hourlyUSD: real, recentICE: seq<Instant>)

  // ---------- Specification ----------

  predicate Joined(rec: NodeRecord, listed: map<string, Node>) {
    rec.nodeName != "" && rec.nodeName in listed
  }

  function Restate(rec: NodeRecord, listed: map<string, Node>): NodeRecord {
    if !Joined(rec, listed) then rec
    else
      var n := listed[rec.nodeName];
      rec.(state := if n.unschedulable then Draining else if n.eligible then Buffered else Active)
  }

  function RestateAll(recs: seq<NodeRecord>, listed: map<string, Node>): (r: seq<NodeRecord>)
    ensures |r| == |recs|
  {
    seq(|recs|, i requires 0 <= i < |recs| => Restate(recs[i], listed))
  }

  /** What one record adds to the counters. */
  function CountOf(rec: NodeRecord, listed: map<string, Node>): NodeCounts {
    if Joined(rec, listed) then
      var n := listed[rec.nodeName];
      NodeCounts(if !n.unschedulable && !n.eligible then 1 else 0, if !n.unschedulable && n.eligible then 1 else 0, 0)
    else NodeCounts(0, 0, if rec.state == Provisioning then 1 else 0)
  }

  function Tally(recs: seq<NodeRecord>, listed: map<string, Node>): NodeCounts
    decreases |recs|
  {
    if recs == [] then NodeCounts(0, 0, 0)
    else
      var rest, last := Tally(recs[..|recs| - 1], listed), CountOf(recs[|recs| - 1], listed);
      NodeCounts(rest.active + last.active, rest.buffered + last.buffered, rest.provisioning + last.provisioning)
  }

  function KnownNames(recs: seq<NodeRecord>): set<string> {
    set i | 0 <= i < |recs| && recs[i].nodeName != "" :: recs[i].nodeName
  }

  function Discovery(pool: string, name: string): NodeRecord {
    NodeRecord("static://" + pool + "/" + name, name, Discovered, ZERO_TIME, pool)
  }

  function Discoveries(pool: string, names: seq<string>): (r: seq<NodeRecord>)
    ensures |r| == |names|
  {
    seq(|names|, i requires 0 <= i < |names| => Discovery(pool, names[i]))
  }

  function NamesOf(recs: seq<NodeRecord>): (r: seq<string>)
    ensures |r| == |recs|
  {
    seq(|recs|, i requires 0 <= i < |recs| => recs[i].nodeName)
  }

  /** order lists the node names without a record, each once. */
  ghost predicate Enumerates(order: seq<string>, recs: seq<NodeRecord>, listed: map<string, Node>) {
    NoDuplicates(order) && forall n :: n in order <==> n in listed && n !in KnownNames(recs)
  }

  function Rederived(pool: string, p: Pool, listed: map<string, Node>, order: seq<string>): Pool {
    var recs := p.records + Discoveries(pool, order);
    p.(records := RestateAll(recs, listed), counts := Tally(recs, listed))
  }

  function Observe(p: Pool, r: Report): Pool {
    match r
    case NoReport => p
    case Report(available, hourlyUSD, recent) =>
      p.(observed := Observed(available, hourlyUSD,
                              if |recent| > 0 then recent[|recent| - 1] else p.observed.lastICE))
  }

  /** One reconcile; order is the one in which the node map happens to be iterated. */
  function ReconcilePool(s: State, name: string, env: PoolEnv, order: seq<string>): State {
    if name !in s.pools || !env.providerOk || !env.updateOk then s
    else
      var p := Observe(s.pools[name], env.report);
      WithPool(s, name, if env.listOk then Rederived(name, p, Listed(s.nodes, name), order) else p)
  }

  // ---------- The controller ----------

  class Reconciler {
    const store: Store

    constructor (store: Store)
      ensures this.store == store
    {
      this.store := store;
    }

    method Known(records: seq<NodeRecord>) returns (known: set<string>)
      ensures known == KnownNames(records)
    {
      known := {};
      for i := 0 to |records|
        invariant known == KnownNames(records[..i])
      {
        assert records[..i + 1] == records[..i] + [records[i]];
        KnownSnoc(records[..i], records[i]);
        if records[i].nodeName != "" {
          known := known + {records[i].nodeName};
        }
      }
      assert records[..|records|] == records;
    }

    /** Appends a record per unknown node, in whatever order the map is iterated. */
    method Discover(name: string, before: seq<NodeRecord>, listed: map<string, Node>)
      returns (records: seq<NodeRecord>)
      ensures before <= records
      ensures var found := records[|before|..];
              Enumerates(NamesOf(found), before, listed) && found == Discoveries(name, NamesOf(found))
    {
      var known := Known(before);
      records := before;
      ghost var order := [];
      var todo := listed.Keys;
      while todo != {}
        invariant todo <= listed.Keys && NoDuplicates(order)
        invariant forall n :: n in order <==> n in listed && n !in todo && n !in known
        invariant records == before + Discoveries(name, order)
        decreases |todo|
      {
        var n :| n in todo;
        todo := todo - {n};
        if n !in known {
          records := records + [NodeRecord("static://" + name + "/" + n, n, Discovered, ZERO_TIME, name)];
          assert Discoveries(name, order + [n]) == Discoveries(name, order) + [Discovery(name, n)];
          order := order + [n];
        }
      }
      assert records[|before|..] == Discoveries(name, order);
      assert NamesOf(records[|before|..]) == order;
    }

    /** Rewrites the record states from the node list and recounts. */
    method Recount(found: seq<NodeRecord>, listed: map<string, Node>)
      returns (records: seq<NodeRecord>, counts: NodeCounts)
      ensures records == RestateAll(found, listed) && counts == Tally(found, listed)
    {
      records := found;
      var active, buffered, provisioning := 0, 0, 0;
      for i := 0 to |found|
        invariant |records| == |found|
        invariant forall j :: 0 <= j < i ==> records[j] == Restate(found[j], listed)
        invariant forall j :: i <= j < |found| ==> records[j] == found[j]
        invariant NodeCounts(active, buffered, provisioning) == Tally(found[..i], listed)
      {
        var rec := records[i];
        TallySnoc(found, i, listed);
        if rec.nodeName != "" && rec.nodeName in listed {
          var n := listed[rec.nodeName];
          if n.unschedulable {
            rec := rec.(state := Draining);
          } else if n.eligible {
            rec := rec.(state := Buffered);
            buffered := buffered + 1;
          } else {
            rec := rec.(state := Active);
            active := active + 1;
          }
          records := records[i := rec];
          continue;
        }
        if rec.state == Provisioning {
          provisioning := provisioning + 1;
        }
      }
      assert found[..|found|] == found;
      counts := NodeCounts(active, buffered, provisioning);
    }

    method ReconcileNodeRecords(name: string, p: Pool, listed: map<string, Node>)
      returns (q: Pool)
      ensures |p.records| <= |q.records|
      ensures var order := NamesOf(q.records[|p.records|..]);
              Enumerates(order, p.records, listed) && q == Rederived(name, p, listed, order)
    {
      var found := Discover(name, p.records, listed);
      var records, counts := Recount(found, listed);
      q := p.(records := records, counts := counts);
      NamesStay(found, |p.records|, listed);
      assert found == p.records + found[|p.records|..];
    }

    /** One reconcile of the pool controller. */
    method Reconcile(name: string, env: PoolEnv) returns (ghost order: seq<string>)
      modifies store
      ensures store.View() == ReconcilePool(old(store.View()), name, env, order)
      ensures name in old(store.pools) ==>
                Enumerates(order, old(store.pools)[name].records, Listed(old(store.nodes), name))
    {
      if name !in store.pools {
        order := [];
        return;
      }
      var pool := store.pools[name];
      ghost var listed := Listed(store.nodes, name);
      order := EnumerationExists(pool.records, listed, listed.Keys);
      if !env.providerOk {
        return;
      }
      if env.report.Report? {
        var r := env.report;
        pool := pool.(observed := pool.observed.(available := r.available, hourlyUSD := r.hourlyUSD));
        if |r.recentICE| > 0 {
          pool := pool.(observed := pool.observed.(lastICE := r.recentICE[|r.recentICE| - 1]));
        }
      }
      if env.listOk {
        ghost var known := |pool.records|;
        pool := ReconcileNodeRecords(name, pool, Listed(store.nodes, name));
        order := NamesOf(pool.records[known..]);
      }
      if env.updateOk {
        store.pools := store.pools[name := pool];
      }
    }
  }

  lemma NamesStay(found: seq<NodeRecord>, k: nat, listed: map<string, Node>)
    requires k <= |found|
    ensures NamesOf(RestateAll(found, listed)[k..]) == NamesOf(found[k..])
  {
  }

  lemma TallySnoc(recs: seq<NodeRecord>, i: nat, listed: map<string, Node>)
    requires i < |recs|
    ensures var a, b, c := Tally(recs[..i], listed), CountOf(recs[i], listed), Tally(recs[..i + 1], listed);
            c == NodeCounts(a.active + b.active, a.buffered + b.buffered, a.provisioning + b.provisioning)
  {
    assert recs[..i + 1][..i] == recs[..i];
  }

  lemma KnownSnoc(recs: seq<NodeRecord>, rec: NodeRecord)
    ensures KnownNames(recs + [rec]) == KnownNames(recs) + if rec.nodeName != "" then {rec.nodeName} else {}
  {
    var all := recs + [rec];
    assert rec.nodeName != "" ==> all[|recs|].nodeName in KnownNames(all);
    forall n | n in KnownNames(recs) ensures n in KnownNames(all) {
      var i :| 0 <= i < |recs| && recs[i].nodeName == n && n != "";
      assert all[i].nodeName == n;
    }
  }

  lemma {:induction false} EnumerationExists(recs: seq<NodeRecord>, listed: map<string, Node>, within: set<string>)
    returns (order: seq<string>)
    requires within <= listed.Keys
    ensures NoDuplicates(order) && forall n :: n in order <==> n in within && n !in KnownNames(recs)
    ensures within == listed.Keys ==> Enumerates(order, recs, listed)
    decreases |within|
  {
    if within == {} {
      order := [];
    } else {
      var n :| n in within;
      order := EnumerationExists(recs, listed, within - {n});
      if n !in KnownNames(recs) {
        order := order + [n];
      }
    }
  }
}
