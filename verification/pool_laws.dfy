/** What a pool reconcile promises about records and counters. */
module PoolProperties {
  import opened Cluster
  import opened PoolController

  function ActiveNames(listed: map<string, Node>): set<string> {
    set n | n in listed && !listed[n].unschedulable && !listed[n].eligible
  }

  function BufferedNames(listed: map<string, Node>): set<string> {
    set n | n in listed && !listed[n].unschedulable && listed[n].eligible
  }

  /** No two records bear the same name; records may be without one. */
  ghost predicate DistinctNames(recs: seq<NodeRecord>) {
    forall i, j :: 0 <= i < j < |recs| && recs[i].nodeName != "" ==> recs[i].nodeName != recs[j].nodeName
  }

  /** Exactly one record bears the name. */
  ghost predicate OneRecord(recs: seq<NodeRecord>, name: string) {
    exists i :: 0 <= i < |recs| && recs[i].nodeName == name
             && forall j :: 0 <= j < |recs| && recs[j].nodeName == name ==> j == i
  }

  lemma DiscoveriesAreNew(name: string, p: Pool, listed: map<string, Node>, order: seq<string>)
    requires DistinctNames(p.records) && Enumerates(order, p.records, listed) && "" !in listed
    ensures DistinctNames(p.records + Discoveries(name, order))
  {
    var recs := p.records + Discoveries(name, order);
    forall i, j | 0 <= i < j < |recs| && recs[i].nodeName != "" ensures recs[i].nodeName != recs[j].nodeName {
      if i < |p.records| <= j {
        assert recs[j].nodeName == order[j - |p.records|] && recs[j].nodeName in order;
        assert p.records[i].nodeName in KnownNames(p.records);
      }
    }
  }

  lemma EveryNodeHasARecord(name: string, p: Pool, listed: map<string, Node>, order: seq<string>, n: string)
    returns (i: nat)
    requires Enumerates(order, p.records, listed) && n in listed
    ensures i < |p.records| + |order| && (p.records + Discoveries(name, order))[i].nodeName == n
  {
    if n in KnownNames(p.records) {
      i :| 0 <= i < |p.records| && p.records[i].nodeName == n;
    } else {
      var k :| 0 <= k < |order| && order[k] == n;
      i := |p.records| + k;
    }
  }

  /** How many records bear a name of the set. */
  function Bearing(recs: seq<NodeRecord>, names: set<string>): nat
    decreases |recs|
  {
    if recs == [] then 0
    else Bearing(recs[..|recs| - 1], names) + if recs[|recs| - 1].nodeName in names then 1 else 0
  }

  lemma JoinOne(names: set<string>, known: set<string>, n: string)
    requires n !in known
    ensures |names * (known + {n})| == |names * known| + if n in names then 1 else 0
  {
    assert names * (known + {n}) == names * known + if n in names then {n} else {};
  }

  lemma FreshLast(init: seq<NodeRecord>, last: NodeRecord)
    requires DistinctNames(init + [last])
    ensures DistinctNames(init) && last.nodeName !in KnownNames(init)
  {
    var recs := init + [last];
    assert forall i :: 0 <= i < |init| ==> recs[i] == init[i];
    assert recs[|init|] == last;
  }

  /** Among distinct names, as many records bear a name of the set as the set has known names. */
  lemma {:induction false} DistinctBearing(recs: seq<NodeRecord>, names: set<string>)
    requires DistinctNames(recs) && "" !in names
    ensures Bearing(recs, names) == |names * KnownNames(recs)|
    decreases |recs|
  {
    if recs == [] {
      assert names * KnownNames(recs) == {};
    } else {
      var init, last := recs[..|recs| - 1], recs[|recs| - 1];
      assert recs == init + [last];
      FreshLast(init, last);
      DistinctBearing(init, names);
      KnownSnoc(init, last);
      if last.nodeName != "" {
        JoinOne(names, KnownNames(init), last.nodeName);
      }
    }
  }

  lemma {:induction false} TallyIsBearing(recs: seq<NodeRecord>, listed: map<string, Node>)
    requires "" !in listed
    ensures Tally(recs, listed).active == Bearing(recs, ActiveNames(listed))
    ensures Tally(recs, listed).buffered == Bearing(recs, BufferedNames(listed))
    decreases |recs|
  {
    if recs != [] {
      TallyIsBearing(recs[..|recs| - 1], listed);
    }
  }

  /** Names stay distinct, and every listed node has exactly one record. */
  lemma RecordsIndexNodes(name: string, p: Pool, listed: map<string, Node>, order: seq<string>)
    requires DistinctNames(p.records) && Enumerates(order, p.records, listed) && "" !in listed
    ensures var recs := Rederived(name, p, listed, order).records;
            DistinctNames(recs) && forall n :: n in listed ==> OneRecord(recs, n)
  {
    var found := p.records + Discoveries(name, order);
    var recs := RestateAll(found, listed);
    DiscoveriesAreNew(name, p, listed, order);
    assert DistinctNames(recs) by {
      assert forall i :: 0 <= i < |recs| ==> recs[i].nodeName == found[i].nodeName;
    }
    forall n | n in listed ensures OneRecord(recs, n) {
      var i := EveryNodeHasARecord(name, p, listed, order, n);
      assert recs[i].nodeName == n;
    }
  }

  /** The counters equal a direct count over the listed nodes. */
  lemma CountersCountNodes(name: string, p: Pool, listed: map<string, Node>, order: seq<string>)
    requires DistinctNames(p.records) && Enumerates(order, p.records, listed) && "" !in listed
    ensures var counts := Rederived(name, p, listed, order).counts;
            counts.active == |ActiveNames(listed)| && counts.buffered == |BufferedNames(listed)|
  {
    var found := p.records + Discoveries(name, order);
    DiscoveriesAreNew(name, p, listed, order);
    assert listed.Keys <= KnownNames(found) by {
      forall n | n in listed ensures n in KnownNames(found) {
        var i := EveryNodeHasARecord(name, p, listed, order, n);
        assert found[i].nodeName == n;
      }
    }
    TallyIsBearing(found, listed);
    DistinctBearing(found, ActiveNames(listed));
    DistinctBearing(found, BufferedNames(listed));
    assert ActiveNames(listed) * KnownNames(found) == ActiveNames(listed);
    assert BufferedNames(listed) * KnownNames(found) == BufferedNames(listed);
  }

  /** The places of the records in state provisioning. */
  function Awaited(recs: seq<NodeRecord>): set<nat> {
    set i: nat | i < |recs| && recs[i].state == Provisioning
  }

  lemma AwaitedLast(recs: seq<NodeRecord>)
    requires recs != []
    ensures |Awaited(recs)| == |Awaited(recs[..|recs| - 1])| + if recs[|recs| - 1].state == Provisioning then 1 else 0
  {
    var last: nat := |recs| - 1;
    assert Awaited(recs) == Awaited(recs[..last]) + if recs[last].state == Provisioning then {last} else {};
  }

  lemma {:induction false} TallyIsAwaited(recs: seq<NodeRecord>, listed: map<string, Node>)
    ensures Tally(recs, listed).provisioning == |Awaited(RestateAll(recs, listed))|
    decreases |recs|
  {
    if recs == [] {
      assert Awaited([]) == {};
    } else {
      var init := recs[..|recs| - 1];
      TallyIsAwaited(init, listed);
      AwaitedLast(RestateAll(recs, listed));
      assert RestateAll(recs, listed)[..|recs| - 1] == RestateAll(init, listed);
    }
  }

  /** Provisioning counts the records in that state, which are the launched ones whose node is not listed yet. */
  lemma ProvisioningCountsAwaited(name: string, p: Pool, listed: map<string, Node>, order: seq<string>)
    requires Enumerates(order, p.records, listed) && "" !in listed
    ensures var q := Rederived(name, p, listed, order);
            && q.counts.provisioning == |Awaited(q.records)|
            && Awaited(q.records) == set i: nat | i < |p.records| && p.records[i].state == Provisioning
                                                  && p.records[i].nodeName !in listed
  {
    var recs := p.records + Discoveries(name, order);
    TallyIsAwaited(recs, listed);
    RecordsKeepIdentity(name, p, listed, order);
  }

  /** The state of a record whose node is listed tells what the node is like. */
  predicate ShowsNode(rec: NodeRecord, n: Node) {
    && (rec.state == Draining <==> n.unschedulable)
    && (rec.state == Buffered <==> !n.unschedulable && n.eligible)
    && (rec.state == Active <==> !n.unschedulable && !n.eligible)
  }

  /** A discovered record: it is for a listed node and looks as if launched at the beginning of time. */
  ghost predicate IsDiscovered(rec: NodeRecord, name: string, listed: map<string, Node>) {
    && rec.nodeName in listed
    && rec == NodeRecord("static://" + name + "/" + rec.nodeName, rec.nodeName, rec.state, ZERO_TIME, name)
  }

  lemma RestatedRecord(rec: NodeRecord, listed: map<string, Node>)
    requires "" !in listed
    ensures var after := Restate(rec, listed);
            && after == rec.(state := after.state)
            && (rec.nodeName !in listed ==> after == rec)
            && (rec.nodeName in listed ==> ShowsNode(after, listed[rec.nodeName]))
  {
  }

  lemma DiscoveredRecord(name: string, listed: map<string, Node>, order: seq<string>, i: nat)
    requires i < |order| && forall n :: n in order ==> n in listed
    ensures IsDiscovered(Restate(Discoveries(name, order)[i], listed), name, listed)
  {
    assert order[i] in order;
  }

  /**
   * No record loses its identity or its place, and one whose node is not listed does not change; the new
   * ones are discovered. All others show their node.
   */
  lemma RecordsKeepIdentity(name: string, p: Pool, listed: map<string, Node>, order: seq<string>)
    requires Enumerates(order, p.records, listed) && "" !in listed
    ensures var q := Rederived(name, p, listed, order);
            && |q.records| == |p.records| + |order|
            && (forall i :: 0 <= i < |p.records| ==> q.records[i] == p.records[i].(state := q.records[i].state))
            && (forall i :: 0 <= i < |p.records| && p.records[i].nodeName !in listed ==> q.records[i] == p.records[i])
            && (forall i :: |p.records| <= i < |q.records| ==> IsDiscovered(q.records[i], name, listed))
            && (forall i :: 0 <= i < |q.records| && q.records[i].nodeName in listed ==>
                  ShowsNode(q.records[i], listed[q.records[i].nodeName]))
  {
    var q, all := Rederived(name, p, listed, order), p.records + Discoveries(name, order);
    forall i | 0 <= i < |q.records|
      ensures q.records[i] == Restate(all[i], listed)
      ensures q.records[i] == all[i].(state := q.records[i].state)
      ensures all[i].nodeName !in listed ==> q.records[i] == all[i]
      ensures all[i].nodeName in listed ==> ShowsNode(q.records[i], listed[all[i].nodeName])
    {
      RestatedRecord(all[i], listed);
    }
    forall i | |p.records| <= i < |q.records| ensures IsDiscovered(q.records[i], name, listed) {
      assert all[i] == Discoveries(name, order)[i - |p.records|];
      DiscoveredRecord(name, listed, order, i - |p.records|);
    }
  }

  lemma {:induction false} TallyOfRestated(recs: seq<NodeRecord>, listed: map<string, Node>)
    ensures Tally(RestateAll(recs, listed), listed) == Tally(recs, listed)
    decreases |recs|
  {
    if recs != [] {
      var init := recs[..|recs| - 1];
      assert RestateAll(recs, listed)[..|recs| - 1] == RestateAll(init, listed);
      TallyOfRestated(init, listed);
    }
  }

  lemma HeadIsMember(names: seq<string>)
    ensures names == [] || names[0] in names
  {
  }

  /** A second run over the same nodes changes nothing. */
  lemma RederivingTwice(name: string, p: Pool, listed: map<string, Node>, order: seq<string>, again: seq<string>)
    requires Enumerates(order, p.records, listed) && "" !in listed
    requires Enumerates(again, Rederived(name, p, listed, order).records, listed)
    ensures Rederived(name, Rederived(name, p, listed, order), listed, again) == Rederived(name, p, listed, order)
  {
    var recs := p.records + Discoveries(name, order);
    var q := Rederived(name, p, listed, order);
    forall n | n in listed ensures n in KnownNames(q.records) {
      var i := EveryNodeHasARecord(name, p, listed, order, n);
      assert q.records[i].nodeName == n;
    }
    HeadIsMember(again);
    assert q.records + Discoveries(name, again) == q.records;
    assert RestateAll(q.records, listed) == q.records;
    TallyOfRestated(recs, listed);
  }
}
