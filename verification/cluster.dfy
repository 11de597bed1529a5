/** The stored objects the capacity controllers share, and the store they write them to. */
module Cluster {

  /** Nanoseconds; metav1.Time's zero value is the year 1. */
  type Instant = int
  const ZERO_TIME: Instant := -62135596800000000000
  const MINUTE: int := 60000000000

  datatype RecordState = Discovered | Provisioning | Buffered | Active | Draining | Released

  datatype NodeRecord = NodeRecord(providerID: string, nodeName: string, state: RecordState,
                                   launchedAt: Instant, poolName: string)

  datatype NodeCounts = NodeCounts(active: int, buffered: int, provisioning: int) {
    function Total(): int {
      active + buffered + provisioning
    }

    function Warm(): int {
      buffered + provisioning
    }
  }

  datatype Observed = Observed(available: int, hourlyUSD: real, lastICE: Instant)

  datatype Limits = Limits(maxNodes: int, maxHourlyUSD: real)

  datatype PoolSpec = PoolSpec(isStatic: bool, priority: int, limits: Limits)

  datatype Pool = Pool(spec: PoolSpec, observed: Observed, counts: NodeCounts, records: seq<NodeRecord>)

  /** A cluster node: its pool label ("" when absent), GPU and buffer-eligible labels, cordon flag, Xid annotation. */
  datatype Node = Node(pool: string, gpu: bool, eligible: bool, unschedulable: bool, xidCritical: bool)

  /** A duration field as the policy author wrote it. */
  datatype DurationText = Blank | Malformed | Written(d: int)

  datatype Target = Target(dynamicMode: bool, hasDynamic: bool, k: real, minWarm: int, maxWarm: int)

  datatype Policy = Policy(target: Target, pools: seq<string>, stabilization: DurationText,
                           demand: real, currentWarm: int)

  /** A call of Release on the index-th record of a pool. Xid handling waits for no window: its window is 0. */
  datatype Release = Release(pool: string, index: nat, launchedAt: Instant, now: Instant, window: int)

  /**
   * All stored state. joined holds every node name that ever joined, releases every release by scale-down
   * and xidReleases every release by Xid handling; all three are history that no controller reads.
   */
  datatype State = State(pools: map<string, Pool>, nodes: map<string, Node>, policies: map<string, Policy>,
                         joined: set<string>, releases: seq<Release>, xidReleases: seq<Release>)

  /** The nodes a label selector on the pool name lists. */
  function Listed(nodes: map<string, Node>, pool: string): map<string, Node> {
    map n | n in nodes && nodes[n].pool == pool :: nodes[n]
  }

  function WithPool(s: State, name: string, p: Pool): State {
    s.(pools := s.pools[name := p])
  }

  /** The API server's copy of the objects. */
  class Store {
    var pools: map<string, Pool>
    var nodes: map<string, Node>
    var policies: map<string, Policy>
    ghost var joined: set<string>
    ghost var releases: seq<Release>
    ghost var xidReleases: seq<Release>

    constructor ()
      ensures View() == State(map[], map[], map[], {}, [], [])
    {
      pools, nodes, policies := map[], map[], map[];
      joined, releases, xidReleases := {}, [], [];
    }

    ghost function View(): State
      reads this
    {
      State(pools, nodes, policies, joined, releases, xidReleases)
    }
  }
}
