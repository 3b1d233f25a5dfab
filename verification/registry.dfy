/**
 * The module-level registry of parallel.py (`_LOCAL_RANK`, `_LOCAL_WORLD_SIZE`,
 * `_INTRA_NODE_PROCESS_GROUP`, `_INTER_NODE_PROCESS_GROUP`), its getters and
 * `distributed_init`, which fills it in on one process.
 *
 * The collectives are parameters: `rank` is `dist.get_rank()`, `lws` the result of the
 * all-gather of every process's LOCAL_WORLD_SIZE (so |lws| is `dist.get_world_size()`),
 * and the groups `dist.new_group` creates are identified by their rank lists, which
 * the methods return in creation order.
 */
module Registry {
  import opened Wrappers
  import opened Launcher
  import opened Topology

  /** A process group, identified by the global ranks passed to `dist.new_group`. */
  type Group = seq<int>

  /** Why `distributed_init` or a getter raised. */
  datatype InitError =
    | EnvVar(cause: EnvError)     // parallel.py:81-82, KeyError or ValueError
    | NodeSizeMismatch(rank: nat) // parallel.py:96, at this global rank
    | IntraNodeGroupAlreadySet    // parallel.py:101
    | InterNodeGroupUnset         // parallel.py:111
    | GroupsUninitialized         // parallel.py:115 and 120

  /**
   * Every `dist.new_group` call `distributed_init` makes once the node lists exist, in
   * order: one per node, then, when every process declared the same local world size w,
   * one per slot `range(i, N, w)`. It mentions no rank, so every process makes the same calls.
   */
  function NewGroupCalls(lws: seq<int>): (r: seq<Group>)
    requires |lws| >= 1
    ensures Scan(lws, |lws|).Err? ==> r == []
    ensures Scan(lws, |lws|).Ok? ==>
      |r| >= |Scan(lws, |lws|).value| && r[..|Scan(lws, |lws|).value|] == Scan(lws, |lws|).value
    ensures forall k, x :: 0 <= k < |r| && x in r[k] ==> 0 <= x < |lws|
  {
    match Scan(lws, |lws|)
    case Err(_) => []
    case Ok(nodes) =>
      var slots := if Min(lws) == Max(lws) then Slots(|lws|, lws[0]) else [];
      ScanBlocks(lws, |lws|);
      CallsWithinWorld(nodes, |lws|, slots);
      nodes + slots
  }

  /** Node groups of a cut and slot groups `range(i, n, w)` name only ranks of 0 .. n-1. */
  lemma CallsWithinWorld(nodes: seq<seq<int>>, n: int, slots: seq<Group>)
    requires Blocks(nodes, n)
    requires slots == [] || exists w :: w >= 1 && slots == Slots(n, w)
    ensures forall k, x :: 0 <= k < |nodes + slots| && x in (nodes + slots)[k] ==> 0 <= x < n
  {
    forall k, x | 0 <= k < |nodes + slots| && x in (nodes + slots)[k]
      ensures 0 <= x < n
    {
      if k < |nodes| {
        assert x in nodes[k];
        BlocksMembership(nodes, n, x);
      } else {
        var w :| w >= 1 && slots == Slots(n, w);
        SlotsPartition(n, w, x);
      }
    }
  }

  /**
   * Each rank of the world is in exactly one of the node groups, the node that holds it, and,
   * when the sizes are uniform, in exactly one of the slot groups, slot x % w.
   */
  lemma NewGroupCallsPlaceEachRank(lws: seq<int>, x: int)
    requires |lws| >= 1 && Scan(lws, |lws|).Ok?
    requires 0 <= x < |lws|
    ensures var nodes := Scan(lws, |lws|).value;
      var calls := NewGroupCalls(lws);
      |calls| >= |nodes| && IndexOfNode(nodes, x) < |nodes| &&
      forall k :: 0 <= k < |nodes| ==> (x in calls[k] <==> k == IndexOfNode(nodes, x))
    ensures var nodes := Scan(lws, |lws|).value;
      var calls := NewGroupCalls(lws);
      Min(lws) == Max(lws) && lws[0] >= 1 ==>
        |calls| == |nodes| + lws[0] &&
        forall k :: |nodes| <= k < |calls| ==> (x in calls[k] <==> k - |nodes| == x % lws[0])
    ensures Min(lws) != Max(lws) ==> |NewGroupCalls(lws)| == |Scan(lws, |lws|).value|
  {
    var nodes := Scan(lws, |lws|).value;
    var slots := if Min(lws) == Max(lws) then Slots(|lws|, lws[0]) else [];
    assert NewGroupCalls(lws) == nodes + slots;
    ScanBlocks(lws, |lws|);
    NodeCallsPlaceRank(nodes, |lws|, slots, x);
    if Min(lws) == Max(lws) && lws[0] >= 1 {
      SlotCallsPlaceRank(nodes, |lws|, lws[0], x);
    }
  }

  /** The node groups come first in the calls; rank x is in the one the search finds. */
  lemma NodeCallsPlaceRank(nodes: seq<seq<int>>, n: int, slots: seq<Group>, x: int)
    requires Blocks(nodes, n) && 0 <= x < n
    ensures IndexOfNode(nodes, x) < |nodes|
    ensures forall k :: 0 <= k < |nodes| ==> (x in (nodes + slots)[k] <==> k == IndexOfNode(nodes, x))
  {
    BlocksMembership(nodes, n, x);
    forall k | 0 <= k < |nodes|
      ensures (nodes + slots)[k] == nodes[k]
    {
    }
  }

  /** The slot groups follow the node groups; rank x is in slot x % w. */
  lemma SlotCallsPlaceRank(nodes: seq<seq<int>>, n: int, w: int, x: int)
    requires w >= 1 && 0 <= x < n
    ensures forall k :: |nodes| <= k < |nodes| + w ==>
      (x in (nodes + Slots(n, w))[k] <==> k - |nodes| == x % w)
  {
    SlotsPartition(n, w, x);
    forall k | |nodes| <= k < |nodes| + w
      ensures x in (nodes + Slots(n, w))[k] <==> k - |nodes| == x % w
    {
      assert (nodes + Slots(n, w))[k] == SlotRanks(k - |nodes|, n, w);
    }
  }

  /**
   * What parallel.py:91-111 does on the process of global rank `rank` with local rank
   * `localRank`: from the groups `before` and `beforeInter` it finds, it leaves the groups
   * `after` and `afterInter`, raises `err` (if not None) and makes the `dist.new_group`
   * calls `calls`.
   */
  predicate GroupsOutcome(lws: seq<int>, rank: nat, localRank: int,
                          before: Option<Group>, beforeInter: Option<Group>,
                          after: Option<Group>, afterInter: Option<Group>,
                          err: Option<InitError>, calls: seq<Group>)
    requires rank < |lws|
  {
    match Scan(lws, |lws|)
    // parallel.py:96: the node lists cannot be built
    case Err(i) =>
      err == Some(NodeSizeMismatch(i)) && calls == [] && after == before && afterInter == beforeInter
    case Ok(nodes) =>
      IndexOfNode(nodes, rank) < |nodes| &&
      if before.Some? then
        // parallel.py:101: a second initialisation stops at the node holding this rank
        err == Some(IntraNodeGroupAlreadySet) && calls == nodes[..IndexOfNode(nodes, rank) + 1] &&
        after == before && afterInter == beforeInter
      else
        // a first initialisation: the same group calls on every rank, the node holding
        // this rank as intra-node group, and the slot of the local rank as inter-node group
        calls == NewGroupCalls(lws) &&
        after == Some(nodes[IndexOfNode(nodes, rank)]) &&
        rank in nodes[IndexOfNode(nodes, rank)] &&
        SlotOutcome(lws, rank, localRank, afterInter, err)
  }

  /**
   * The inter-node part of a first initialisation (parallel.py:105-111): no slot group when
   * the declared sizes differ; otherwise slot `localRank` of the local world size, which
   * holds this rank exactly when rank % size is the local rank, or a failure when the
   * local rank is not a slot.
   */
  predicate SlotOutcome(lws: seq<int>, rank: nat, localRank: int, afterInter: Option<Group>, err: Option<InitError>)
    requires rank < |lws|
  {
    if Min(lws) != Max(lws) then
      err == None && afterInter == None
    else if 0 <= localRank < lws[rank] then
      err == None && afterInter == Some(SlotRanks(localRank, |lws|, lws[rank])) &&
      (rank in SlotRanks(localRank, |lws|, lws[rank]) <==> rank % lws[rank] == localRank)
    else
      err == Some(InterNodeGroupUnset) && afterInter == None
  }

  /**
   * What parallel.py:80-111 does, on an environment `vars`, to the registry globals
   * (`localRank` .. `inter` before, `localRank'` .. `inter'` after): `err` is what it
   * raised and `calls` the `dist.new_group` calls it made.
   */
  predicate InitOutcome(vars: Vars, rank: nat, lws: seq<int>,
                        localRank: int, localWorldSize: int, intra: Option<Group>, inter: Option<Group>,
                        localRank': int, localWorldSize': int, intra': Option<Group>, inter': Option<Group>,
                        err: Option<InitError>, calls: seq<Group>)
    requires rank < |lws|
  {
    match ReadIntVar(vars, LocalRankVar)
    // parallel.py:81: LOCAL_RANK absent or not an integer
    case Err(e) =>
      err == Some(EnvVar(e)) && calls == [] &&
      localRank' == localRank && localWorldSize' == localWorldSize && intra' == intra && inter' == inter
    case Ok(parsedRank) =>
      localRank' == parsedRank &&
      match ReadIntVar(vars, LocalWorldSizeVar)
      // parallel.py:82: LOCAL_WORLD_SIZE absent or not an integer, after LOCAL_RANK was stored
      case Err(e) =>
        err == Some(EnvVar(e)) && calls == [] &&
        localWorldSize' == localWorldSize && intra' == intra && inter' == inter
      // both stored; the groups are then created as GroupsOutcome describes
      case Ok(parsedSize) =>
        localWorldSize' == parsedSize &&
        GroupsOutcome(lws, rank, parsedRank, intra, inter, intra', inter', err, calls)
  }

  /**
   * Two processes that gathered the same sizes and initialise for the first time make the
   * same `dist.new_group` calls in the same order, whatever their global and local ranks.
   */
  lemma GroupCallsSameOnEveryRank(lws: seq<int>, rank1: nat, rank2: nat, localRank1: int, localRank2: int,
                                  inter1: Option<Group>, inter2: Option<Group>,
                                  after1: Option<Group>, after2: Option<Group>,
                                  afterInter1: Option<Group>, afterInter2: Option<Group>,
                                  err1: Option<InitError>, err2: Option<InitError>,
                                  calls1: seq<Group>, calls2: seq<Group>)
    requires rank1 < |lws| && rank2 < |lws|
    requires GroupsOutcome(lws, rank1, localRank1, None, inter1, after1, afterInter1, err1, calls1)
    requires GroupsOutcome(lws, rank2, localRank2, None, inter2, after2, afterInter2, err2, calls2)
    ensures calls1 == calls2
    ensures Scan(lws, |lws|).Ok? ==> calls1 == NewGroupCalls(lws)
  {
  }

  /** The slot loop's result, read against the gathered sizes (a step of CreateGroups). */
  lemma UniformSlots(lws: seq<int>, rank: nat, localRank: int, slotCalls: seq<Group>,
                     afterInter: Option<Group>, err: Option<InitError>)
    requires rank < |lws| && Min(lws) == Max(lws)
    requires slotCalls == Slots(|lws|, lws[rank])
    requires 0 <= localRank < lws[rank] ==> err == None && afterInter == Some(SlotRanks(localRank, |lws|, lws[rank]))
    requires !(0 <= localRank < lws[rank]) ==> err == Some(InterNodeGroupUnset) && afterInter == None
    ensures slotCalls == Slots(|lws|, lws[0])
    ensures SlotOutcome(lws, rank, localRank, afterInter, err)
  {
    MinMaxUniform(lws);
    assert lws[rank] == lws[0];
    if 0 <= localRank < lws[rank] {
      SlotsPartition(|lws|, lws[rank], rank);
    }
  }

  /** Assembling a first initialisation's outcome from its parts (a step of CreateGroups). */
  lemma FirstInitGroups(lws: seq<int>, rank: nat, localRank: int, nodes: seq<seq<int>>,
                        beforeInter: Option<Group>, after: Option<Group>, afterInter: Option<Group>,
                        err: Option<InitError>, calls: seq<Group>)
    requires rank < |lws| && Scan(lws, |lws|) == Ok(nodes)
    requires IndexOfNode(nodes, rank) < |nodes| && after == Some(nodes[IndexOfNode(nodes, rank)])
    requires calls == nodes + (if Min(lws) == Max(lws) then Slots(|lws|, lws[0]) else [])
    requires SlotOutcome(lws, rank, localRank, afterInter, err)
    ensures GroupsOutcome(lws, rank, localRank, None, beforeInter, after, afterInter, err, calls)
  {
  }

  /** The registry globals of parallel.py:59-60, which `distributed_init` assigns. */
  class ProcessGroups {
    var localRank: int
    var localWorldSize: int
    var intraNodeGroup: Option<Group>
    var interNodeGroup: Option<Group>

    /** An inter-node group is only ever set after the intra-node group. */
    predicate Valid()
      reads this
    {
      intraNodeGroup.None? ==> interNodeGroup.None?
    }

    /** `get_local_rank()`: -1 until `distributed_init` has read LOCAL_RANK. */
    function GetLocalRank(): (r: int)
      reads this
      ensures r == localRank
    {
      localRank
    }

    /** `get_local_world_size()`: -1 until `distributed_init` has read LOCAL_WORLD_SIZE. */
    function GetLocalWorldSize(): (r: int)
      reads this
      ensures r == localWorldSize
    {
      localWorldSize
    }

    /** `get_intra_node_process_group()`: fails while the intra-node group is unset. */
    function GetIntraNodeProcessGroup(): (r: Result<Group, InitError>)
      reads this
      ensures r.Ok? <==> intraNodeGroup.Some?
      ensures r.Ok? ==> intraNodeGroup == Some(r.value)
      ensures r.Err? ==> r.error == GroupsUninitialized
    {
      match intraNodeGroup
      case None => Err(GroupsUninitialized)
      case Some(g) => Ok(g)
    }

    /**
     * `get_inter_node_process_group()`: fails while the intra-node group is unset (it does
     * not look at the inter-node group), and otherwise returns the inter-node group, which
     * is None after an initialisation with differing local world sizes.
     */
    function GetInterNodeProcessGroup(): (r: Result<Option<Group>, InitError>)
      reads this
      ensures r.Ok? <==> intraNodeGroup.Some?
      ensures r.Ok? ==> r.value == interNodeGroup
      ensures r.Err? ==> r.error == GroupsUninitialized
    {
      if intraNodeGroup.None? then Err(GroupsUninitialized) else Ok(interNodeGroup)
    }

    /** The state at import time: both sizes -1, both groups None, so both group getters fail. */
    constructor ()
      ensures Valid()
      ensures GetLocalRank() == -1 && GetLocalWorldSize() == -1
      ensures GetIntraNodeProcessGroup() == Err(GroupsUninitialized)
      ensures GetInterNodeProcessGroup() == Err(GroupsUninitialized)
    {
      localRank := -1;
      localWorldSize := -1;
      intraNodeGroup := None;
      interNodeGroup := None;
    }

    /**
     * The loop of parallel.py:98-103: create one group per node, in node order, and keep
     * the one holding `rank`. The search finds exactly one such node, so the assertion of
     * parallel.py:101 fails only when the group was set before this call, and the assertion
     * of parallel.py:103 never fails.
     */
    method AssignIntraNodeGroup(nodes: seq<seq<int>>, n: int, rank: int)
      returns (err: Option<InitError>, calls: seq<Group>)
      requires Blocks(nodes, n) && 0 <= rank < n
      modifies this`intraNodeGroup
      ensures IndexOfNode(nodes, rank) < |nodes|
      ensures old(intraNodeGroup).None? ==>
        err == None && calls == nodes && intraNodeGroup == Some(nodes[IndexOfNode(nodes, rank)])
      ensures old(intraNodeGroup).Some? ==>
        err == Some(IntraNodeGroupAlreadySet) && calls == nodes[..IndexOfNode(nodes, rank) + 1] &&
        intraNodeGroup == old(intraNodeGroup)
    {
      BlocksMembership(nodes, n, rank);
      ghost var k := IndexOfNode(nodes, rank);
      calls := [];
      var j := 0;
      while j < |nodes|
        invariant 0 <= j <= |nodes|
        invariant calls == nodes[..j]
        invariant old(intraNodeGroup).Some? ==> j <= k && intraNodeGroup == old(intraNodeGroup)
        invariant old(intraNodeGroup).None? ==> intraNodeGroup == if k < j then Some(nodes[k]) else None
      {
        var group := nodes[j];
        calls := calls + [group];
        assert calls == nodes[..j + 1];
        if rank in group {
          if intraNodeGroup.Some? {
            return Some(IntraNodeGroupAlreadySet), calls;
          }
          intraNodeGroup := Some(group);
        }
        j := j + 1;
      }
      assert calls == nodes;
      assert intraNodeGroup.Some?;
      err := None;
    }

    /**
     * The loop of parallel.py:106-111, run with this process's local rank and local world
     * size w: create the groups `range(i, n, w)` for i = 0 .. w-1 in order and keep slot
     * `localRank`. The assertion of parallel.py:109 never fails on a registry whose
     * inter-node group is unset; the one of parallel.py:111 fails exactly when the local
     * rank is not in 0 .. w-1.
     */
    method AssignInterNodeGroup(n: int) returns (err: Option<InitError>, calls: seq<Group>)
      requires interNodeGroup.None?
      modifies this`interNodeGroup
      ensures calls == Slots(n, localWorldSize)
      ensures 0 <= localRank < localWorldSize ==>
        err == None && interNodeGroup == Some(SlotRanks(localRank, n, localWorldSize))
      ensures !(0 <= localRank < localWorldSize) ==> err == Some(InterNodeGroupUnset) && interNodeGroup == None
    {
      var slots := Slots(n, localWorldSize);
      calls := [];
      var i := 0;
      while i < localWorldSize
        invariant 0 <= i <= |slots|
        invariant calls == slots[..i]
        invariant interNodeGroup == if 0 <= localRank < i then Some(SlotRanks(localRank, n, localWorldSize)) else None
      {
        var group := SlotRanks(i, n, localWorldSize);
        calls := calls + [group];
        if i == localRank {
          assert interNodeGroup.None?;
          interNodeGroup := Some(group);
        }
        i := i + 1;
      }
      assert calls == slots;
      if interNodeGroup.None? {
        return Some(InterNodeGroupUnset), calls;
      }
      err := None;
    }

    /**
     * parallel.py:80-82: store `int(os.environ["LOCAL_RANK"])`, then
     * `int(os.environ["LOCAL_WORLD_SIZE"])`, given what the two reads produce; a failing
     * read raises and leaves the later global untouched.
     */
    method StoreLocalSizes(parsedRank: Result<int, EnvError>, parsedSize: Result<int, EnvError>)
      returns (err: Option<InitError>)
      modifies this`localRank, this`localWorldSize
      ensures parsedRank.Err? ==>
        err == Some(EnvVar(parsedRank.error)) && localRank == old(localRank) && localWorldSize == old(localWorldSize)
      ensures parsedRank.Ok? && parsedSize.Err? ==>
        err == Some(EnvVar(parsedSize.error)) && localRank == parsedRank.value && localWorldSize == old(localWorldSize)
      ensures parsedRank.Ok? && parsedSize.Ok? ==>
        err == None && localRank == parsedRank.value && localWorldSize == parsedSize.value
    {
      if parsedRank.Err? {
        return Some(EnvVar(parsedRank.error));
      }
      localRank := parsedRank.value;
      if parsedSize.Err? {
        return Some(EnvVar(parsedSize.error));
      }
      localWorldSize := parsedSize.value;
      err := None;
    }

    /**
     * parallel.py:91-111, once LOCAL_RANK and LOCAL_WORLD_SIZE are stored: build the node
     * lists, create the node groups and, when all declared sizes agree, the slot groups.
     */
    method CreateGroups(rank: nat, lws: seq<int>) returns (err: Option<InitError>, calls: seq<Group>)
      requires Valid()
      requires rank < |lws| && localWorldSize == lws[rank]
      modifies this`intraNodeGroup, this`interNodeGroup
      ensures Valid()
      ensures GroupsOutcome(lws, rank, localRank, old(intraNodeGroup), old(interNodeGroup),
                            intraNodeGroup, interNodeGroup, err, calls)
    {
      var built := BuildNodeRanks(lws);
      if built.Err? {
        return Some(NodeSizeMismatch(built.error)), [];
      }
      var nodes := built.value;
      err, calls := AssignIntraNodeGroup(nodes, |lws|, rank);
      if err.Some? {
        return;
      }
      if Min(lws) == Max(lws) {
        var slotCalls;
        err, slotCalls := AssignInterNodeGroup(|lws|);
        UniformSlots(lws, rank, localRank, slotCalls, interNodeGroup, err);
        calls := calls + slotCalls;
      } else {
        calls := calls + [];
      }
      FirstInitGroups(lws, rank, localRank, nodes, old(interNodeGroup), intraNodeGroup, interNodeGroup, err, calls);
    }

    /**
     * parallel.py:80-111 on an environment `vars` that the launcher setup has completed:
     * store the local rank and size, then create the groups.
     */
    method InitFromVars(vars: Vars, rank: nat, lws: seq<int>) returns (err: Option<InitError>, calls: seq<Group>)
      requires Valid()
      requires rank < |lws|
      requires ReadIntVar(vars, LocalWorldSizeVar).Ok? ==> lws[rank] == ReadIntVar(vars, LocalWorldSizeVar).value
      modifies this
      ensures Valid()
      ensures InitOutcome(vars, rank, lws, old(localRank), old(localWorldSize), old(intraNodeGroup),
                          old(interNodeGroup), localRank, localWorldSize, intraNodeGroup, interNodeGroup, err, calls)
    {
      var parsedRank := ReadIntVar(vars, LocalRankVar);
      var parsedSize := ReadIntVar(vars, LocalWorldSizeVar);
      err := StoreLocalSizes(parsedRank, parsedSize);
      if err.Some? {
        calls := [];
      } else {
        err, calls := CreateGroups(rank, lws);
      }
    }

    /**
     * `distributed_init(args)` on the process of global rank `rank`, `lws` being the
     * gathered local world sizes, whose entry `rank` is this process's own LOCAL_WORLD_SIZE.
     * Returns the error raised, if any, and the `dist.new_group` calls made.
     */
    method DistributedInit(env: Environ, masterPort: int, rank: nat, lws: seq<int>)
      returns (err: Option<InitError>, calls: seq<Group>)
      requires Valid()
      requires rank < |lws|
      requires ReadIntVar(env.vars, LocalWorldSizeVar).Ok? ==>
        lws[rank] == ReadIntVar(env.vars, LocalWorldSizeVar).value
      modifies this, env
      ensures Valid()
      // parallel.py:72-74: MASTER_ADDR and MASTER_PORT are defaulted where absent
      ensures env.vars == WithLauncherDefaults(old(env.vars), masterPort)
      ensures InitOutcome(env.vars, rank, lws, old(localRank), old(localWorldSize), old(intraNodeGroup),
                          old(interNodeGroup), localRank, localWorldSize, intraNodeGroup, interNodeGroup, err, calls)
    {
      var missing := env.PrepareRendezvous(masterPort);
      err, calls := InitFromVars(env.vars, rank, lws);
    }
  }
}
