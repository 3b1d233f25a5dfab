/**
 * The topology that `distributed_init` derives from the all-gathered local world sizes:
 * the per-node rank lists `node_ranks` (parallel.py:91-97) and the per-slot rank lists
 * `range(i, N, W)` (parallel.py:105-107).
 */
module Topology {
  import opened Wrappers

  /** `list(range(lo, hi))` */
  function Range(lo: int, hi: int): (r: seq<int>)
    requires lo <= hi
    ensures |r| == hi - lo
    ensures forall j :: 0 <= j < |r| ==> r[j] == lo + j
  {
    seq(hi - lo, j requires 0 <= j < hi - lo => lo + j)
  }

  function Last<T>(s: seq<T>): T
    requires |s| >= 1
  {
    s[|s| - 1]
  }

  /** The ranks of all nodes, node after node. */
  function Flatten(nodes: seq<seq<int>>): seq<int> {
    if nodes == [] then [] else Flatten(nodes[..|nodes| - 1]) + Last(nodes)
  }

  /** Every declared local world size is at least one. */
  predicate Positive(lws: seq<int>) {
    forall i :: 0 <= i < |lws| ==> lws[i] >= 1
  }

  // ---------------------------------------------------------------------------------------
  // The node_ranks loop

  /**
   * `node_ranks` after the loop of parallel.py:91-97 has handled ranks 0 .. n-1, or Err(i)
   * when the assertion of parallel.py:96 fired on rank i. Rank i opens a new node when the
   * current (last) node already holds as many ranks as rank i-1 declared; otherwise it must
   * declare the same size as rank i-1.
   */
  function Scan(lws: seq<int>, n: nat): (r: Result<seq<seq<int>>, nat>)
    requires 1 <= n <= |lws|
    ensures r.Ok? ==> |r.value| >= 1 && |Last(r.value)| >= 1
    ensures r.Err? ==> 1 <= r.error < n
    decreases n
  {
    if n == 1 then Ok([[0]])
    else
      var i := n - 1;
      match Scan(lws, i)
      case Err(j) => Err(j)
      case Ok(nodes) =>
        if |Last(nodes)| == lws[i - 1] then Ok(nodes + [[i]])
        else if lws[i] == lws[i - 1] then Ok(nodes[|nodes| - 1 := Last(nodes) + [i]])
        else Err(i)
  }

  /**
   * The loop of parallel.py:91-97 over the gathered local world sizes (one per global rank):
   * the node lists it builds, or the rank whose assertion fails.
   */
  method BuildNodeRanks(lws: seq<int>) returns (r: Result<seq<seq<int>>, nat>)
    requires |lws| >= 1
    ensures r == Scan(lws, |lws|)
    ensures r.Ok? ==> Blocks(r.value, |lws|) && Flatten(r.value) == Range(0, |lws|)
    ensures r.Ok? && Positive(lws) ==> Sized(lws, r.value, |lws|)
    ensures r.Err? ==> MismatchAt(lws, r.error)
  {
    var nodeRanks: seq<seq<int>> := [[0]];
    var i := 1;
    while i < |lws|
      invariant 1 <= i <= |lws|
      invariant Scan(lws, i) == Ok(nodeRanks)
    {
      if |nodeRanks[|nodeRanks| - 1]| == lws[i - 1] {
        OpenNodeStep(lws, i, nodeRanks);
        nodeRanks := nodeRanks + [[]];
      } else if lws[i] != lws[i - 1] {
        ScanErrPersists(lws, i + 1, |lws|);
        NodeRanksOutcome(lws);
        return Err(i);
      } else {
        ScanExtendStep(lws, i, nodeRanks);
      }
      nodeRanks := nodeRanks[|nodeRanks| - 1 := nodeRanks[|nodeRanks| - 1] + [i]];
      i := i + 1;
    }
    NodeRanksOutcome(lws);
    r := Ok(nodeRanks);
  }

  /** Opening an empty node and appending rank n to it is one opening step of the loop. */
  lemma OpenNodeStep(lws: seq<int>, n: nat, nodes: seq<seq<int>>)
    requires 1 <= n < |lws| && Scan(lws, n) == Ok(nodes)
    requires |Last(nodes)| == lws[n - 1]
    ensures var grown := nodes + [[]];
      Scan(lws, n + 1) == Ok(grown[|grown| - 1 := grown[|grown| - 1] + [n]])
  {
    var grown := nodes + [[]];
    assert grown[|grown| - 1] + [n] == [n];
    assert grown[|grown| - 1 := [n]] == nodes + [[n]];
    ScanOpenStep(lws, n, nodes);
  }

  /** What the loop's outcome means: a cut of the ranks into nodes, or a mismatch. */
  lemma NodeRanksOutcome(lws: seq<int>)
    requires |lws| >= 1
    ensures var r := Scan(lws, |lws|);
      (r.Ok? ==> Blocks(r.value, |lws|) && Flatten(r.value) == Range(0, |lws|)) &&
      (r.Ok? && Positive(lws) ==> Sized(lws, r.value, |lws|)) &&
      (r.Err? ==> MismatchAt(lws, r.error))
  {
    var r := Scan(lws, |lws|);
    if r.Ok? {
      ScanBlocks(lws, |lws|);
      BlocksFlatten(r.value, |lws|);
      if Positive(lws) {
        ScanSized(lws, |lws|);
      }
    } else {
      ScanErrIffMismatch(lws, |lws|, r.error);
    }
  }

  // ---------------------------------------------------------------------------------------
  // What a correct node list looks like

  /**
   * `nodes` cuts the ranks 0 .. n-1 into consecutive, non-empty runs of consecutive ranks:
   * the first starts at 0, each next one starts where the previous one ended, the last ends
   * at n.
   */
  predicate Blocks(nodes: seq<seq<int>>, n: int) {
    |nodes| >= 1 &&
    (forall k :: 0 <= k < |nodes| ==>
      |nodes[k]| >= 1 && 0 <= nodes[k][0] && nodes[k][0] + |nodes[k]| <= n) &&
    (forall k, j :: 0 <= k < |nodes| && 0 <= j < |nodes[k]| ==> nodes[k][j] == nodes[k][0] + j) &&
    nodes[0][0] == 0 &&
    (forall a, b :: 0 <= a < |nodes| && 0 <= b < |nodes| && b == a + 1 ==> nodes[b][0] == nodes[a][0] + |nodes[a]|) &&
    Last(nodes)[0] + |Last(nodes)| == n
  }

  /**
   * The sizes in `nodes` agree with the declared local world sizes as far as the loop checks:
   * all members of a node declare the same size, every node but the last has exactly that
   * size, and the last node has at most that size.
   */
  predicate Sized(lws: seq<int>, nodes: seq<seq<int>>, n: int)
    requires Blocks(nodes, n) && n <= |lws|
  {
    (forall k, j :: 0 <= k < |nodes| && 0 <= j < |nodes[k]| ==> lws[nodes[k][j]] == lws[nodes[k][0]]) &&
    (forall k :: 0 <= k < |nodes| - 1 ==> |nodes[k]| == lws[nodes[k][0]]) &&
    |Last(nodes)| <= lws[Last(nodes)[0]]
  }

  /**
   * The assertion of parallel.py:96 fails at rank i: the ranks before i were accepted, the
   * current node has not reached the size rank i-1 declared, and rank i declares another size.
   */
  predicate MismatchAt(lws: seq<int>, i: int) {
    1 <= i < |lws| &&
    var prefix := Scan(lws, i);
    prefix.Ok? && |Last(prefix.value)| != lws[i - 1] && lws[i] != lws[i - 1]
  }

  /** The search `if rank in ranks` of parallel.py:98-100: the first node holding rank r. */
  function IndexOfNode(nodes: seq<seq<int>>, r: int): (k: nat)
    ensures k <= |nodes|
    ensures k < |nodes| ==> r in nodes[k]
    ensures forall j :: 0 <= j < k ==> r !in nodes[j]
  {
    if nodes == [] then 0
    else if r in nodes[0] then 0
    else 1 + IndexOfNode(nodes[1..], r)
  }

  // ---------------------------------------------------------------------------------------
  // One step of the loop, on cuts and sizes

  /** Opening a new node [n] after a cut of 0 .. n-1 gives a cut of 0 .. n. */
  lemma BlocksAppendNew(nodes: seq<seq<int>>, n: int)
    requires Blocks(nodes, n)
    ensures Blocks(nodes + [[n]], n + 1)
  {
    var next := nodes + [[n]];
    assert forall k :: 0 <= k < |nodes| ==> next[k] == nodes[k];
  }

  /** Appending rank n to the last node of a cut of 0 .. n-1 gives a cut of 0 .. n. */
  lemma BlocksExtendLast(nodes: seq<seq<int>>, n: int)
    requires Blocks(nodes, n)
    ensures Blocks(nodes[|nodes| - 1 := Last(nodes) + [n]], n + 1)
  {
    var m := |nodes|;
    var next := nodes[m - 1 := Last(nodes) + [n]];
    assert forall k :: 0 <= k < m - 1 ==> next[k] == nodes[k];
    assert next[m - 1][0] == nodes[m - 1][0];
  }

  /** Closing the last node at its declared size and opening [n] keeps the sizes right. */
  lemma SizedAppendNew(lws: seq<int>, nodes: seq<seq<int>>, n: int)
    requires n < |lws| && Positive(lws)
    requires Blocks(nodes, n) && Sized(lws, nodes, n)
    requires |Last(nodes)| == lws[n - 1]
    ensures Blocks(nodes + [[n]], n + 1) && Sized(lws, nodes + [[n]], n + 1)
  {
    BlocksAppendNew(nodes, n);
    var m := |nodes|;
    var next := nodes + [[n]];
    assert forall k :: 0 <= k < m ==> next[k] == nodes[k];
    assert Last(nodes)[|Last(nodes)| - 1] == n - 1;
  }

  /** Growing a last node that is below its declared size, by a rank of the same size. */
  lemma SizedExtendLast(lws: seq<int>, nodes: seq<seq<int>>, n: int)
    requires n < |lws|
    requires Blocks(nodes, n) && Sized(lws, nodes, n)
    requires |Last(nodes)| != lws[n - 1] && lws[n] == lws[n - 1]
    ensures Blocks(nodes[|nodes| - 1 := Last(nodes) + [n]], n + 1)
    ensures Sized(lws, nodes[|nodes| - 1 := Last(nodes) + [n]], n + 1)
  {
    BlocksExtendLast(nodes, n);
    var m := |nodes|;
    var next := nodes[m - 1 := Last(nodes) + [n]];
    assert forall k :: 0 <= k < m - 1 ==> next[k] == nodes[k];
    assert Last(nodes)[|Last(nodes)| - 1] == n - 1;
  }

  /** Ordering of runs: a run ends no later than any later run starts. */
  lemma {:induction false} BlocksOrdered(nodes: seq<seq<int>>, n: int, a: nat, b: nat)
    requires Blocks(nodes, n)
    requires a < b < |nodes|
    ensures nodes[a][0] + |nodes[a]| <= nodes[b][0]
    decreases b - a
  {
    if a + 1 < b {
      BlocksOrdered(nodes, n, a + 1, b);
      assert nodes[a + 1][0] == nodes[a][0] + |nodes[a]|;
    } else {
      assert nodes[b][0] == nodes[a][0] + |nodes[a]|;
    }
  }

  /** A node list with a one-rank last node, without that node. */
  lemma DropLastNode(lws: seq<int>, nodes: seq<seq<int>>, n: int)
    requires 2 <= n <= |lws|
    requires Blocks(nodes, n) && Sized(lws, nodes, n)
    requires |Last(nodes)| == 1
    ensures |nodes| >= 2
    ensures Blocks(nodes[..|nodes| - 1], n - 1) && Sized(lws, nodes[..|nodes| - 1], n - 1)
    ensures |Last(nodes[..|nodes| - 1])| == lws[n - 2]
  {
    var m := |nodes|;
    var prefix := nodes[..m - 1];
    forall k | 0 <= k < m - 1
      ensures nodes[k][0] + |nodes[k]| <= n - 1
    {
      BlocksOrdered(nodes, n, k, m - 1);
    }
    assert forall k :: 0 <= k < m - 1 ==> prefix[k] == nodes[k];
    var prev := nodes[m - 2];
    assert nodes[m - 1][0] == prev[0] + |prev|;
    assert prev[|prev| - 1] == n - 2;
  }

  /** A node list with a longer last node, with its last rank removed. */
  lemma ShortenLastNode(lws: seq<int>, nodes: seq<seq<int>>, n: int)
    requires 2 <= n <= |lws|
    requires Blocks(nodes, n) && Sized(lws, nodes, n)
    requires |Last(nodes)| > 1
    ensures var prefix := nodes[|nodes| - 1 := Last(nodes)[..|Last(nodes)| - 1]];
      Blocks(prefix, n - 1) && Sized(lws, prefix, n - 1) &&
      |Last(prefix)| != lws[n - 2] && lws[n - 1] == lws[n - 2] &&
      nodes == prefix[|prefix| - 1 := Last(prefix) + [n - 1]]
  {
    ShortenSplit(nodes, n);
    ShortenSizes(lws, nodes, n);
    ShortenBlocks(nodes, n);
    ShortenSized(lws, nodes, n);
  }

  /** The node list is the shortened one with rank n-1 put back at the end of its last node. */
  lemma ShortenSplit(nodes: seq<seq<int>>, n: int)
    requires Blocks(nodes, n) && |Last(nodes)| > 1
    ensures var prefix := nodes[|nodes| - 1 := Last(nodes)[..|Last(nodes)| - 1]];
      nodes == prefix[|prefix| - 1 := Last(prefix) + [n - 1]]
  {
    var m := |nodes|;
    var last := Last(nodes);
    var shortened := last[..|last| - 1];
    var prefix := nodes[m - 1 := shortened];
    assert Last(prefix) == shortened;
    assert last[|last| - 1] == n - 1;
    assert shortened + [n - 1] == last;
  }

  /** Ranks n-2 and n-1 share the last node, so they declare one size, which the shortened node is below. */
  lemma ShortenSizes(lws: seq<int>, nodes: seq<seq<int>>, n: int)
    requires 2 <= n <= |lws|
    requires Blocks(nodes, n) && Sized(lws, nodes, n) && |Last(nodes)| > 1
    ensures var prefix := nodes[|nodes| - 1 := Last(nodes)[..|Last(nodes)| - 1]];
      |Last(prefix)| != lws[n - 2] && lws[n - 1] == lws[n - 2]
  {
    var m := |nodes|;
    var last := nodes[m - 1];
    assert last[|last| - 2] == n - 2 && last[|last| - 1] == n - 1;
    assert lws[last[|last| - 2]] == lws[last[0]];
    assert lws[last[|last| - 1]] == lws[last[0]];
  }

  /** Removing the last rank from a last node of two or more ranks keeps the sizes right. */
  lemma ShortenSized(lws: seq<int>, nodes: seq<seq<int>>, n: int)
    requires 2 <= n <= |lws|
    requires Blocks(nodes, n) && Sized(lws, nodes, n) && |Last(nodes)| > 1
    requires Blocks(nodes[|nodes| - 1 := Last(nodes)[..|Last(nodes)| - 1]], n - 1)
    ensures Sized(lws, nodes[|nodes| - 1 := Last(nodes)[..|Last(nodes)| - 1]], n - 1)
  {
    var m := |nodes|;
    var last := Last(nodes);
    var prefix := nodes[m - 1 := last[..|last| - 1]];
    assert forall k :: 0 <= k < m - 1 ==> prefix[k] == nodes[k];
    assert Last(prefix)[0] == last[0];
  }

  /** Removing the last rank n-1 from a last node of two or more ranks leaves a cut of 0 .. n-2. */
  lemma ShortenBlocks(nodes: seq<seq<int>>, n: int)
    requires Blocks(nodes, n) && |Last(nodes)| > 1
    ensures Blocks(nodes[|nodes| - 1 := Last(nodes)[..|Last(nodes)| - 1]], n - 1)
  {
    var m := |nodes|;
    var last := Last(nodes);
    var prefix := nodes[m - 1 := last[..|last| - 1]];
    assert forall k :: 0 <= k < m - 1 ==> prefix[k] == nodes[k];
    forall k | 0 <= k < m - 1
      ensures nodes[k][0] + |nodes[k]| <= last[0]
    {
      BlocksOrdered(nodes, n, k, m - 1);
    }
  }

  // ---------------------------------------------------------------------------------------
  // Lemmas about the loop

  /** Once the assertion has failed, later ranks do not change the outcome. */
  lemma {:induction false} ScanErrPersists(lws: seq<int>, m: nat, n: nat)
    requires 1 <= m <= n <= |lws|
    requires Scan(lws, m).Err?
    ensures Scan(lws, n) == Scan(lws, m)
    decreases n - m
  {
    if m < n {
      ScanErrPersists(lws, m + 1, n);
    }
  }

  /** One iteration of the loop that opens a new node [n]. */
  lemma ScanOpenStep(lws: seq<int>, n: nat, nodes: seq<seq<int>>)
    requires 1 <= n < |lws| && Scan(lws, n) == Ok(nodes)
    requires |Last(nodes)| == lws[n - 1]
    ensures Scan(lws, n + 1) == Ok(nodes + [[n]])
  {
  }

  /** One iteration of the loop that appends rank n to the current node. */
  lemma ScanExtendStep(lws: seq<int>, n: nat, nodes: seq<seq<int>>)
    requires 1 <= n < |lws| && Scan(lws, n) == Ok(nodes)
    requires |Last(nodes)| != lws[n - 1] && lws[n] == lws[n - 1]
    ensures Scan(lws, n + 1) == Ok(nodes[|nodes| - 1 := Last(nodes) + [n]])
  {
  }

  /** Every accepted prefix of the loop is a cut of 0 .. n-1 into consecutive runs. */
  lemma {:induction false} ScanBlocks(lws: seq<int>, n: nat)
    requires 1 <= n <= |lws|
    requires Scan(lws, n).Ok?
    ensures Blocks(Scan(lws, n).value, n)
  {
    if n == 1 {
      assert Scan(lws, 1).value == [[0]];
    } else {
      ScanBlocks(lws, n - 1);
      BlocksStep(lws, n - 1);
    }
  }

  /** One accepted iteration of the loop keeps the node list a cut. */
  lemma BlocksStep(lws: seq<int>, i: nat)
    requires 1 <= i < |lws|
    requires Scan(lws, i).Ok? && Blocks(Scan(lws, i).value, i)
    requires Scan(lws, i + 1).Ok?
    ensures Blocks(Scan(lws, i + 1).value, i + 1)
  {
    var nodes := Scan(lws, i).value;
    if |Last(nodes)| == lws[i - 1] {
      ScanOpenStep(lws, i, nodes);
      BlocksAppendNew(nodes, i);
    } else {
      ScanExtendStep(lws, i, nodes);
      BlocksExtendLast(nodes, i);
    }
  }

  /** With positive declared sizes, every accepted prefix has the sizes the loop enforces. */
  lemma {:induction false} ScanSized(lws: seq<int>, n: nat)
    requires 1 <= n <= |lws|
    requires Positive(lws)
    requires Scan(lws, n).Ok?
    ensures Blocks(Scan(lws, n).value, n) && Sized(lws, Scan(lws, n).value, n)
  {
    ScanBlocks(lws, n);
    if n > 1 {
      ScanSized(lws, n - 1);
      SizedStep(lws, n - 1);
    }
  }

  /** One accepted iteration of the loop keeps the sizes the loop enforces. */
  lemma SizedStep(lws: seq<int>, i: nat)
    requires 1 <= i < |lws| && Positive(lws)
    requires Scan(lws, i).Ok? && Blocks(Scan(lws, i).value, i) && Sized(lws, Scan(lws, i).value, i)
    requires Scan(lws, i + 1).Ok?
    ensures Blocks(Scan(lws, i + 1).value, i + 1) && Sized(lws, Scan(lws, i + 1).value, i + 1)
  {
    var nodes := Scan(lws, i).value;
    if |Last(nodes)| == lws[i - 1] {
      ScanOpenStep(lws, i, nodes);
      SizedAppendNew(lws, nodes, i);
    } else {
      ScanExtendStep(lws, i, nodes);
      SizedExtendLast(lws, nodes, i);
    }
  }

  /** The only cut of the single rank 0 is [[0]]. */
  lemma SingleRankBlocks(nodes: seq<seq<int>>)
    requires Blocks(nodes, 1)
    ensures nodes == [[0]]
  {
    var m := |nodes|;
    if m > 1 {
      BlocksOrdered(nodes, 1, 0, m - 1);
    }
    assert nodes[0] == [0];
  }

  /**
   * The loop accepts every correct node list: any cut of 0 .. n-1 into runs with the sizes
   * the loop enforces is exactly what the loop builds.
   */
  lemma {:induction false} ScanComplete(lws: seq<int>, n: nat, nodes: seq<seq<int>>)
    requires 1 <= n <= |lws|
    requires Blocks(nodes, n) && Sized(lws, nodes, n)
    ensures Scan(lws, n) == Ok(nodes)
    decreases n, 1
  {
    if n == 1 {
      SingleRankBlocks(nodes);
    } else if |Last(nodes)| == 1 {
      CompleteByOpening(lws, n, nodes);
    } else {
      CompleteByExtending(lws, n, nodes);
    }
  }

  /** ScanComplete when rank n-1 opened the last node. */
  lemma {:induction false} CompleteByOpening(lws: seq<int>, n: nat, nodes: seq<seq<int>>)
    requires 2 <= n <= |lws|
    requires Blocks(nodes, n) && Sized(lws, nodes, n)
    requires |Last(nodes)| == 1
    ensures Scan(lws, n) == Ok(nodes)
    decreases n, 0
  {
    var prefix := nodes[..|nodes| - 1];
    var last := Last(nodes);
    assert last[0] == n - 1;
    assert last == [n - 1];
    assert nodes == prefix + [[n - 1]];
    DropLastNode(lws, nodes, n);
    ScanComplete(lws, n - 1, prefix);
    ScanOpenStep(lws, n - 1, prefix);
  }

  /** ScanComplete when rank n-1 joined the last node. */
  lemma {:induction false} CompleteByExtending(lws: seq<int>, n: nat, nodes: seq<seq<int>>)
    requires 2 <= n <= |lws|
    requires Blocks(nodes, n) && Sized(lws, nodes, n)
    requires |Last(nodes)| > 1
    ensures Scan(lws, n) == Ok(nodes)
    decreases n, 0
  {
    var prefix := nodes[|nodes| - 1 := Last(nodes)[..|Last(nodes)| - 1]];
    ShortenLastNode(lws, nodes, n);
    ScanComplete(lws, n - 1, prefix);
    ExtendBack(lws, n, prefix, nodes);
  }

  /** ScanExtendStep, read backwards from the extended list. */
  lemma ExtendBack(lws: seq<int>, n: nat, prefix: seq<seq<int>>, nodes: seq<seq<int>>)
    requires 2 <= n <= |lws| && Scan(lws, n - 1) == Ok(prefix)
    requires |Last(prefix)| != lws[n - 2] && lws[n - 1] == lws[n - 2]
    requires nodes == prefix[|prefix| - 1 := Last(prefix) + [n - 1]]
    ensures Scan(lws, n) == Ok(nodes)
  {
    ScanExtendStep(lws, n - 1, prefix);
  }

  /**
   * With positive declared sizes the loop succeeds exactly when some correct node list
   * exists, and then its result is that list (there is only one).
   */
  lemma ScanSucceedsIffLayoutExists(lws: seq<int>, n: nat)
    requires 1 <= n <= |lws|
    requires Positive(lws)
    ensures Scan(lws, n).Ok? <==> exists nodes :: Blocks(nodes, n) && Sized(lws, nodes, n)
    ensures forall nodes :: Blocks(nodes, n) && Sized(lws, nodes, n) ==> Scan(lws, n) == Ok(nodes)
  {
    if Scan(lws, n).Ok? {
      ScanSized(lws, n);
    }
    forall nodes | Blocks(nodes, n) && Sized(lws, nodes, n)
      ensures Scan(lws, n) == Ok(nodes)
    {
      ScanComplete(lws, n, nodes);
    }
  }

  /** The assertion fails on rank i exactly when i is where the sizes first disagree. */
  lemma {:induction false} ScanErrIffMismatch(lws: seq<int>, n: nat, i: int)
    requires 1 <= n <= |lws|
    ensures Scan(lws, n) == Err(i) <==> i < n && MismatchAt(lws, i)
    decreases n
  {
    if n > 1 {
      ScanErrIffMismatch(lws, n - 1, i);
      if i < n - 1 && MismatchAt(lws, i) {
        ScanErrPersists(lws, i + 1, n - 1);
      }
    }
  }

  // ---------------------------------------------------------------------------------------
  // Membership: every rank in exactly one node

  /** Rank r lies in node k exactly when it falls between that node's ends. */
  lemma BlocksMemberBounds(nodes: seq<seq<int>>, n: int, k: nat, r: int)
    requires Blocks(nodes, n) && k < |nodes|
    ensures r in nodes[k] <==> nodes[k][0] <= r < nodes[k][0] + |nodes[k]|
  {
    if nodes[k][0] <= r < nodes[k][0] + |nodes[k]| {
      assert nodes[k][r - nodes[k][0]] == r;
    }
  }

  /** Flattening the nodes gives exactly the ranks 0 .. n-1 in order. */
  lemma {:induction false} BlocksFlatten(nodes: seq<seq<int>>, n: int)
    requires Blocks(nodes, n)
    ensures Flatten(nodes) == Range(0, n)
    decreases |nodes|
  {
    var m := |nodes|;
    var last := Last(nodes);
    if m == 1 {
      assert Flatten(nodes) == Flatten([]) + last;
    } else {
      var init := nodes[..m - 1];
      forall k | 0 <= k < m - 1
        ensures init[k][0] + |init[k]| <= last[0]
      {
        BlocksOrdered(nodes, n, k, m - 1);
      }
      assert forall k :: 0 <= k < m - 1 ==> init[k] == nodes[k];
      assert nodes[m - 1][0] == nodes[m - 2][0] + |nodes[m - 2]|;
      assert Blocks(init, last[0]);
      BlocksFlatten(init, last[0]);
      assert Range(0, last[0]) + last == Range(0, n);
    }
  }

  /** `x` occurs in the flattening exactly when it occurs in one of the nodes. */
  lemma {:induction false} InFlatten(nodes: seq<seq<int>>, x: int)
    ensures x in Flatten(nodes) <==> exists k :: 0 <= k < |nodes| && x in nodes[k]
    decreases |nodes|
  {
    if nodes != [] {
      var init := nodes[..|nodes| - 1];
      InFlatten(init, x);
      if x in Flatten(nodes) && x !in Last(nodes) {
        var k :| 0 <= k < |init| && x in init[k];
        assert nodes[k] == init[k];
      }
      if exists k :: 0 <= k < |nodes| && x in nodes[k] {
        var k :| 0 <= k < |nodes| && x in nodes[k];
        if k < |init| {
          assert init[k] == nodes[k];
        }
      }
    }
  }

  /**
   * Every rank in 0 .. n-1 is in exactly one node, the one the search finds, and no other
   * number is in any node.
   */
  lemma BlocksMembership(nodes: seq<seq<int>>, n: int, r: int)
    requires Blocks(nodes, n)
    ensures 0 <= r < n ==> IndexOfNode(nodes, r) < |nodes|
    ensures 0 <= r < n ==> forall j :: 0 <= j < |nodes| && r in nodes[j] ==> j == IndexOfNode(nodes, r)
    ensures !(0 <= r < n) ==> forall j :: 0 <= j < |nodes| ==> r !in nodes[j]
  {
    BlocksFlatten(nodes, n);
    InFlatten(nodes, r);
    if 0 <= r < n {
      assert Range(0, n)[r] == r;
      var k := IndexOfNode(nodes, r);
      forall j | 0 <= j < |nodes| && r in nodes[j]
        ensures j == k
      {
        BlocksMemberBounds(nodes, n, j, r);
        BlocksMemberBounds(nodes, n, k, r);
        if k < j {
          BlocksOrdered(nodes, n, k, j);
        }
      }
    } else {
      forall j | 0 <= j < |nodes|
        ensures r !in nodes[j]
      {
        BlocksMemberBounds(nodes, n, j, r);
      }
    }
  }

  /**
   * The boundary rule, read off the result: rank i (0 < i < n) lies in another node than
   * rank i-1 exactly when the node holding rank i-1 had, up to and including i-1, as many
   * ranks as rank i-1 declared.
   */
  lemma BoundaryRule(lws: seq<int>, n: nat, i: int)
    requires 1 <= n <= |lws|
    requires Positive(lws)
    requires Scan(lws, n).Ok?
    requires 1 <= i < n
    ensures var nodes := Scan(lws, n).value;
      var k := IndexOfNode(nodes, i - 1);
      k < |nodes| && (IndexOfNode(nodes, i) != k <==> i - nodes[k][0] == lws[i - 1])
  {
    ScanSized(lws, n);
    CutBoundary(lws, Scan(lws, n).value, n, i);
  }

  /** The boundary rule on any cut with the loop's sizes. */
  lemma CutBoundary(lws: seq<int>, nodes: seq<seq<int>>, n: int, i: int)
    requires n <= |lws| && Blocks(nodes, n) && Sized(lws, nodes, n)
    requires 1 <= i < n
    ensures var k := IndexOfNode(nodes, i - 1);
      k < |nodes| && (IndexOfNode(nodes, i) != k <==> i - nodes[k][0] == lws[i - 1])
  {
    var k := IndexOfNode(nodes, i - 1);
    NodeHolding(lws, nodes, n, i - 1);
    SameNodeIffBelowEnd(nodes, n, k, i);
    assert k < |nodes| - 1 ==> |nodes[k]| == lws[nodes[k][0]];
  }

  /** The node holding rank r spans r, and all its members declare what r declares. */
  lemma NodeHolding(lws: seq<int>, nodes: seq<seq<int>>, n: int, r: int)
    requires n <= |lws| && Blocks(nodes, n) && Sized(lws, nodes, n)
    requires 0 <= r < n
    ensures var k := IndexOfNode(nodes, r);
      k < |nodes| && nodes[k][0] <= r < nodes[k][0] + |nodes[k]| && lws[r] == lws[nodes[k][0]]
  {
    BlocksMembership(nodes, n, r);
    var k := IndexOfNode(nodes, r);
    BlocksMemberBounds(nodes, n, k, r);
    assert nodes[k][r - nodes[k][0]] == r;
  }

  /** A rank at or after the start of node k lies in node k exactly when it is before its end. */
  lemma SameNodeIffBelowEnd(nodes: seq<seq<int>>, n: int, k: nat, r: int)
    requires Blocks(nodes, n) && k < |nodes|
    requires nodes[k][0] <= r < n
    ensures IndexOfNode(nodes, r) == k <==> r < nodes[k][0] + |nodes[k]|
  {
    BlocksMembership(nodes, n, r);
    BlocksMemberBounds(nodes, n, k, r);
  }

  // ---------------------------------------------------------------------------------------
  // Uniform shape: min(local_world_sizes) == max(local_world_sizes)

  /** `min(s)` */
  function Min(s: seq<int>): (m: int)
    requires |s| >= 1
    ensures m in s
    ensures forall j :: 0 <= j < |s| ==> m <= s[j]
  {
    if |s| == 1 then s[0]
    else
      var rest := Min(s[1..]);
      assert forall j :: 1 <= j < |s| ==> s[j] == s[1..][j - 1];
      if s[0] <= rest then s[0] else rest
  }

  /** `max(s)` */
  function Max(s: seq<int>): (m: int)
    requires |s| >= 1
    ensures m in s
    ensures forall j :: 0 <= j < |s| ==> s[j] <= m
  {
    if |s| == 1 then s[0]
    else
      var rest := Max(s[1..]);
      assert forall j :: 1 <= j < |s| ==> s[j] == s[1..][j - 1];
      if s[0] >= rest then s[0] else rest
  }

  /** Every rank declares the same local world size. */
  predicate Uniform(lws: seq<int>)
    requires |lws| >= 1
  {
    forall j :: 0 <= j < |lws| ==> lws[j] == lws[0]
  }

  /** The test of parallel.py:105 holds exactly when all declared sizes are equal. */
  lemma MinMaxUniform(lws: seq<int>)
    requires |lws| >= 1
    ensures Min(lws) == Max(lws) <==> Uniform(lws)
  {
    if Uniform(lws) {
      var lo := Min(lws);
      var hi := Max(lws);
      assert lo == lws[0] && hi == lws[0];
    }
  }

  /** Products with a non-negative factor keep order. */
  lemma MulMonotone(a: int, b: int, w: int)
    requires a <= b && w >= 0
    ensures a * w <= b * w
  {
    assert b * w - a * w == (b - a) * w;
  }

  /** The remainder and quotient of x == q * w + i with 0 <= i < w are i and q. */
  lemma DivModUnique(x: int, w: int, q: int, i: int)
    requires w >= 1 && 0 <= i < w && x == q * w + i
    ensures x % w == i && x / w == q
  {
    var q' := x / w;
    var i' := x % w;
    assert x == q' * w + i';
    assert (q' - q) * w == i - i';
    if q' - q >= 1 {
      MulMonotone(1, q' - q, w);
    } else if q' - q <= -1 {
      MulMonotone(q' - q, -1, w);
    }
  }

  /** In a cut whose closed nodes all have w ranks, node k starts at rank k * w. */
  lemma {:induction false} UniformStarts(nodes: seq<seq<int>>, n: int, w: int, k: nat)
    requires Blocks(nodes, n)
    requires forall j :: 0 <= j < |nodes| - 1 ==> |nodes[j]| == w
    requires k < |nodes|
    ensures nodes[k][0] == k * w
  {
    if k > 0 {
      UniformStarts(nodes, n, w, k - 1);
      assert nodes[k][0] == nodes[k - 1][0] + |nodes[k - 1]|;
    }
  }

  /** With every rank declaring w, rank i never disagrees with rank i-1, so the loop succeeds. */
  lemma UniformAccepted(lws: seq<int>, w: int)
    requires |lws| >= 1 && forall j :: 0 <= j < |lws| ==> lws[j] == w
    ensures Scan(lws, |lws|).Ok?
  {
    if Scan(lws, |lws|).Err? {
      ScanErrIffMismatch(lws, |lws|, Scan(lws, |lws|).error);
    }
  }

  /** m - 1 full nodes of w and a last node of 1 .. w ranks fill n = m * w ranks only with m = n / w. */
  lemma FullNodesCount(n: int, w: int, m: int, last: int)
    requires w >= 1 && m >= 1 && 1 <= last <= w
    requires (m - 1) * w + last == n && n % w == 0
    ensures m == n / w && last == w
  {
    var c := n / w;
    DivModUnique(n, w, c, 0);
    assert (c - (m - 1)) * w == last;
    if c - (m - 1) >= 2 {
      MulMonotone(2, c - (m - 1), w);
    } else if c - (m - 1) <= 0 {
      MulMonotone(c - (m - 1), 0, w);
    }
  }

  /**
   * With every rank declaring w, the nodes are [0, w), [w, 2w), ...: every node but the last
   * has w ranks, the last between 1 and w, and when w divides N there are N / w full nodes.
   */
  lemma UniformNodes(lws: seq<int>, w: int)
    requires |lws| >= 1 && w >= 1 && forall j :: 0 <= j < |lws| ==> lws[j] == w
    ensures Scan(lws, |lws|).Ok?
    ensures var nodes := Scan(lws, |lws|).value;
      (forall k :: 0 <= k < |nodes| ==> |nodes[k]| >= 1 && nodes[k][0] == k * w) &&
      (forall k :: 0 <= k < |nodes| - 1 ==> |nodes[k]| == w) &&
      1 <= |Last(nodes)| <= w &&
      (|lws| % w == 0 ==> |nodes| == |lws| / w && |Last(nodes)| == w)
  {
    var n := |lws|;
    UniformAccepted(lws, w);
    var nodes := Scan(lws, n).value;
    ScanSized(lws, n);
    forall k | 0 <= k < |nodes|
      ensures |nodes[k]| >= 1 && nodes[k][0] == k * w
    {
      UniformStarts(nodes, n, w, k);
    }
    var m := |nodes|;
    if n % w == 0 {
      FullNodesCount(n, w, m, |Last(nodes)|);
    }
  }

  // ---------------------------------------------------------------------------------------
  // Slot groups

  /** `list(range(i, n, w))` for a positive step w: i, i + w, i + 2w, ... below n. */
  function SlotRanks(i: int, n: int, w: int): (r: seq<int>)
    requires w >= 1
    ensures forall j :: 0 <= j < |r| ==> r[j] == i + j * w && i <= r[j] < n
    ensures i + |r| * w >= n
    decreases n - i
  {
    if i >= n then []
    else
      var rest := SlotRanks(i + w, n, w);
      assert forall j :: 0 <= j < |rest| ==> i + (j + 1) * w == i + w + j * w;
      assert i + (|rest| + 1) * w == i + w + |rest| * w;
      [i] + rest
  }

  /** The slot lists `range(i, n, w)` for i in `range(w)`, as parallel.py:106-107 creates them. */
  function Slots(n: int, w: int): (r: seq<seq<int>>)
    ensures |r| == if w >= 1 then w else 0
    ensures forall i :: 0 <= i < |r| ==> r[i] == SlotRanks(i, n, w)
  {
    if w >= 1 then seq(w, i requires 0 <= i < w => SlotRanks(i, n, w)) else []
  }

  /**
   * The slots are disjoint and together hold every rank of 0 .. n-1: rank x is in slot
   * x % w and in no other, and slots hold nothing outside 0 .. n-1.
   */
  lemma SlotsPartition(n: int, w: int, x: int)
    requires w >= 1
    ensures 0 <= x < n ==> x in SlotRanks(x % w, n, w)
    ensures forall i :: 0 <= i < w && x in SlotRanks(i, n, w) ==> 0 <= x < n && i == x % w
  {
    if 0 <= x < n {
      SlotHoldsRank(n, w, x);
    }
    forall i | 0 <= i < w && x in SlotRanks(i, n, w)
      ensures 0 <= x < n && i == x % w
    {
      SlotHoldsOnlyItsOwn(n, w, i, x);
    }
  }

  /** Rank x of 0 .. n-1 is the (x / w)-th member of slot x % w. */
  lemma SlotHoldsRank(n: int, w: int, x: int)
    requires w >= 1 && 0 <= x < n
    ensures x in SlotRanks(x % w, n, w)
  {
    var q := x / w;
    var i := x % w;
    var r := SlotRanks(i, n, w);
    DivModUnique(x, w, q, i);
    MulMonotone(0, q, w);
    if q >= |r| {
      MulMonotone(|r|, q, w);
      assert false;
    }
    assert r[q] == x;
  }

  /** A member of slot i is a rank of 0 .. n-1 whose remainder by w is i. */
  lemma SlotHoldsOnlyItsOwn(n: int, w: int, i: int, x: int)
    requires w >= 1 && 0 <= i < w && x in SlotRanks(i, n, w)
    ensures 0 <= x < n && i == x % w
  {
    var r := SlotRanks(i, n, w);
    var j :| 0 <= j < |r| && r[j] == x;
    MulMonotone(0, j, w);
    DivModUnique(x, w, j, i);
  }

  /** In a cut into nodes of w ranks starting at k * w, the j-th member of slot i is rank i of node j. */
  lemma SlotMemberInNode(nodes: seq<seq<int>>, n: int, w: int, i: int, j: int)
    requires Blocks(nodes, n) && w >= 1 && 0 <= i < w
    requires forall k :: 0 <= k < |nodes| ==> nodes[k][0] == k * w
    requires forall k :: 0 <= k < |nodes| - 1 ==> |nodes[k]| == w
    requires |Last(nodes)| <= w
    requires 0 <= j < |SlotRanks(i, n, w)|
    ensures j < |nodes| && i < |nodes[j]| && nodes[j][i] == SlotRanks(i, n, w)[j]
  {
    var m := |nodes|;
    var x := SlotRanks(i, n, w)[j];
    assert x == i + j * w < n;
    if j >= m {
      assert nodes[m - 1][0] == (m - 1) * w;
      assert m * w == (m - 1) * w + w;
      MulMonotone(m, j, w);
      assert false;
    }
    assert nodes[j][0] == j * w;
  }

  /** In the same cut, every node with a rank at position i contributes to slot i. */
  lemma NodeMemberInSlot(nodes: seq<seq<int>>, n: int, w: int, i: int, k: int)
    requires Blocks(nodes, n) && w >= 1 && 0 <= i < w
    requires forall k :: 0 <= k < |nodes| ==> nodes[k][0] == k * w
    requires 0 <= k < |nodes| && i < |nodes[k]|
    ensures k < |SlotRanks(i, n, w)|
  {
    var slot := SlotRanks(i, n, w);
    assert nodes[k][i] == k * w + i < n;
    if k >= |slot| {
      MulMonotone(|slot|, k, w);
      assert false;
    }
  }

  /** Node k of the cut has rank x at position i. */
  predicate RankAt(nodes: seq<seq<int>>, k: int, i: int, x: int) {
    0 <= k < |nodes| && 0 <= i < |nodes[k]| && nodes[k][i] == x
  }

  /** Slot i against a cut into nodes of w ranks starting at k * w. */
  lemma SlotsFollowCut(nodes: seq<seq<int>>, n: int, w: int, i: int, slot: seq<int>)
    requires Blocks(nodes, n) && w >= 1 && 0 <= i < w
    requires forall k :: 0 <= k < |nodes| ==> nodes[k][0] == k * w
    requires forall k :: 0 <= k < |nodes| - 1 ==> |nodes[k]| == w
    requires |Last(nodes)| <= w
    requires slot == SlotRanks(i, n, w)
    ensures forall j :: 0 <= j < |slot| ==> RankAt(nodes, j, i, slot[j])
    ensures forall k :: 0 <= k < |nodes| && i < |nodes[k]| ==> k < |slot|
  {
    forall j | 0 <= j < |slot|
      ensures RankAt(nodes, j, i, slot[j])
    {
      SlotMemberInNode(nodes, n, w, i, j);
    }
    forall k | 0 <= k < |nodes| && i < |nodes[k]|
      ensures k < |slot|
    {
      NodeMemberInSlot(nodes, n, w, i, k);
    }
  }

  /**
   * With every rank declaring w, slot i holds, in node order, the rank at position i of each
   * node that has one: the j-th member of slot i is rank i of node j.
   */
  lemma SlotsFollowNodes(lws: seq<int>, w: int, i: int)
    requires |lws| >= 1 && w >= 1 && forall j :: 0 <= j < |lws| ==> lws[j] == w
    requires 0 <= i < w
    ensures Scan(lws, |lws|).Ok?
    ensures var nodes := Scan(lws, |lws|).value;
      var slot := SlotRanks(i, |lws|, w);
      (forall j :: 0 <= j < |slot| ==> RankAt(nodes, j, i, slot[j])) &&
      (forall k :: 0 <= k < |nodes| && i < |nodes[k]| ==> k < |slot|)
  {
    UniformNodes(lws, w);
    var nodes := Scan(lws, |lws|).value;
    ScanBlocks(lws, |lws|);
    SlotsFollowCut(nodes, |lws|, w, i, SlotRanks(i, |lws|, w));
  }

  /**
   * With every rank declaring w and w dividing N, there are w slot groups and each holds
   * N / w ranks, one from each of the N / w full nodes.
   */
  lemma UniformSlotSizes(lws: seq<int>, w: int, i: int)
    requires |lws| >= 1 && w >= 1 && forall j :: 0 <= j < |lws| ==> lws[j] == w
    requires |lws| % w == 0 && 0 <= i < w
    ensures |Slots(|lws|, w)| == w
    ensures Scan(lws, |lws|).Ok?
    ensures |SlotRanks(i, |lws|, w)| == |lws| / w == |Scan(lws, |lws|).value|
  {
    UniformNodes(lws, w);
    SlotLength(i, |lws|, w);
  }

  /** When w divides n, `range(i, n, w)` with 0 <= i < w has n / w elements. */
  lemma SlotLength(i: int, n: int, w: int)
    requires w >= 1 && 0 <= i < w && n >= 0 && n % w == 0
    ensures |SlotRanks(i, n, w)| == n / w
  {
    var q := n / w;
    var slot := SlotRanks(i, n, w);
    assert n == q * w;
    if |slot| > 0 {
      assert slot[|slot| - 1] == i + (|slot| - 1) * w;
      MulCancelLess(|slot| - 1, q, w);
    }
    assert (|slot| + 1) * w == |slot| * w + w;
    MulCancelLess(q, |slot| + 1, w);
  }

  /** A positive factor can be cancelled from a strict inequality of products. */
  lemma MulCancelLess(a: int, b: int, w: int)
    requires w >= 1 && a * w < b * w
    ensures a < b
  {
    if a >= b {
      MulMonotone(b, a, w);
    }
  }


  // ---------------------------------------------------------------------------------------
  // Scenarios

  /** A single process forms the single node [[0]] and, declaring 1, the single slot [[0]]. */
  lemma SingleProcess(size: int)
    ensures Scan([size], 1) == Ok([[0]])
    ensures Slots(1, 1) == [[0]]
  {
    assert SlotRanks(0, 1, 1) == [0];
  }

  /** Four processes of one node of 4, built one rank at a time. */
  lemma FirstNodeOfFour(lws: seq<int>)
    requires |lws| >= 4 && lws[0] == lws[1] == lws[2] == lws[3] == 4
    ensures Scan(lws, 4) == Ok([[0, 1, 2, 3]])
  {
    FirstNodeLists();
    ScanExtendStep(lws, 1, [[0]]);
    ScanExtendStep(lws, 2, [[0, 1]]);
    ScanExtendStep(lws, 3, [[0, 1, 2]]);
  }

  /**
   * Proof helper, not a property of the model: the one-node lists of the scenarios, as the
   * loop grows them one rank at a time, spelled out so the solver need not rebuild them.
   */
  lemma FirstNodeLists()
    ensures [[0]][0 := [0] + [1]] == [[0, 1]]
    ensures [[0, 1]][0 := [0, 1] + [2]] == [[0, 1, 2]]
    ensures [[0, 1, 2]][0 := [0, 1, 2] + [3]] == [[0, 1, 2, 3]]
  {
    assert [0] + [1] == [0, 1];
    assert [0, 1] + [2] == [0, 1, 2];
    assert [0, 1, 2] + [3] == [0, 1, 2, 3];
  }

  /** Appending rank n to the last node of an accepted prefix, stated on the split list. */
  lemma ExtendNode(lws: seq<int>, n: nat, done: seq<seq<int>>, node: seq<int>)
    requires 1 <= n < |lws| && Scan(lws, n) == Ok(done + [node])
    requires |node| != lws[n - 1] && lws[n] == lws[n - 1]
    ensures Scan(lws, n + 1) == Ok(done + [node + [n]])
  {
    assert (done + [node])[|done| := node + [n]] == done + [node + [n]];
    ScanExtendStep(lws, n, done + [node]);
  }

  /** After a first node of 4, rank 4 opens the second node. */
  lemma SecondNodeOpens(lws: seq<int>)
    requires |lws| >= 5 && lws[0] == lws[1] == lws[2] == lws[3] == 4
    ensures Scan(lws, 5) == Ok([[0, 1, 2, 3], [4]])
  {
    assert [[0, 1, 2, 3]] + [[4]] == [[0, 1, 2, 3], [4]];
    FirstNodeOfFour(lws);
    ScanOpenStep(lws, 4, [[0, 1, 2, 3]]);
  }

  /**
   * Proof helper, not a property of the model: the two-node lists of the scenarios below, as
   * the loop builds them one rank at a time, spelled out so the solver need not rebuild them.
   */
  lemma SecondNodeLists()
    ensures [[0, 1, 2, 3], [4]] == [[0, 1, 2, 3]] + [[4]]
    ensures [[0, 1, 2, 3]] + [[4] + [5]] == [[0, 1, 2, 3], [4, 5]]
    ensures [[0, 1, 2, 3], [4, 5]] == [[0, 1, 2, 3]] + [[4, 5]]
    ensures [[0, 1, 2, 3]] + [[4, 5] + [6]] == [[0, 1, 2, 3], [4, 5, 6]]
    ensures [[0, 1, 2, 3], [4, 5, 6]] == [[0, 1, 2, 3]] + [[4, 5, 6]]
    ensures [[0, 1, 2, 3]] + [[4, 5, 6] + [7]] == [[0, 1, 2, 3], [4, 5, 6, 7]]
  {
    assert [4] + [5] == [4, 5];
    assert [4, 5] + [6] == [4, 5, 6];
    assert [4, 5, 6] + [7] == [4, 5, 6, 7];
  }

  /** Rank 5 joins rank 4 when both declare the same size of at least 2. */
  lemma SecondNodeStart(lws: seq<int>)
    requires |lws| >= 6 && lws[0] == lws[1] == lws[2] == lws[3] == 4 && lws[4] == lws[5] >= 2
    ensures Scan(lws, 6) == Ok([[0, 1, 2, 3], [4, 5]])
  {
    SecondNodeLists();
    SecondNodeOpens(lws);
    ExtendNode(lws, 5, [[0, 1, 2, 3]], [4]);
  }

  /** Rank 6 joins ranks 4 and 5. */
  lemma ThirdRankOfSecondNode(lws: seq<int>)
    requires |lws| >= 8 && forall j :: 0 <= j < 8 ==> lws[j] == 4
    ensures Scan(lws, 7) == Ok([[0, 1, 2, 3], [4, 5, 6]])
  {
    SecondNodeLists();
    SecondNodeStart(lws);
    ExtendNode(lws, 6, [[0, 1, 2, 3]], [4, 5]);
  }

  /** 8 processes declaring 4: nodes 0-3 and 4-7. */
  lemma EightProcessesFourPerNode()
    ensures Scan([4, 4, 4, 4, 4, 4, 4, 4], 8) == Ok([[0, 1, 2, 3], [4, 5, 6, 7]])
  {
    var lws := [4, 4, 4, 4, 4, 4, 4, 4];
    SecondNodeLists();
    ThirdRankOfSecondNode(lws);
    ExtendNode(lws, 7, [[0, 1, 2, 3]], [4, 5, 6]);
  }

  /** 8 ranks with 4 per node give the slots {0,4}, {1,5}, {2,6}, {3,7}. */
  lemma EightRanksFourSlots()
    ensures Slots(8, 4) == [[0, 4], [1, 5], [2, 6], [3, 7]]
  {
    assert SlotRanks(0, 8, 4) == [0, 4];
    assert SlotRanks(1, 8, 4) == [1, 5];
    assert SlotRanks(2, 8, 4) == [2, 6];
    assert SlotRanks(3, 8, 4) == [3, 7];
  }

  /** Nodes of 4 and 2 processes: two nodes, and the sizes are not uniform. */
  lemma FourThenTwo()
    ensures Scan([4, 4, 4, 4, 2, 2], 6) == Ok([[0, 1, 2, 3], [4, 5]])
    ensures Min([4, 4, 4, 4, 2, 2]) != Max([4, 4, 4, 4, 2, 2])
  {
    var lws := [4, 4, 4, 4, 2, 2];
    SecondNodeStart(lws);
    MinMaxUniform(lws);
    assert lws[4] != lws[0];
  }

  /** A rank inside a node that declares another size fails the assertion on that rank. */
  lemma MismatchInsideNode()
    ensures Scan([4, 4, 2, 2], 4) == Err(2)
  {
    var lws := [4, 4, 2, 2];
    FirstNodeLists();
    ScanExtendStep(lws, 1, [[0]]);
    assert MismatchAt(lws, 2);
    ScanErrIffMismatch(lws, 4, 2);
  }

  /** The last node's size is never checked: two processes that each declare 4 form one node. */
  lemma LastNodeUnchecked()
    ensures Scan([4, 4], 2) == Ok([[0, 1]])
  {
    FirstNodeLists();
    ScanExtendStep([4, 4], 1, [[0]]);
  }
}
