# Process-group topology of `parallel.py`

A Dafny model of how `distributed_init` in `parallel.py` sets up one process of a
distributed job:

- **Launcher environment** (`launcher.dfy`, `decimal.dfy`). `os.environ` is an `Environ`
  object holding a `map<string, string>`. The guard of line 72 decides whether
  `_setup_dist_env_from_launcher` runs. That setup fills in `MASTER_ADDR` and `MASTER_PORT`
  where they are absent. It also lists the missing required variables. `LOCAL_RANK` and
  `LOCAL_WORLD_SIZE` are then read with `int(...)`, which can raise `KeyError` or `ValueError`.
- **Node lists** (`topology.dfy`). The loop of lines 91-97 cuts the ranks `0 .. N-1` into
  nodes, using the all-gathered local world sizes. `Scan` is its specification and
  `BuildNodeRanks` the loop itself. `Blocks` and `Sized` characterise a correct cut.
  The lemmas prove that the loop fails exactly at the first rank that continues an unfilled
  node while declaring a size different from the rank before it (`MismatchAt`). A change of
  size at a node boundary, as in `FourThenTwo`, is accepted. When every declared size is
  positive, they also prove that the loop otherwise yields exactly that cut.
- **Slot groups** (`topology.dfy`). These are the lists `range(i, N, W)` that lines 105-107
  create when `min == max`. For W >= 1 they partition the ranks; for W <= 0 there are none.
  With uniform sizes, slot `i` holds the member at position `i` of every node that has one.
- **Registry** (`registry.dfy`). The module globals `_LOCAL_RANK`, `_LOCAL_WORLD_SIZE`,
  `_INTRA_NODE_PROCESS_GROUP` and `_INTER_NODE_PROCESS_GROUP` are the fields of a
  `ProcessGroups` object. Its four getters and `distributed_init` are its methods.
  `DistributedInit` states what it does in terms of the heap-free `InitOutcome`:
  - the error raised, if any;
  - the `dist.new_group` calls made, in order;
  - the new value of each global.

The collective operations become parameters:
- `rank` is `dist.get_rank()`.
- `lws` is the gathered list of local world sizes, and `|lws|` is `dist.get_world_size()`.
- A group handle is the list of ranks passed to `dist.new_group`.

An `assert` that fails in the source becomes an `InitError` value in the model.

The model follows the code as written, including where the code may surprise a reader:
- The size of the last node is never checked against the size its members declared.
  `Topology.LastNodeUnchecked` shows two processes declaring 4 forming one node of 2.
- `get_local_rank()` and `get_local_world_size()` return -1 before initialisation; they do not fail.
- `get_inter_node_process_group()` checks only the intra-node group. After an initialisation
  with differing sizes it returns `None`; it does not fail.
- The slot groups are built from `range(i, N, W)`, with `W` the calling process's own
  `LOCAL_WORLD_SIZE`, and not from the node lists. `Topology.SlotsFollowNodes` proves the two
  agree when every rank declares the same size.

## Model

| member | source | states |
|---|---|---|
| Topology.Scan | parallel.py:91-97 | The node lists after ranks 0 .. n-1. A successful result has at least one node and a non-empty last node. A failure names a rank i with 1 <= i < n. |
| Topology.BuildNodeRanks | parallel.py:91-97 | The loop computes Scan. On success the nodes form a cut of 0 .. N-1 whose flattening is [0, ..., N-1]. With positive sizes, every node but the last has its declared size and all members of a node declare the same size. A failure is a mismatch at the returned rank. |
| Topology.ScanBlocks | parallel.py:91-97 | Every accepted prefix is a cut: non-empty runs of consecutive ranks, the first starting at 0, each next starting where the previous ended, the last ending at n. |
| Topology.ScanSized | parallel.py:92-97 | With positive sizes the nodes meet the size rules the loop enforces. All members of a node declare one size. Every closed node has that size. The last node has at most that size. |
| Topology.ScanComplete | parallel.py:91-97 | Any cut that meets those size rules is the one the loop returns. |
| Topology.ScanSucceedsIffLayoutExists | parallel.py:91-97 | With positive sizes the loop succeeds exactly when such a cut exists, and then returns that cut, which is unique. |
| Topology.ScanErrIffMismatch | parallel.py:93-96 | The loop fails at rank i exactly when rank i continues an unfilled node and declares a size different from rank i-1's. |
| Topology.ScanErrPersists | parallel.py:96 | Once the assertion has fired, later ranks do not change the outcome. |
| Topology.BlocksFlatten | parallel.py:91-97 | The nodes of a cut, concatenated, are the ranks 0 .. n-1 in order. |
| Topology.BlocksMembership | parallel.py:91-100 | Every rank of 0 .. n-1 lies in exactly one node, the one `if rank in ranks` finds first. No other integer lies in any node. |
| Topology.IndexOfNode | parallel.py:98-100 | The search for the node holding a rank returns the first node containing it, or the node count when none does. |
| Topology.BoundaryRule | parallel.py:93-94 | With positive sizes, rank i lies in another node than rank i-1 exactly when rank i-1's node already held as many ranks as rank i-1 declared. |
| Topology.MinMaxUniform | parallel.py:105 | `min(lws) == max(lws)` holds exactly when every rank declares the same size. |
| Topology.Min | parallel.py:105 | `min` returns an element no greater than any other. |
| Topology.Max | parallel.py:105 | `max` returns an element no less than any other. |
| Topology.UniformNodes | parallel.py:91-97 | With every rank declaring w >= 1, the loop succeeds and node k starts at k * w. Every node but the last has w ranks and the last has 1 .. w. When w divides N there are N / w full nodes. |
| Topology.SlotRanks | parallel.py:107 | `range(i, n, w)`: its j-th element is i + j * w, all elements lie below n, and it stops at the first step reaching n. |
| Topology.Slots | parallel.py:106-107 | One slot per i in 0 .. w-1, slot i being `range(i, n, w)`. There are none when w <= 0. |
| Topology.SlotsPartition | parallel.py:106-107 | Rank x of 0 .. n-1 is in slot x % w. A member of any slot i is a rank of 0 .. n-1 with x % w == i. So the slots are disjoint and cover the ranks. |
| Topology.UniformSlotSizes | parallel.py:105-107 | With every rank declaring w and w dividing N, there are w slot groups and each holds N / w ranks, as many as there are nodes. |
| Topology.SlotsFollowNodes | parallel.py:105-107 | With uniform size w, the j-th member of slot i is the rank at position i of node j. Every node that has a position i contributes to slot i. |
| Topology.SingleProcess | parallel.py:91-107 | A world of one process gives the node list [[0]] and, declaring 1, the slot list [[0]]. |
| Topology.FirstNodeOfFour | parallel.py:91-97 | Four ranks declaring 4 form the node [0, 1, 2, 3]. |
| Topology.EightProcessesFourPerNode | parallel.py:91-97 | Eight processes declaring 4 give the nodes [0..3] and [4..7]. |
| Topology.EightRanksFourSlots | parallel.py:106-107 | Eight ranks with 4 per node give the slots [0, 4], [1, 5], [2, 6], [3, 7]. |
| Topology.FourThenTwo | parallel.py:91-105 | Sizes 4, 4, 4, 4, 2, 2 give the nodes [0..3] and [4, 5], and the sizes are not uniform. |
| Topology.MismatchInsideNode | parallel.py:96 | Sizes 4, 4, 2, 2 fail the assertion at rank 2. |
| Topology.LastNodeUnchecked | parallel.py:91-97 | Two processes declaring 4 form one node [0, 1]: the last node's size is never checked. |
| Launcher.MissingVars | parallel.py:52-53 | The missing list holds exactly the listed names absent from the environment, in their listed order. |
| Launcher.LauncherSetupNeeded | parallel.py:72 | The guard holds exactly when one of RANK, WORLD_SIZE, MASTER_PORT, MASTER_ADDR is absent. |
| Launcher.WithLauncherDefaults | parallel.py:39-45 | The keys after the defaults are the old keys plus MASTER_ADDR and MASTER_PORT. Every existing value is kept. An absent MASTER_ADDR becomes "127.0.0.1" and an absent MASTER_PORT becomes `str(master_port)`. |
| Launcher.ReadIntVar | parallel.py:81-82 | `int(os.environ[key])` succeeds exactly when the key is present and its text is a numeral, with the numeral's value. Otherwise it raises KeyError for an absent key and ValueError for a present one. |
| Launcher.WithLauncherDefaultsIdempotent | parallel.py:39-45 | Applying the defaults a second time, with any port, changes nothing. |
| Launcher.DefaultsLeaveOnlyRankVars | parallel.py:39-45 | After the defaults (so when the guard of line 72 is next evaluated), the only rendezvous variables that can be missing are RANK and WORLD_SIZE. |
| Launcher.MissingVarsAppend | parallel.py:53 | The missing list of a concatenation is the concatenation of the missing lists. |
| Launcher.DefaultsKeepRequired | parallel.py:39-53 | The defaults change neither the missing required variables nor what LOCAL_RANK and LOCAL_WORLD_SIZE read as. |
| Launcher.SetupGuardRedundant | parallel.py:72 | When the guard does not call the setup, the defaults of lines 39-45 would have changed nothing. |
| Launcher.DefaultPortReadsBack | parallel.py:45 | A defaulted MASTER_PORT reads back with `int` as the port it was written from. |
| Launcher.Environ.SetupFromLauncher | parallel.py:31-56 | The environment becomes the defaulted one. The reported list is the required variables missing from it, in order. |
| Launcher.Environ.PrepareRendezvous | parallel.py:72-74 | Whether or not the setup runs, the environment ends up defaulted with MASTER_ADDR and MASTER_PORT present. LOCAL_RANK and LOCAL_WORLD_SIZE read as before. A missing-list report is made only when the setup runs. |
| Decimal.NatToString | parallel.py:45 | `str(n)` of a natural number is a non-empty digit string without a leading zero. |
| Decimal.IntToString | parallel.py:45 | `str(n)` is non-empty and starts with '-' exactly when n is negative. |
| Decimal.ParseInt | parallel.py:81-82 | `int(s)` on every text: a non-empty digit string reads as its decimal value, and a sign followed by digits reads as that value, negated for '-' (so "+3" is 3 and "-03" is -3). Everything else is refused: the empty text, a lone non-digit, and any text with a non-digit after its first character. Its round trip with `str` is ParseIntRoundTrip. |
| Decimal.ParseIntRoundTrip | parallel.py:45 | `int(str(n)) == n` for every integer n, so a defaulted MASTER_PORT reads back as the port. |
| Decimal.ParseIntRejects | parallel.py:81-82 | `int` refuses the empty string, a lone "-" and "4a". |
| Registry.NewGroupCalls | parallel.py:98-107 | The `dist.new_group` calls once the node lists exist. None after a size mismatch. Otherwise the node groups come first, in node order, and every group names only ranks of 0 .. N-1. Placement of each rank is NewGroupCallsPlaceEachRank. |
| Registry.NewGroupCallsPlaceEachRank | parallel.py:98-107 | Among the node groups created, a rank is in exactly the one the search finds. With uniform size w, the w slot groups follow and a rank is in exactly slot x % w. With non-uniform sizes only the node groups are created. |
| Registry.GroupCallsSameOnEveryRank | parallel.py:98-107 | Two processes that gathered the same sizes and initialise for the first time make the same group calls in the same order, whatever their ranks. |
| Registry.UniformSlots | parallel.py:105-111 | With uniform sizes, the slot calls made with the process's own size are those made with rank 0's size. The slot kept contains the process's rank exactly when rank % size is the local rank. |
| Registry.ProcessGroups.constructor | parallel.py:59-68 | At import time both sizes read -1 and both group getters (lines 114-121) fail. |
| Registry.ProcessGroups.GetLocalRank | parallel.py:63-64 | Returns the stored LOCAL_RANK global and never fails. It is -1 from the constructor until StoreLocalSizes stores the value read. |
| Registry.ProcessGroups.GetLocalWorldSize | parallel.py:67-68 | Returns the stored LOCAL_WORLD_SIZE global and never fails. It is -1 from the constructor until StoreLocalSizes stores the value read. |
| Registry.ProcessGroups.GetIntraNodeProcessGroup | parallel.py:114-116 | Returns the intra-node group exactly when it is set, and fails otherwise. |
| Registry.ProcessGroups.GetInterNodeProcessGroup | parallel.py:119-121 | Fails exactly when the intra-node group is unset. Otherwise it returns the inter-node group, possibly None. |
| Registry.ProcessGroups.AssignIntraNodeGroup | parallel.py:98-103 | On an unset registry it creates every node group in order and keeps the one holding the rank; the assertion of line 103 never fires. On a set registry it stops with the assertion of line 101 at the node holding the rank, leaving the group unchanged. |
| Registry.ProcessGroups.AssignInterNodeGroup | parallel.py:105-111 | Creates the slot groups `range(i, n, w)` for i = 0 .. w-1 in order. It keeps slot `localRank` exactly when 0 <= localRank < w, and otherwise the assertion of line 111 fires. The assertion of line 109 never fires. |
| Registry.ProcessGroups.StoreLocalSizes | parallel.py:80-82 | Stores LOCAL_RANK and then LOCAL_WORLD_SIZE. A failing read raises and leaves that global and the ones after it unchanged. |
| Registry.ProcessGroups.CreateGroups | parallel.py:91-111 | Keeps the invariant that an inter-node group exists only with an intra-node group. Produces GroupsOutcome: a size mismatch stops before any group is created; a second initialisation fails at the node holding the rank; a first one sets the node and slot groups. |
| Registry.ProcessGroups.InitFromVars | parallel.py:80-111 | Reads and stores the local sizes, then creates the groups, as InitOutcome states, keeping the invariant. |
| Registry.ProcessGroups.DistributedInit | parallel.py:71-111 | The environment ends up with the launcher defaults. The registry globals, the error raised and the group calls are as InitOutcome states for that environment. |

## Left out

- The collectives `dist.init_process_group`, `dist.all_gather_into_tensor`, `dist.new_group`,
  `dist.get_rank` and `dist.get_world_size` are not modelled. Their results are the
  parameters `rank` and `lws` and the returned list of group calls.
- `DistributedInit` requires that the gathered size at the caller's own rank is the
  LOCAL_WORLD_SIZE it read. The source gets this from the all-gather, which is not modelled.
- `fs_init.initialize_model_parallel` and `torch.cuda.set_device` (lines 77-78) are foreign calls.
- The CUDA tensors and `.tolist()` (lines 85-90) only carry integers. 64-bit `torch.long` limits on
  the gathered values are not modelled.
- The gathered `local_ranks` (line 88) is never used by the source and is omitted.
- The `print` diagnostics (lines 42, 46, 49, 55-56) are not modelled. The missing list they
  report is returned instead.
- The environment reads of RANK, WORLD_SIZE, MASTER_ADDR and MASTER_PORT inside
  `dist.init_process_group` are not modelled.
- The commented-out SLURM setup (lines 12-29) is dead code.
- Concurrency between processes, hangs and aborts across the job are not modelled. Only the
  rank-independence of the group calls is stated.
- Decimal.ParseInt: accepts only an optional sign followed by ASCII digits. Python's `int` also
  allows surrounding whitespace, `_` between digits and non-ASCII digits, so for those texts
  `ReadIntVar` reports ValueError where Python would succeed.
- Launcher.ReadIntVar: inherits the narrower grammar of `Decimal.ParseInt`. A LOCAL_RANK or
  LOCAL_WORLD_SIZE of " 3" or "1_0" is a ValueError in the model, while Python reads 3 and 10.
- Every `assert` of the source (lines 96, 101, 103, 109, 111, 115 and 120) is treated as active.
  Under `python -O` they do nothing, and the `InitError` outcomes for them would not occur.
- Group handles are their rank lists, so two groups created from the same ranks are not told apart.
