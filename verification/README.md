# Verified models of the runbook's algorithm and checker examples

The repository teaches systems topics with small, self-contained models in Python and
checks its own Markdown with two scanners. This project restates the general ones in Dafny,
one module per source file or component, and proves for all inputs what the examples show
on one or two.

- **OFDM link** (`ComplexNumbers`, `Ofdm`). Direct-sum transforms, linear convolution, the
  cyclic prefix and one-tap equalisation, over exact complex numbers and any primitive
  N-th root of unity. The link is the identity exactly when the channel fits in the prefix.
- **Graphs** (`Graphs`, `Dijkstra`, `Traversal`). Dijkstra with lazy deletion, breadth-first
  search, and the stack-based depth-first search against a recursive preorder.
- **Dynamic programming** (`Coins`, `Knapsack`). The coin table against all payments, greedy
  against the table with the exact condition under which they agree, and the in-place 0/1
  knapsack against all choices of items.
- **Tiled matrix product** (`Arithmetic`, `TiledMatmul`). The blocked form with zero padding
  against the triple sum, and the shape of its trace.
- **Schedulers** (`Ordering`, `Scheduling`, `NonPreemptive`, `RunQueue`, `RoundRobin`, `SjfOptimality`).
  Timelines are sequences of ticks, each idle or given to a job. One definition of a complete
  work-conserving timeline serves every policy; optimality of SJF, and bounded waiting and the exact
  turn-taking of round robin are stated about it.
- **CPU pipeline** (`PipelineModel`). The five-stage state machine with load-use stalls
  against a closed form for every stage of every instruction.
- **Device allocation** (`Matching`, `Allocation`). The exhaustive search against a
  counting condition, and the reserve and release protocol.
- **CPU quota** (`CgroupBudget`). Round-robin sharing of one period's budget over items whose
  `used` field is updated in place, and the exact condition under which the quota is exceeded.
- **Replay pipeline** (`ReplayPipeline`). A log with a hot store and an archive, an injected
  rejection and a retention gap; validation of loaded rows, and when the order of arrival matters.
- **Search and sort** (`SearchSort`). Binary search with its trace, and stable merge sort.
- **Fence scanners** (`FenceScanners`, `LessonChecker`). Two separately written line scanners, and documents as
  sequences of prose lines and fenced blocks; the lesson checker's tables, links and findings.

`Options` holds the optional value and `Collections` the facts about sequences, sets and bags that
the modules share.

Code that updates variables or objects is modelled by methods with loops, arrays and classes;
the specification functions and predicates they are proved against stand beside them. Module
constants that a function reads, such as the scheduler's job tuple, are parameters. Ghost
out-parameters (an expansion order, a job order, a cycle count, the lines outside fences) name
what a run did so that a contract can speak of it; the source does not return them.

Preconditions are the ones the source relies on without checking: distinct job, instruction
and request names, bursts of at least 1, arrivals of at least 0, graph edges that lead to
graph keys and a start vertex among them, positive coins, item weights of at least 0, a tile
size and an inner dimension of at least 1, at least one tap and no more taps than carriers, a
prefix no longer than the carriers, and a quantum of at least 1 and no item twice in a list of
demands. The soundness and reservation results of the allocator assume distinct request names;
`Allocate` itself assumes nothing.

## Model

| member | source | states |
|---|---|---|
| `Ofdm.IdentityExactlyWithinPrefix` | learning/wireless-communications/examples/ofdm_model.py:37-43 | for every size N, prefix up to N and channel without a zero in its N-point response: the link returns every carrier vector unchanged if and only if each tap later than the prefix is zero |
| `Ofdm.LinkIsIdentity` | learning/wireless-communications/examples/ofdm_model.py:37-43 | the half the example relies on: with the channel inside the prefix and no zero response, what is received is exactly what was sent |
| `Ofdm.LateTapBreaksLink` | learning/wireless-communications/examples/ofdm_model.py:46-54 | with a nonzero tap beyond the prefix there is a carrier vector the link does not return, which is what the run without a prefix shows |
| `Ofdm.Transmit` | learning/wireless-communications/examples/ofdm_model.py:37-43 | the steps of the transmitter and receiver yield `Link`, and each received carrier times its response, summed as `taps[n] * exp(-2*pi*j*k*n/N)`, is the same sum of the useful samples; a zero in the channel response is the division error, never a value |
| `Ofdm.DftIs` | learning/wireless-communications/examples/ofdm_model.py:11-18 | bin k of the DFT is the sum of `x[n] * exp(-2*pi*j*k*n/N)`, in powers of the root alone |
| `Ofdm.ImpulseSpectrum` | learning/wireless-communications/examples/ofdm_model.py:14-14 | the direction of the DFT: a unit impulse at sample n has `exp(-2*pi*j*k*n/N)` in bin k |
| `Ofdm.CarrierSamples` | learning/wireless-communications/examples/ofdm_model.py:23-23 | the direction of the IDFT: sample n of a unit carrier k, times `exp(-2*pi*j*k*n/N)`, is 1/N |
| `Ofdm.EqualizedBySpectra` | learning/wireless-communications/examples/ofdm_model.py:42-43 | dividing by the response of the padded taps is dividing by the sum over the taps themselves, carrier by carrier |
| `Ofdm.ChannelConvolution` | learning/wireless-communications/examples/ofdm_model.py:29-34 | the array accumulated in the nested loops holds, at every output, the whole convolution sum of samples and taps |
| `Ofdm.AccumulatedStep` | learning/wireless-communications/examples/ofdm_model.py:31-33 | one inner step adds its product to the one output at `n + delay` and to no other |
| `Ofdm.DftInverts` | learning/wireless-communications/examples/ofdm_model.py:11-26 | DFT after IDFT and IDFT after DFT are both the identity on every nonempty vector |
| `Ofdm.DoubleTransform` | learning/wireless-communications/examples/ofdm_model.py:11-26 | transforming with one sign and then the other multiplies every entry by the size |
| `Ofdm.ConvolutionTheorem` | learning/wireless-communications/examples/ofdm_model.py:37-43 | the DFT of a circular convolution is the pointwise product of the two DFTs |
| `Ofdm.PrefixMakesCircular` | learning/wireless-communications/examples/ofdm_model.py:38-41 | after the prefix is dropped, linear convolution has become circular convolution with the padded taps, when no nonzero tap reaches past the prefix |
| `Ofdm.ConvolutionByTaps` | learning/wireless-communications/examples/ofdm_model.py:29-34 | summing by sample, as the loops do, equals summing by tap |
| `Ofdm.EighthRoot` | learning/wireless-communications/examples/ofdm_model.py:46-48 | the twiddle of the eight-carrier example meets the assumption made about twiddles |
| `ComplexNumbers.TwiddleSum` | learning/wireless-communications/examples/ofdm_model.py:11-26 | orthogonality: the powers of `exp(-2*pi*j*a/N)` sum to N when N divides a and to 0 otherwise |
| `ComplexNumbers.DivCancels` | learning/wireless-communications/examples/ofdm_model.py:43-43 | dividing by a nonzero response undoes multiplying by it |
| `Dijkstra.ShortestPaths` | learning/algorithms/examples/graph_dp_lab.py:35-50 | a negative weight anywhere is the error; otherwise every vertex gets its minimum path weight, infinity exactly when unreachable, and each reachable vertex is expanded exactly once, in order of distance |
| `Dijkstra.PopKeeps` | learning/algorithms/examples/graph_dp_lab.py:42-44 | a popped entry that matches the table belongs to a vertex never expanded before and no nearer than those; any other entry is stale and changes nothing |
| `Dijkstra.RelaxEdges` | learning/algorithms/examples/graph_dp_lab.py:45-49 | after the loop over its edges, every neighbour of the expanded vertex is at most one edge further than it |
| `Dijkstra.RelaxKeeps` | learning/algorithms/examples/graph_dp_lab.py:45-49 | lowering a neighbour's distance and pushing it keeps every finite distance the weight of some path and every pending vertex in the heap |
| `Dijkstra.PathsAreCovered` | learning/algorithms/examples/graph_dp_lab.py:41-50 | with an empty heap, the table is at most the weight of every path there is |
| `Dijkstra.FinalDistances` | learning/algorithms/examples/graph_dp_lab.py:41-50 | with an empty heap, table entries are minimum path weights and the expanded vertices are the reachable ones |
| `Dijkstra.HeapPop` | learning/algorithms/examples/graph_dp_lab.py:42-42 | the contract of `heappop`: an entry of least distance leaves the bag |
| `Traversal.Bfs` | learning/algorithms/examples/graph_dp_lab.py:7-18 | lists exactly the vertices reachable from the start, each once, in nondecreasing order of minimum edge count: the start, then the neighbours of each listed vertex in turn, first mentions only |
| `Traversal.BfsComplete` | learning/algorithms/examples/graph_dp_lab.py:11-18 | when the queue is empty the levels are minimum edge counts over all paths |
| `Traversal.ListNext` | learning/algorithms/examples/graph_dp_lab.py:14-17 | a neighbour joins the queue exactly when it was not mentioned before |
| `Traversal.DiscoverKeeps` | learning/algorithms/examples/graph_dp_lab.py:14-17 | a new vertex joins the back of the queue one level below the vertex being scanned, and the queue spans at most two levels |
| `Traversal.Dfs` | learning/algorithms/examples/graph_dp_lab.py:21-32 | the stack loop that marks on pop and pushes neighbours reversed yields exactly the recursive preorder in adjacency order, on cyclic graphs too |
| `Traversal.PopUnfolds` | learning/algorithms/examples/graph_dp_lab.py:26-31 | popping an unvisited vertex and pushing its neighbours backwards continues that preorder |
| `Traversal.PreorderSplits` | learning/algorithms/examples/graph_dp_lab.py:21-32 | visiting a list is visiting its front and then its back with everything found so far marked |
| `Traversal.PreorderIsReachableSet` | learning/algorithms/examples/graph_dp_lab.py:21-32 | the preorder starts at the start and lists exactly the reachable vertices, each once |
| `Traversal.PreorderCloses` | learning/algorithms/examples/graph_dp_lab.py:25-32 | after a traversal every neighbour of a new vertex is seen or new |
| `Coins.MinCoinTable` | learning/algorithms/examples/graph_dp_lab.py:53-59 | each entry is the fewest coins that pay its amount, and `amount + 1` exactly when no coins pay it |
| `Coins.StepIsEntry` | learning/algorithms/examples/graph_dp_lab.py:55-58 | the minimum over `1 + dp[value - coin]` is the true minimum when the smaller entries are |
| `Coins.GreedyCoinCount` | learning/algorithms/examples/graph_dp_lab.py:62-67 | the loop over the coins sorted downwards counts what `Greedy` takes |
| `Coins.GreedyPays` | learning/algorithms/examples/graph_dp_lab.py:62-67 | the coins greedy takes are a payment of the amount less its remainder, with that many coins |
| `Coins.GreedyAtLeastTable` | learning/algorithms/examples/graph_dp_lab.py:53-67 | with 1 among the coins the table holds the true minimum and greedy never beats it |
| `Coins.GreedyEqualsTableOnChains` | learning/algorithms/examples/graph_dp_lab.py:53-67 | when each coin divides the next larger one, greedy and the table agree on every payable amount |
| `Coins.ChainGreedy` | learning/algorithms/examples/graph_dp_lab.py:62-67 | on such a chain no payment at all uses fewer coins than greedy, and greedy leaves nothing over |
| `Coins.OneMakesPayable` | learning/algorithms/examples/graph_dp_lab.py:53-67 | with 1 among the coins every amount is payable, so the two results above cover every amount |
| `Coins.GreedyOptimalExactly` | learning/algorithms/examples/graph_dp_lab.py:53-67 | for any coins, greedy agrees with the table on every payable amount and leaves nothing over if and only if it does so on the amounts below the sum of the two largest coins (below the largest when there is one) |
| `Coins.BestBeyond` | learning/algorithms/examples/graph_dp_lab.py:53-67 | past that window, an amount whose smaller amounts greedy pays best is itself paid best: no payment has fewer coins |
| `Coins.GreedyCanLose` | learning/algorithms/examples/graph_dp_lab.py:98-99 | the condition can fail: for the coins 1, 3, 4 greedy counts three coins at 6 and the table entry is two |
| `Coins.SortOrders` | learning/algorithms/examples/graph_dp_lab.py:64-64 | the sorted list descends and has the same coins |
| `Knapsack.Knapsack01` | learning/algorithms/examples/graph_dp_lab.py:70-75 | the in-place descending table gives the largest value of any choice of items, each at most once, within the capacity |
| `Knapsack.OneMoreItem` | learning/algorithms/examples/graph_dp_lab.py:73-74 | taking the better of leaving an item and adding it beside the best that fits is again best over all choices |
| `TiledMatmul.Tiled` | learning/gpu-programming/examples/tiled_matmul_model.py:18-46 | for every shape and tile size the result is the triple-sum product, and the trace has exactly ceil(rows/t)*ceil(cols/t)*ceil(inner/t) phases, each with its bases and its two zero-filled tiles |
| `TiledMatmul.ReferenceMatmul` | learning/gpu-programming/examples/tiled_matmul_model.py:8-15 | the reference loops compute the triple-sum product |
| `TiledMatmul.RunPhases` | learning/gpu-programming/examples/tiled_matmul_model.py:24-40 | the phases of one output tile accumulate its whole inner products and are recorded in order |
| `TiledMatmul.LoadTiles` | learning/gpu-programming/examples/tiled_matmul_model.py:26-35 | both tiles hold the matrix entries inside the edges and zero beyond them |
| `TiledMatmul.MultiplyTiles` | learning/gpu-programming/examples/tiled_matmul_model.py:36-39 | one phase extends every accumulated partial sum by the tile's width of the inner dimension |
| `TiledMatmul.StoreTile` | learning/gpu-programming/examples/tiled_matmul_model.py:41-45 | exactly the part of the tile inside the matrix is stored, and earlier tiles stay |
| `TiledMatmul.DotPadded` | learning/gpu-programming/examples/tiled_matmul_model.py:31-39 | inner products may run past the inner dimension: zero filling adds nothing |
| `TiledMatmul.CeilRounds` | learning/gpu-programming/examples/tiled_matmul_model.py:22-25 | a loop over `range(0, n, t)` makes exactly ceil(n/t) rounds |
| `TiledMatmul.PhaseIndex` | learning/gpu-programming/examples/tiled_matmul_model.py:22-40 | the position in the trace determines the tile and phase, rows outermost and the inner dimension innermost |
| `Scheduling.SameIdleTicks` | learning/operating-systems/examples/scheduler.py:36-84 | any two policies' complete work-conserving timelines of the same jobs idle at the same ticks and end together |
| `Scheduling.IdleExactlyWhenCaughtUp` | learning/operating-systems/examples/scheduler.py:41-45 | a tick is idle exactly when all work that has arrived is done |
| `Scheduling.ConservingIsLegal` | learning/operating-systems/examples/scheduler.py:36-84 | in a work-conserving timeline no job runs before arrival or beyond its burst, and the busy ticks are exactly the service received |
| `NonPreemptive.Schedule` | learning/operating-systems/examples/scheduler.py:36-50 | for any key: a complete work-conserving timeline that runs the jobs one whole burst after another, and never starts a job while an arrived unstarted one has a smaller key |
| `NonPreemptive.RunKeeps` | learning/operating-systems/examples/scheduler.py:46-49 | running the least ready job for its burst keeps the timeline work-conserving and key-ordered |
| `NonPreemptive.IdleKeeps` | learning/operating-systems/examples/scheduler.py:42-45 | with nothing ready, one idle tick is allowed and ends before the latest arrival |
| `NonPreemptive.MinBy` | learning/operating-systems/examples/scheduler.py:46-46 | `min` with a key returns a member that no other member beats |
| `RoundRobin.Schedule` | learning/operating-systems/examples/scheduler.py:53-84 | a quantum of 0 or less is the error; otherwise the timeline is complete and work-conserving, and from any moment at which a job has arrived and is unfinished its next tick comes within (n-1)*quantum; every slice lasts a quantum or what the job still needs and goes to the job longest in line |
| `RunQueue.TurnsUnique` | learning/operating-systems/examples/scheduler.py:53-84 | these properties fix the timeline: a job set and a quantum have exactly one round-robin schedule |
| `RunQueue.GoesToBack` | learning/operating-systems/examples/scheduler.py:79-81 | the job whose slice ends queues behind everyone, even those who arrive at that moment |
| `RunQueue.HeadIsLongest` | learning/operating-systems/examples/scheduler.py:70-70 | the head of the queue is the arrived unfinished job longest in line |
| `RunQueue.JoinLine` | learning/operating-systems/examples/scheduler.py:62-65 | arrivals queue in list order behind all who joined before |
| `RoundRobin.Turn` | learning/operating-systems/examples/scheduler.py:70-83 | one slice and the requeue or removal after it keep the remaining times, the queue in order of joining and every job's waiting bound |
| `RoundRobin.RunSlice` | learning/operating-systems/examples/scheduler.py:71-78 | the ticks of a slice, with admissions after each, queue newcomers behind the others |
| `RoundRobin.SliceEnds` | learning/operating-systems/examples/scheduler.py:79-83 | after a slice an unfinished job goes to the back and a finished one leaves the remaining times, and every wait is again a quantum per position |
| `RoundRobin.Admit` | learning/operating-systems/examples/scheduler.py:62-65 | the admission loop appends exactly the arrived jobs not admitted before, in list order, once |
| `RoundRobin.AdmitKeeps` | learning/operating-systems/examples/scheduler.py:62-65 | admission makes the queue exactly the arrived unfinished jobs, once each |
| `SjfOptimality.SjfIsOptimal` | learning/operating-systems/examples/scheduler.py:36-50 | when all jobs arrive at 0, the SJF timeline has the least total turnaround and waiting of every timeline that gives each job its burst, preemptive and idling ones included |
| `SjfOptimality.SjfOrderExactly` | learning/operating-systems/examples/scheduler.py:89-89 | of two jobs that have arrived, SJF serves the smaller burst first, of equal bursts the earlier arrival, and of equal arrivals the smaller name, and the key asks for no more |
| `SjfOptimality.FcfsOrderExactly` | learning/operating-systems/examples/scheduler.py:88-88 | the FCFS key serves all jobs by arrival, and by name where arrivals are equal |
| `SjfOptimality.SwapNeighbours` | learning/operating-systems/examples/scheduler.py:46-48 | exchange: putting the shorter of two neighbours first saves exactly their difference |
| `SjfOptimality.ShortestFirstCheapest` | learning/operating-systems/examples/scheduler.py:36-50 | no permutation of a shortest-first order has a smaller sum of finish times |
| `SjfOptimality.TimelineCostsAnOrder` | learning/operating-systems/examples/scheduler.py:20-33 | every timeline's finish times sum to at least the cost of running the jobs whole in their order of finishing |
| `SjfOptimality.LayCosts` | learning/operating-systems/examples/scheduler.py:47-48 | in a nonpreemptive timeline the finish times add up to the cost of its order |
| `SjfOptimality.Summarize` | learning/operating-systems/examples/scheduler.py:20-33 | turnaround, waiting and response of every job are those of its last tick and of its first tick |
| `PipelineModel.Simulate` | learning/computer-architecture/examples/pipeline_model.py:17-43 | every instruction's cycles in all five stages, the bubble cycles, and n + 4 cycles plus one per load-use pair; said of the timeline itself: no instruction is in EX before the loads it uses have left MEM, each enters EX one cycle after the one before it, two after a load it uses, and the bubbles are exactly the cycles before the latter |
| `PipelineModel.LoadsArriveInTime` | learning/computer-architecture/examples/pipeline_model.py:29-32 | whatever register of any later instruction a load fills, it is filled before that instruction is in EX |
| `PipelineModel.InstructionsIssueOnTime` | learning/computer-architecture/examples/pipeline_model.py:29-41 | no instruction waits for anything but a load directly before it, and for that one cycle |
| `PipelineModel.BubblesPrecedeUses` | learning/computer-architecture/examples/pipeline_model.py:33-36 | a cycle is a bubble if and only if the next one is the EX of an instruction that uses the load before it |
| `PipelineModel.AdvanceAgrees` | learning/computer-architecture/examples/pipeline_model.py:29-41 | one cycle of the loop keeps every stage holding the instruction the closed form puts there |
| `PipelineModel.StallsExactly` | learning/computer-architecture/examples/pipeline_model.py:29-32 | the stall test succeeds exactly in the first ID cycle of an instruction that follows a load it uses |
| `PipelineModel.HolderIs` | learning/computer-architecture/examples/pipeline_model.py:26-41 | at each cycle, which instruction the closed form puts in IF, ID, EX, MEM and WB |
| `PipelineModel.BubbleCount` | learning/computer-architecture/examples/pipeline_model.py:34-36 | there is exactly one bubble per load-use pair |
| `PipelineModel.EnterGrows` | learning/computer-architecture/examples/pipeline_model.py:29-41 | successive instructions enter ID one cycle apart, two after a load-use pair |
| `PipelineModel.CycleKeeps` | learning/computer-architecture/examples/pipeline_model.py:33-42 | stalling keeps the fetch position and records the next cycle as a bubble; advancing fetches the next instruction |
| `PipelineModel.Record` | learning/computer-architecture/examples/pipeline_model.py:26-28 | each occupied stage appends the cycle to its instruction's list for that stage, and no other list changes |
| `PipelineModel.PipelineDrained` | learning/computer-architecture/examples/pipeline_model.py:25-25 | when all stages are empty, the last instruction has left WB |
| `Allocation.Allocate` | learning/gpu-operator-dra/examples/allocation_model.py:20-32 | None exactly when no node has an injective, unreserved, memory-sufficient choice; otherwise the least such node, in the order of names spelled out below, with its lexicographically first choice |
| `Allocation.AnswerIsSound` | learning/gpu-operator-dra/examples/allocation_model.py:20-32 | every request gets a device of its own, of that node, unreserved and large enough, and no other name gets one |
| `Allocation.AnswerUnique` | learning/gpu-operator-dra/examples/allocation_model.py:20-32 | the description of the answer fixes it: there is only one |
| `Allocation.FeasibleExactly` | learning/gpu-operator-dra/examples/allocation_model.py:22-31 | a node is feasible if and only if its free memories, sorted, dominate the sorted requests position by position |
| `Matching.ServableSorted` | learning/gpu-operator-dra/examples/allocation_model.py:26-30 | demands can be matched to distinct supplies if and only if the sorted supplies dominate the sorted demands |
| `Matching.ServableExactly` | learning/gpu-operator-dra/examples/allocation_model.py:26-30 | demands can be matched if and only if for every threshold there are at least as many supplies of at least that size as demands |
| `Allocation.PermutationsAre` | learning/gpu-operator-dra/examples/allocation_model.py:26-26 | the enumeration holds exactly the injective position choices |
| `Allocation.ExtensionsOrdered` | learning/gpu-operator-dra/examples/allocation_model.py:26-26 | the enumeration is in lexicographic order, without repetition |
| `Allocation.FirstFit` | learning/gpu-operator-dra/examples/allocation_model.py:26-31 | the first permutation that passes the test is the lexicographically least that serves, and none passing means none serves |
| `Allocation.Sorted` | learning/gpu-operator-dra/examples/allocation_model.py:21-21 | the node names in increasing order, each once |
| `Ordering.StringLessExactly` | learning/gpu-operator-dra/examples/allocation_model.py:21-21 | the order of names: one precedes another if and only if it is a proper beginning of it or has the smaller character where they first differ |
| `Ordering.StringLessWritten` | learning/gpu-operator-dra/examples/allocation_model.py:21-21 | names that share a beginning are ordered by the next character, and a beginning precedes whatever continues it |
| `Allocation.AvailableInOrder` | learning/gpu-operator-dra/examples/allocation_model.py:22-25 | the available devices of two lists are those of the one and then those of the other |
| `Allocation.AvailableOne` | learning/gpu-operator-dra/examples/allocation_model.py:22-25 | a device alone is available if and only if it is of that node and not reserved |
| `Allocation.TupleLessWritten` | learning/gpu-operator-dra/examples/allocation_model.py:26-26 | choices that share a beginning are tried in the order of their next position |
| `Allocation.ZipAt` | learning/gpu-operator-dra/examples/allocation_model.py:31-31 | a request's name gets the device chosen for it, and of equal names the last one's |
| `Allocation.ReserveAndRelease` | learning/gpu-operator-dra/examples/allocation_model.py:51-68 | reserving the chosen names and releasing them restores the reserved set and gives the same answer; while they are reserved, no answer uses any of them |
| `CgroupBudget.RunPeriod` | learning/ubuntu-linux-internals/examples/cgroup_budget.py:17-42 | with nobody charged beyond demand, a period grants exactly min(budget, outstanding demand) in total and nothing is handed back; in general the grants use up the budget or satisfy every want, no item gets more than it wants or more than a quantum above an item left wanting, the grants are those of whole rounds in list order plus one partial round, the trace is the turns in list order, round by round, each with its own use, its budgets telescope and account for every name's time; and more than the quota is granted if and only if there is demand for more and the budget lasts until the first turn of an item charged beyond its demand |
| `CgroupBudget.FirstPassEnds` | learning/ubuntu-linux-internals/examples/cgroup_budget.py:23-33 | after the first round, time was handed back if and only if the budget lasted until some overcharged item's first turn |
| `CgroupBudget.OverQuota` | learning/ubuntu-linux-internals/examples/cgroup_budget.py:21-35 | the grants, leaving out what is handed back, exceed the budget exactly under that condition |
| `CgroupBudget.QuotaCanBeExceeded` | learning/ubuntu-linux-internals/examples/cgroup_budget.py:24-33 | the condition can hold: quota 3, quantum 5, an item 5 over its demand ahead of one that wants 10 |
| `CgroupBudget.SharesUnique` | learning/ubuntu-linux-internals/examples/cgroup_budget.py:21-35 | with nobody charged beyond demand, the total fixes the grants: turns of one quantum share it in one way only |
| `CgroupBudget.Round` | learning/ubuntu-linux-internals/examples/cgroup_budget.py:23-33 | one turn around the items raises everyone to the next level or spends the budget, settles overcharged items in the first round, and reports progress exactly |
| `CgroupBudget.Turn` | learning/ubuntu-linux-internals/examples/cgroup_budget.py:24-33 | an item takes the least of quantum, want and budget, which is negative for an overcharged one, and no other item changes |
| `CgroupBudget.TurnRises` | learning/ubuntu-linux-internals/examples/cgroup_budget.py:26-31 | such a turn keeps all grants within one quantum of a common level |
| `CgroupBudget.NearLevelIsFair` | learning/ubuntu-linux-internals/examples/cgroup_budget.py:21-35 | grants within a quantum of a common level are max-min fair up to one quantum |
| `CgroupBudget.UsualTotal` | learning/ubuntu-linux-internals/examples/cgroup_budget.py:21-35 | grants that use up the budget or satisfy every want total min(budget, wants) |
| `CgroupBudget.StepAccounts` | learning/ubuntu-linux-internals/examples/cgroup_budget.py:30-33 | a trace step accounts for exactly the time its item was charged, also when names repeat |
| `CgroupBudget.TurnInOrder` | learning/ubuntu-linux-internals/examples/cgroup_budget.py:24-33 | an item's step uses what its turn allows given the rounds before, and stands behind the steps of all earlier items and rounds |
| `CgroupBudget.TotalRemaining` | learning/ubuntu-linux-internals/examples/cgroup_budget.py:36-36 | the remaining demand is the sum of what the items still want |
| `ReplayPipeline.Simulate` | kubernetes/observability/data-pipelines/examples/replay_demo.py:51-112 | a corpus that does not validate is rejected with its first fault, an unknown scenario is the other error, and otherwise the report is that of the validated rows: said of the loaded fields, it counts the distinct event ids and names each run id with the `state` field of its last, or first newest, row |
| `ReplayPipeline.Replay` | kubernetes/observability/data-pipelines/examples/replay_demo.py:55-112 | outage: archive equals the source in order with each offset once, one hot document per event id equal to its row, status complete; retention gap: archive cursor 0 and missing offsets exactly 0 to min(3, n)-1; and every counter of the report |
| `ReplayPipeline.Validate` | kubernetes/observability/data-pipelines/examples/replay_demo.py:29-48 | a corpus is valid if and only if it is not empty, every row passes on its own, and no two different loaded rows have the same `event_id` field; otherwise the reported fault is that of the first row at which this breaks, and the first check it fails there |
| `ReplayPipeline.CheckRow` | kubernetes/observability/data-pipelines/examples/replay_demo.py:34-44 | the checks on one row, in their order: fields, text, numbers, time |
| `ReplayPipeline.FaultIs` | kubernetes/observability/data-pipelines/examples/replay_demo.py:34-44 | which fault a loaded row has, field by field: exactly the six fields, four of nonempty text, two of integers of at least 0, then a time that parses, then its timezone |
| `ReplayPipeline.GoodExactly` | kubernetes/observability/data-pipelines/examples/replay_demo.py:45-47 | a corpus of rows that pass is refused if and only if two loaded rows with the same `event_id` field differ |
| `ReplayPipeline.FieldsReported` | kubernetes/observability/data-pipelines/examples/replay_demo.py:81-112 | what the report says in terms of the loaded fields: distinct event ids in all and at the archive's pause, and the states of every run id |
| `ReplayPipeline.RowsDetermined` | kubernetes/observability/data-pipelines/examples/replay_demo.py:46-46 | two rows that pass have equal contents exactly when they are the same dictionary, so comparing one is comparing the other |
| `ReplayPipeline.Ingest` | kubernetes/observability/data-pipelines/examples/replay_demo.py:61-75 | after the arrival loop both sinks hold exactly what their cursors say, despite the one injected rejection, which happens if and only if there are at least four rows |
| `ReplayPipeline.DrainHot` | kubernetes/observability/data-pipelines/examples/replay_demo.py:63-69 | the hot cursor stops at offset 3 once without advancing, and otherwise reaches the end of the log |
| `ReplayPipeline.DrainRest` | kubernetes/observability/data-pipelines/examples/replay_demo.py:76-79 | the hot store catches up with the whole log |
| `ReplayPipeline.DrainArchive` | kubernetes/observability/data-pipelines/examples/replay_demo.py:83-85 | the archive appends the missing rows with their offsets and nothing else |
| `ReplayPipeline.StoreNext` | kubernetes/observability/data-pipelines/examples/replay_demo.py:68-68 | storing a row, new or a repeat, keeps one document per event id |
| `ReplayPipeline.BusinessStates` | kubernetes/observability/data-pipelines/examples/replay_demo.py:86-91 | the arrival state is that of a run's last row; the sequence state that of the first row with its largest sequence number |
| `ReplayPipeline.NewestNext` | kubernetes/observability/data-pipelines/examples/replay_demo.py:89-91 | the strict comparison keeps the earliest of equally new rows |
| `ReplayPipeline.SequenceOrderFreeExactly` | kubernetes/observability/data-pipelines/examples/replay_demo.py:89-91 | the sequence states are the same for every order of the rows if and only if the rows with each run's largest sequence number carry one state |
| `ReplayPipeline.ArrivesFirst` | kubernetes/observability/data-pipelines/examples/replay_demo.py:89-91 | any row with its run's largest sequence number decides the run's sequence state in some order: the one in which it comes first |
| `ReplayPipeline.ArrivalOrderFreeExactly` | kubernetes/observability/data-pipelines/examples/replay_demo.py:88-88 | the naive arrival states are the same for every order of the rows if and only if all rows of each run carry one state |
| `ReplayPipeline.ArrivesLast` | kubernetes/observability/data-pipelines/examples/replay_demo.py:88-88 | any row decides its run's arrival state in some order: the one in which it comes last |
| `SearchSort.MergeSort` | learning/algorithms/examples/search_sort_lab.py:40-44 | the output ascends and, for every key, the records with that key are those of the input in the input's order |
| `SearchSort.StableMerge` | learning/algorithms/examples/search_sort_lab.py:24-37 | nothing is lost or added, and two sorted lists merge stably, left before right |
| `SearchSort.TakeLeft` | learning/algorithms/examples/search_sort_lab.py:29-31 | taking the left record on equal keys keeps the merge stable |
| `SearchSort.MergeEnds` | learning/algorithms/examples/search_sort_lab.py:35-36 | appending both leftovers completes the stable merge |
| `SearchSort.StableIsPermutation` | learning/algorithms/examples/search_sort_lab.py:40-44 | a stable sort is a permutation |
| `SearchSort.StableSortUnique` | learning/algorithms/examples/search_sort_lab.py:40-44 | there is only one stable sort of an input |
| `SearchSort.BinarySearch` | learning/algorithms/examples/search_sort_lab.py:8-21 | on ascending keys the target is found if and only if it is there; the trace halves the bounds at each probe until it ends at the target or with nothing left, in at most floor(log2 n) + 1 probes |
| `SearchSort.NextProbe` | learning/algorithms/examples/search_sort_lab.py:12-20 | each probe is the middle of its bounds and the next bounds are the half the comparison leaves |
| `FenceScanners.ProseLines` | learning/validate_docs.py:32-44 | yields exactly the numbered prose lines of the document the lines form |
| `LessonChecker.Check` | ai/learning/ai-infrastructure/examples/check_lessons.py:23-86 | treats exactly the same lines as outside fences; an error is reported if and only if it is about some line or block, an unclosed fence or unbalanced details tags; the snippets are the Python blocks that parse, in line order, whose code cut at its newlines is their body; and shell blocks, tables and links are counted |
| `LessonChecker.SnippetsExactly` | ai/learning/ai-infrastructure/examples/check_lessons.py:37-44 | a snippet is handed on if and only if it is a Python block that parses, by the number of its opening line, with code that is its lines |
| `LessonChecker.BlockLines` | ai/learning/ai-infrastructure/examples/check_lessons.py:29-63 | a block's number is that of its opening line, and its body and its closing line are the lines that follow |
| `LessonChecker.JoinedSplits` | ai/learning/ai-infrastructure/examples/check_lessons.py:39-39 | cutting the code at its newlines gives the lines of the body back |
| `LessonChecker.SplitJoins` | ai/learning/ai-infrastructure/examples/check_lessons.py:39-39 | every text is the code of the lines it is cut into, so the code is the only text with these lines |
| `LessonChecker.CheckLinks` | ai/learning/ai-infrastructure/examples/check_lessons.py:75-82 | counts the links to files and reports each missing one, in order |
| `LessonChecker.WrittenLinkFound` | ai/learning/ai-infrastructure/examples/check_lessons.py:75-75 | a link written out is found whole: its target, and then the targets behind it |
| `LessonChecker.CheckLine` | ai/learning/ai-infrastructure/examples/check_lessons.py:64-82 | one line outside fences: its table width, its links and its findings |
| `LessonChecker.CellsCounted` | ai/learning/ai-infrastructure/examples/check_lessons.py:66-67 | a table row written with n cells, escaped bars allowed in them, is a row and counts n cells |
| `LessonChecker.CleanedIs` | ai/learning/ai-infrastructure/examples/check_lessons.py:76-76 | a target loses the title behind it and the angle brackets around it and nothing else |
| `LessonChecker.SchemeIs` | ai/learning/ai-infrastructure/examples/check_lessons.py:77-77 | a target has a scheme if and only if what stands before its first colon is a letter and then letters, digits and `+.-` |
| `LessonChecker.PathIs` | ai/learning/ai-infrastructure/examples/check_lessons.py:80-80 | the path is the unquoted text before the first `#` |
| `LessonChecker.LinksCounted` | ai/learning/ai-infrastructure/examples/check_lessons.py:75-79 | the link count is the number of targets that do not lead elsewhere |
| `LessonChecker.OccurrencesAre` | ai/learning/ai-infrastructure/examples/check_lessons.py:85-85 | `count` counts the first occurrence and goes on behind it, and is 0 where there is none |
| `LessonChecker.BalancedExactly` | ai/learning/ai-infrastructure/examples/check_lessons.py:85-85 | adding up the tags line by line is counting them in the whole source: the tags balance if and only if the source holds as many of the one as of the other |
| `FenceScanners.RenderThenRead` | ai/learning/ai-infrastructure/examples/check_lessons.py:30-63 | scanning the rendering of any well-formed document gives it back: fenced bodies line for line, their fences and the prose |
| `FenceScanners.ReadThenRender` | ai/learning/ai-infrastructure/examples/check_lessons.py:30-63 | every line sequence is the rendering of the well-formed document read from it, so the two are inverse and the reading is the only one |
| `FenceScanners.WrappedBodyRecovered` | ai/learning/ai-infrastructure/examples/check_lessons.py:31-63 | a body wrapped in a fence is recovered line for line if and only if none of its lines closes that fence |
| `FenceScanners.FenceableExactly` | ai/learning/ai-infrastructure/examples/check_lessons.py:31-63 | for every body, some fence recovers the body line for line together with a given language if and only if the language has no white space at its ends |
| `FenceScanners.AnyBodyCanBeFenced` | ai/learning/ai-infrastructure/examples/check_lessons.py:31-63 | the fence: longer than every line of the body, of tildes when the language starts with a backtick and of backticks otherwise |
| `FenceScanners.ProseIsOutside` | learning/validate_docs.py:35-44 | a line is yielded if and only if no fence is open before it and it holds no marker |
| `FenceScanners.MatchSplits` | learning/validate_docs.py:36-36 | what is matched is white space, a run of three or more of one fence character, and the rest of the line |
| `FenceScanners.MatchIsLongest` | learning/validate_docs.py:36-36 | there is a match whenever the line splits that way, and it takes the longest run |
| `FenceScanners.FenceExactly` | learning/validate_docs.py:36-36 | a line holds a fence if and only if three backticks or three tildes follow its leading white space, so never without either character |
| `FenceScanners.SpacesAre` | learning/validate_docs.py:36-36 | which characters count as white space, one by one |
| `FenceScanners.StripDrops` | ai/learning/ai-infrastructure/examples/check_lessons.py:61-61 | `strip` takes off the white space at both ends and no more |
| `LessonChecker.WidthNext` | ai/learning/ai-infrastructure/examples/check_lessons.py:66-74 | a row is held to the width of the first row of its table, and any other line or block ends the table |
| `LessonChecker.FindingsExactly` | ai/learning/ai-infrastructure/examples/check_lessons.py:41-82 | a finding is reported if and only if some line or block has it: white space at the end, another width than its table's first row, a link to a path that is missing, code that a syntax check refuses |
| `FenceScanners.FenceNext` | learning/validate_docs.py:37-44 | how one line moves the open fence and what it adds to the prose |

## Left out

- Rounding and `cmath`: the OFDM model is exact, and the root of unity is a parameter whose powers are assumed to return to 1 after N steps and not before.
- OFDM with a prefix longer than the carriers, or with more taps than carriers: the slices and paddings then mean something else, and the design is not for that.
- `heapq`, `deque`, `sorted` and `itertools.permutations` internals: the heap is a bag with extract-min (ties may fall either way), the queue and stack are sequences, sorting is its contract, and permutations are an explicit enumeration shown to list every injective choice in order.
- `KeyError` for a start vertex or edge target that is not a graph key.
- Dijkstra.ShortestPaths: weights are integers, so the floating-point sums that Python would allow as weights are not modelled.
- NonPreemptive.Schedule: which of several jobs with equal keys `min` picks (the first in the list); the source's keys contain the name, so there are no ties.
- A job named "-", which the timeline cannot tell from an idle tick; ticks are a datatype here. Jobs with a burst of 0.
- SjfOptimality.Summarize: the printed lines; a job that never ran, which is a `KeyError`.
- The trace of the tiled product holds copies of the two tiles, so later writes to them are not modelled (the source makes none).
- The pipeline's dictionaries keyed by stage are records with five fields; instruction names are the keys of the timeline, hence distinct.
- CgroupBudget.RunPeriod: the default quantum of 5, a quantum below 1 and a period of 0 are not modelled.
- ReplayPipeline.Validate: what `datetime.fromisoformat` makes of an event time is a parameter, and values of other JSON types are one value.
- Loading the event file, its size limits, the command line and the printed report of the replay demo.
- LessonChecker.Check: the Python and shell syntax checks, the unquoting of link targets and the existence of files are parameters, and a finding carries the line and what was found instead of a message. Running the snippets is not part of this model.
- Splitting text into lines; a line here contains no line break, as `splitlines` guarantees, so the details tags of a document are those of its lines.
- `heading_ids`, and the link, SVG and heredoc checks of `learning/validate_docs.py`.
- Printing everywhere.
- Runbook and textbook prose, YAML and shell commands.
- Drivers of engines and kernel calls: the Iceberg and Spark labs, `uring_read.c` and `io_durability_demo.py`.
- One-line floating-point formula files, and finite models that their own enumeration settles, such as the memory-order and two-thread race models.
- Small state models: the nonce registry, authorization, retry, replication, write-ahead log, MVCC, Raft commit, memory pressure, ring lifetime, cache, address translation and coalescing models.
