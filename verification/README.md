# Dependency sorting, data-centre routing and simulation control: verified models

This project models five parts of an ns-3 based network simulator and proves what they promise.
`dafny verify dfyconfig.toml` checks all of it.

**Dependency sorting and cycle finding** (`bindings/python/topsort.py`). `Topsort.dfy` has the queue-based sort
and the level-by-level sort as loops over the two dictionaries the source mutates, for every order in which a
dictionary may list its keys. Both fail exactly on cyclic input, they leave the same items over, and the answer of the
first cuts into exactly the lists of the second. `FindCycles.dfy` has the stack-of-paths enumerator: it ends, yields
only elementary cycles, never two rotations of one cycle, and misses none, although it skips roots that were
visited before. `CycleDebugging.dfy` joins the two: the dictionary inside a `CycleError` has exactly the cycles
of the input. `Digraph.dfy` is the independent vocabulary (walks, cycles, "below a cycle").

**Routing** (`scratch/common.h`). `Routes.dfy` says what a route is (a shortest way over up links through switches
only) and which next hops follow it back; nothing in it mentions the search. `RouteSearch.dfy` and `RouteCosts.dfy`
carry the breadth-first search, its next-hop lists and its costs link by link. `Network.dfy` is the mutable
topology: route calculation, table installation and link failures, proved to keep `Valid() && Routed()` over any
sequence of failures. `LinkFailures.dfy` shows which links are down afterwards, that no installed entry uses one, and
that packets forwarded by the installed tables are delivered in the minimal number of hops. `TableContents.dfy` says field by
field what each table holds. `DriverTables.dfy` is about
the one table that is filled but never cleared, an NVSwitch's own RDMA driver table: the claim that no table leads into
a failed link is false of it, and it leads to a neighbour exactly if that neighbour was a next hop at some time.

**Worker pool** (`test.py`). `WorkerPool.dfy` is an interleaving transition system of the main thread, N workers, two
queues and an interrupt that may arrive at any step. No job is lost or doubled, no reachable state is
stuck, the number of moves of a run is bounded, every report says what the run did to its job, and the exit code is 0
exactly if every job met no interrupt and was skipped or run to return code 0.

**QP pool and flow schedule** (`scratch/QpReuseNetwork.cc`). `QpPool.dfy` interleaves any number of `getClient` callers
at their critical sections. `FlowSchedule.dfy` is the self-rescheduling event chain with the completion counter.

**Smaller pieces.** `TcpTransfer.dfy` (a resumable stream writer), `Permutations.dfy`, `BinaryStrings.dfy` and
`RadUtil.dfy` (enumeration, binary numerals, rotations), `Fairness.dfy` (Jain's index and its 64-bit arithmetic).

Where the source's comments disagree with its code, the code is followed. The comments at
`bindings/python/topsort.py:109` and `:227` say that what is left over has at least one child; that is false of an
item below a cycle (`Topsort.LeftoverWithoutChild`). It holds exactly if every leftover item also leads into a cycle
(`Topsort.LeftoverHaveChildren`, `Topsort.CycleErrorHasChildren`); what always holds is a leftover parent
(`Topsort.LeftoverHasLeftoverParent`). `raise StopIteration` is read as the normal end of the generator.

## Model

| member | source | states |
|---|---|---|
| Topsort.BuildTables | bindings/python/topsort.py:77-90 | The dictionaries hold, for every item of a pair, the number of pairs into it and its children with repeats, in order. |
| Topsort.ZeroKeys | bindings/python/topsort.py:93 | Some duplicate-free listing of exactly the keys with count 0; nothing is promised about its order. |
| Topsort.KnockDown | bindings/python/topsort.py:100-101 | The decremented key is present and its count positive, and afterwards every count is again the pairs from remaining parents plus the knock-downs still to come. |
| Topsort.LastParentDecides | bindings/python/topsort.py:97-103 | First in, first out: an item that loses its last parent while an item of level k is processed is of level k+1. |
| Topsort.KnockDownKids | bindings/python/topsort.py:99-103 | The inner loop keeps the queue duplicate-free, parents first, levels never falling, and holding exactly the parentless items; freed children are appended in the order in which their last pairs are listed. |
| Topsort.Topsort | bindings/python/topsort.py:77-112 | Returns if and only if the pairs have no cycle; the answer lists each item not below a cycle once, parents first, level by level: the parentless items, then the others in the order in which their last pairs are used; a CycleError carries exactly the items below a cycle, each with its positive count of leftover parents. |
| Topsort.QueueOrderDetermines | bindings/python/topsort.py:93-103 | Given the order in which the parentless items are listed, the answer is unique. |
| Topsort.LeftoverHasLeftoverParent | bindings/python/topsort.py:108-111 | Every item in a CycleError has a parent that is in it too. |
| Topsort.LeftoverWithoutChild | bindings/python/topsort.py:109-110 | The comment's claim is false: for (a, a), (a, b) the item b is left over and has no child. |
| Topsort.LeftoverHaveChildren | bindings/python/topsort.py:108-111 | When the claim is right, for every input: all leftover items have a child if and only if all of them lead into a cycle. |
| Topsort.CycleErrorHasChildren | bindings/python/topsort.py:226-229 | The same of what a CycleError carries: every key of num_parents has a nonempty children list if and only if every key leads into a cycle. |
| Topsort.PeelingLeavesCycles | bindings/python/topsort.py:203-229 | Removing parentless items round after round ends after at most as many rounds as items, and leaves exactly the items on or below a cycle. |
| Topsort.LevelIsLongestChain | bindings/python/topsort.py:203-224 | An item is removed in round k exactly if its longest chain of ancestors has length k. |
| Topsort.TopsortLevelsCore | bindings/python/topsort.py:203-232 | No deletion or decrement misses its key; list k is level k, once each and nonempty; all acyclic levels are yielded first; it then ends or raises with the leftover, as cycles are absent or present. |
| Topsort.TopsortLevels | bindings/python/topsort.py:157-172 | The same for a pair list: it fails on the same inputs as topsort and with the same leftover set. |
| Topsort.BlocksAreLevels | bindings/python/topsort.py:203-224 | Cut at the sizes of the levels, the answer of topsort is, block by block, the lists of topsort_levels, and the blocks use it up. |
| Digraph.CyclicIffElementaryCycle | bindings/python/topsort.py:235-242 | There is a closed walk exactly if there is a cycle listed once around whose last item is a parent of the first. |
| CycleDebugging.CycleErrorKeepsCycles | bindings/python/topsort.py:108-111 | The children dictionary of a CycleError has exactly the elementary cycles of the whole input, and at least one. |
| RadUtil.IsRotated | bindings/python/rad_util.py:761-775 | True exactly for rotations; an IndexError exactly for two empty sequences. |
| FindCycles.IsDuplicate | bindings/python/topsort.py:371-375 | Recognises exactly the cycles that are rotations of one already yielded. |
| FindCycles.ClosingCycle | bindings/python/topsort.py:367-369 | The part of a simple path from the repeated child on is an elementary cycle. |
| FindCycles.NewPath | bindings/python/topsort.py:379-385 | Pushing a longer path keeps what the search owes, and the number of paths still to be popped stays exactly as counted before. |
| FindCycles.ReachedCycleIsFound | bindings/python/topsort.py:346-378 | Once all simple paths from a root are explored, every cycle that root reaches has been found, through its first hit on the cycle. |
| FindCycles.Complete | bindings/python/topsort.py:346-349 | Skipping visited roots loses nothing: every elementary cycle is found from some explored root. |
| FindCycles.FindCycles | bindings/python/topsort.py:343-385 | Ends; yields only elementary cycles, no two of them rotations of each other; every elementary cycle is a rotation of a yielded one. |
| RouteSearch.NoShorterRoute | scratch/common.h:411-433 | After the search, the far end of any route is found, at a distance no greater than the length of that route. |
| RouteSearch.DistancesRight | scratch/common.h:411-433 | dis has exactly the nodes a route reaches, and its tree routes are shortest. |
| RouteSearch.HopsRight | scratch/common.h:434-456 | The push, clear and skip rules leave exactly the closed form of the next hops, whatever the order of neighbours. |
| Routes.NextHopIffReached | scratch/common.h:434-451 | There is a next hop exactly at the reached nodes other than the host. |
| Routes.Progress | scratch/common.h:434-451 | Each chosen next hop is one hop closer, so no chain of choices is longer than the distance it starts at. |
| Routes.Delivery | scratch/common.h:403-458 | Whatever next hops are chosen, a chain that cannot go on is at the host and walked a shortest route. |
| Routes.InnerNodesAreSwitches | scratch/common.h:426-431 | No host lies strictly inside a shortest route. |
| PathCosts.DiscoverCosts | scratch/common.h:420-425 | A newly found node gets the sum, sum and minimum along its tree route, in 64-bit arithmetic. |
| PathCosts.TxDelayIsSendingTime | scratch/common.h:423-424 | The term of a link is the whole number of nanoseconds it takes to send the 8 * payload bits at its rate: t * bw <= 8 * payload * 10^9 < (t + 1) * bw, the product taken in 64 bits. |
| PathCosts.SendingTimeWithoutWrap | scratch/common.h:423-424 | While 8 * payload * 10^9 fits into 64 bits that is the true sending time. |
| PathCosts.TxDelayIsSum | scratch/common.h:423-424 | The transmission delay of a route is the sum of one such sending time for each of its links. |
| PathCosts.BwIsLeastRate | scratch/common.h:425 | The bandwidth of a route is at most the rate of each link and equals one of them. |
| RouteCosts.SearchDone | scratch/common.h:403-458 | At the end of the search the next hops towards the host are right and the costs are those of one shortest route per node. |
| Network.Topology.AddToList | scratch/common.h:437-450 | The in-place list edit: NVSwitches replace other last stops, and later only NVSwitches join. |
| Network.Topology.AddLastStopEntry | scratch/common.h:437-455 | Updates the list towards the host and the switch entry of a reached host; writes the link's rate for both directions between the two exactly when that entry is made, and no other bandwidth. |
| Network.Topology.VisitLink | scratch/common.h:414-457 | One link keeps the invariant of the search, and the queue never outgrows the known nodes. |
| PairTables.StoreColumn | scratch/common.h:462-469 | Writes one value per reached node for this host and leaves every other entry. |
| Network.Topology.RecordCosts | scratch/common.h:459-470 | The same for the three pair tables. |
| Network.Topology.CalculateRoute | scratch/common.h:394-473 | For the host: next hops equal the closed form; delay is the sum of the link delays, txDelay the sum of the links' sending times and bandwidth the least rate along one shortest route; entries of other hosts and of nodes not reached stay. Ends. |
| Network.Topology.CalculateRoutes | scratch/common.h:475-481 | The same for every host at once; between a host and a switch that is its last stop the rate recorded is that of their link. |
| Network.Topology.AddTableEntry | scratch/common.h:491-508 | One next hop adds one interface: in a switch to the switch table, in an NVSwitch to that and the driver's NVSwitch table, in a host to the driver's NVSwitch table if the next hop is an NVSwitch and to its plain table if not. |
| Network.Topology.SetRoutingEntries | scratch/common.h:483-517 | Every table gains, per node and destination, exactly the interfaces of the next-hop list, in its order; tables a node of that kind does not use gain nothing. |
| TableContents.InstalledHold | scratch/common.h:494-507 | In installed tables, an interface of a host is in the driver's NVSwitch table exactly if it leads to a next hop that is an NVSwitch, and in the plain table exactly if it leads to another next hop; in a switch it is in the switch table exactly if it leads to a next hop; none is entered twice. |
| TableContents.FilledKeepsOthers | scratch/common.h:494-507 | A pass leaves alone a host's switch table, a switch's driver tables and an NVSwitch driver's plain table. |
| ForwardingTables.ClearedThenFilled | scratch/common.h:614-626 | Clearing and filling leaves exactly the entries for the current next hops; an NVSwitch's own driver table keeps the old ones before them. |
| Network.Topology.ClearTables | scratch/common.h:615-622 | Empties the switch tables of switches and both driver tables of hosts, and nothing else. |
| Network.Topology.SetupRouting | scratch/common.h:1061-1062 | Establishes the routing invariant and the recorded costs; an NVSwitch's driver table holds exactly the entries of this pass. |
| Network.Topology.TakeDownLink | scratch/common.h:607-626 | Both directions go down and nothing else changes: not which links there are, and no index, delay or rate; next hops, costs and every table field are those of the remaining links; pair entries of hosts that are cut off keep their old values; a link already down changes nothing. |
| Network.Topology.TakeDownLinks | scratch/common.h:607-626 | Any sequence of failures changes nothing of the links but takes those of the sequence down, and keeps the topology valid and correctly routed; an NVSwitch's driver table gains one block of entries per failure that took effect, in order. |
| Network.Topology.SetupAndFail | scratch/common.h:1061-1162 | After the setup and any sequence of failures the network is correctly routed, and an NVSwitch's driver table leads to a neighbour exactly if it was a next hop at some time since. |
| LinkFailures.CutAllOnly | scratch/common.h:608-611 | After any sequence exactly the failed links are down, symmetrically, and every link keeps its index, delay and rate; order and repeats make no difference. |
| LinkFailures.FailureOrderIrrelevant | scratch/common.h:607-613 | Two orders of the same failures give the same next hops. |
| LinkFailures.InstalledTablesAvoidDownLinks | scratch/common.h:607-626 | No entry of a switch, an NVSwitch's switch table or a host uses an interface whose link is down. |
| LinkFailures.EntryIffHop | scratch/common.h:491-508 | A routing pass enters an interface in a table exactly if the node behind it is a listed next hop that belongs in that table; which that is, field by field, is TableContents.InstalledHold. |
| LinkFailures.TablesAreNextHops | scratch/common.h:483-517 | The installed tables of a node lead to exactly its next hops, and no other neighbour. |
| LinkFailures.TableDelivery | scratch/common.h:483-517 | Following any installed interface at each node makes no more hops than the distance, and a packet that can go no further is at the host, over a shortest route walked backwards. |
| DriverTables.PassEntry | scratch/common.h:497-500 | A pass enters a neighbour in an NVSwitch's driver table exactly if it is then a next hop towards the host. |
| DriverTables.DriverOverDownLink | scratch/common.h:497-500 | Over any sequence of failures that table leads to a neighbour, over a failed link too, exactly if it did before or some failure that took effect left the neighbour a next hop. |
| DriverTables.DriverRemembers | scratch/common.h:497-500 | Counted from the setup: exactly if the neighbour was a next hop on the links of the setup or on those left after some number of the failures. |
| DriverTables.StaleEntry | scratch/common.h:615-622 | The failing family: when the link between an NVSwitch and a host of its own fails, the NVSwitch's driver table keeps its entry for that host. |
| Network.Topology.DeriveRttAndBdp | scratch/common.h:1070-1089 | For every pair of hosts the stored RTT is twice the delay plus the transmission delay, the stored BDP that times the bandwidth in bytes, in 64-bit arithmetic; maxRtt and maxBdp are the largest of the stored values. |
| PairTables.BdpWithoutWrap | scratch/common.h:1077-1082 | Below 2^64 the stored BDP is the true product of RTT and bandwidth, rounded down once. |
| WorkerPool.WorkerStepInv | test.py:965-1033 | Every worker step keeps: each dispatched job in one place, stop jobs behind all others, stop jobs and exits balanced; and every report tells what was done to its job: broken off, skipped, or run with that return code. |
| WorkerPool.MainStepInv | test.py:1656-1720 | So does every dispatch, stop job, collection and join of the main thread. |
| WorkerPool.JobsAreNeverLost | test.py:965-1033 | At every moment of every run each dispatched job is in exactly one of input queue, a worker's hands, output queue and collected list; once a worker has returned no real job is queued. |
| WorkerPool.NoDeadlock | test.py:1664-1687 | In every reachable state before the end some thread can move without an interrupt. |
| WorkerPool.StuckMeansDone | test.py:1686-1826 | A run nobody can continue has collected and joined. |
| WorkerPool.RunsAreBounded | test.py:965-1033 | The invariant holds all along, and the number of moves is bounded before the run starts. |
| WorkerPool.OnceEach | test.py:965-1033 | No job is taken up or run twice in a run. |
| WorkerPool.ReportIsTrue | test.py:979-1033 | A collected report is broken off exactly if thread_exit was set in the step that took its job up, and then no step ran the job; otherwise a step ran or skipped it, and the report carries the return code of that step. |
| WorkerPool.Verdict | test.py:1909-1912 | Over every run that is over: each job was collected once, and the result is 0 if and only if every job was taken up before any interrupt and was skipped or run by a step that ended with 0. |
| WorkerPool.SummaryIsRight | test.py:1686-1720 | At every moment of every run the five counters are the numbers of collected reports that ran to 0, to 1, to 2, to another code, or were skipped; reports broken off are in none. |
| WorkerPool.CollectAndJudge | test.py:1679-1720 | The loop ends with exactly those numbers, and with 0 exactly if all reports are good, otherwise 1. |
| QpPool.HashKeyInjective | scratch/QpReuseNetwork.cc:41-43 | Different (src, dst, pg, dport) tuples never print the same key. |
| QpPool.StepInv | scratch/QpReuseNetwork.cc:45-125 | Every critical section keeps: pools complete and made for their own tuple, returned clients in their pool, each port the next of its pair. |
| QpPool.StepKeeps | scratch/QpReuseNetwork.cc:97-106 | No step replaces a pool or forgets a draw. |
| QpPool.PoolIsCommittedOnce | scratch/QpReuseNetwork.cc:97-106 | In every run a pool, once there, stays, and has MAX_QPS members made for its tuple. |
| QpPool.ReturnsPoolMember | scratch/QpReuseNetwork.cc:112-124 | Whoever returns, whenever, holds a member of the one pool its tuple has at the end. |
| QpPool.FetchesTheDrawn | scratch/QpReuseNetwork.cc:112-124 | It is the member whose number was drawn. |
| QpPool.EveryMemberReturnable | scratch/QpReuseNetwork.cc:112-124 | Each of the MAX_QPS members can be returned to a caller about to fetch. |
| QpPool.LateCallersDrawNothing | scratch/QpReuseNetwork.cc:48-63 | A caller that looks after its pool is there draws no ports and builds no pool. |
| QpPool.PortsDiffer | scratch/QpReuseNetwork.cc:65-75 | Two ports of one host pair are equal exactly if a whole number of 16-bit rounds lies between their draws, those for discarded pools included. |
| QpPool.CallerReturns | scratch/QpReuseNetwork.cc:45-125 | A caller can always go on without another caller's help and returns after a bounded number of its own steps. |
| FlowSchedule.FlowSimulation.ReadFlowInput | scratch/QpReuseNetwork.cc:131-139 | Reads the next row while flows remain. |
| FlowSchedule.FlowSimulation.ScheduleFlowInputs | scratch/QpReuseNetwork.cc:141-168 | Registers all flows due now, schedules the push of each one's own size to the client of its own tuple before the next row is read, and re-arms the chain exactly while flows remain; aborts exactly if the next start time has passed. |
| FlowSchedule.FlowSimulation.PushMessage | scratch/QpReuseNetwork.cc:127-129 | The captured client and size are pushed at the present time, for the first time. |
| FlowSchedule.FlowSimulation.MessageFinish | scratch/QpReuseNetwork.cc:223-227 | Counts a completion and runs Finish exactly at the last. |
| FlowSchedule.FlowSimulation.Start | scratch/QpReuseNetwork.cc:264-269 | Reads the first row and starts the chain, if there is a flow. |
| FlowSchedule.FlowSimulation.Simulate | scratch/QpReuseNetwork.cc:264-271 | The run ends; it ends without abort exactly if start times are in order; then each flow was registered once, in file order, at its start, with its tuple; its own bytes were pushed to the client of its tuple once, 1 ns later, and completed no earlier than that; Finish ran once, after all completions; and the whole file was read and closed. |
| TcpTransfer.Transfer.constructor | examples/tcp/tcp-large-transfer.cc:82-86 | The buffer repeats the alphabet over its whole length. |
| TcpTransfer.NextPiece | examples/tcp/tcp-large-transfer.cc:50-53 | Because the buffer holds whole alphabets, starting over at its front continues the stream. |
| TcpTransfer.Transfer.WriteUntilBufferFull | examples/tcp/tcp-large-transfer.cc:198-219 | No write passes the buffer or the total; the accepted bytes stay a prefix of the intended stream; it stops only at the total, without room or after a refusal; it closes exactly at the total. |
| TcpTransfer.Transfer.Session | examples/tcp/tcp-large-transfer.cc:185-219 | The same over any sequence of callbacks, with the room changing freely between them; the socket has been closed exactly if everything was accepted. |
| Permutations.Permute | bindings/python/rad_util.py:310-326 | The loops compute the specification function the next three rows are about. |
| Permutations.HowMany | bindings/python/rad_util.py:310-326 | n items give n! lists. |
| Permutations.ExactlyTheRearrangements | bindings/python/rad_util.py:310-326 | A list is in the result exactly if it is a rearrangement of the input. |
| Permutations.AllDifferent | bindings/python/rad_util.py:310-326 | For different items the results are pairwise different. |
| Permutations.OrderOfResults | bindings/python/rad_util.py:312-322 | Result n * k + i is permutation k of the items but the first, with the first item put in at place i. |
| BinaryStrings.HexValue | bindings/python/rad_util.py:91-96 | Expanding the hexadecimal digits gives a numeral of the same value. |
| BinaryStrings.Int2BinIsLowBits | bindings/python/rad_util.py:96-105 | For n >= 1 the result is the n low bits if the value fits, and a ValueError if not. |
| BinaryStrings.WhenInt2BinRaises | bindings/python/rad_util.py:96-105 | A KeyError exactly for negative numbers, a ValueError exactly for n >= 1 and a value of 2^n or more. |
| BinaryStrings.Int2BinInFull | bindings/python/rad_util.py:96-105 | For n = 0 a nonnegative number is printed in full, in the fewest groups of four digits. |
| BinaryStrings.IntRoundTrip | bindings/python/rad_util.py:130 | bin2int undoes int2bin on n-bit values. |
| BinaryStrings.StringRoundTrip | bindings/python/rad_util.py:96-130 | int2bin undoes bin2int on nonempty binary strings, leading zeros included. |
| BinaryStrings.CountUp | bindings/python/rad_util.py:649-659 | The carry loop adds one to the digits and reports exactly the overflow. |
| BinaryStrings.BinaryRange | bindings/python/rad_util.py:639-660 | For bits >= 1 there are 2^bits entries, and entry k is the bits low bits of k; for 0 bits there are none. |
| Fairness.Index | examples/tcp/dctcp-example.cc:185-191 | Numerator and denominator of the printed index, with 64-bit wrap-around. |
| Fairness.SquareOfSum | examples/tcp/dctcp-example.cc:191 | sum * sum <= n * sumSquares, with equality exactly for equal counters. |
| Fairness.SquaresBelowSquare | examples/tcp/dctcp-example.cc:191 | sumSquares <= sum * sum. |
| Fairness.IndexInRange | examples/tcp/dctcp-example.cc:191 | Unless all counters are zero the index lies in [1/n, 1] and is 1 exactly for equal counters. |
| Fairness.NoWrap | examples/tcp/dctcp-example.cc:185-191 | No product wraps while n times the largest counter is below 2^32. |

## Left out

- Topsort.TopsortLevelsCore: the caller's two dictionaries are consumed in place by the source; the model works on values, so a caller's later view of them and the laziness of the generator are not captured.
- FindCycles.FindCycles: the consumer of the generator is taken not to change the lists it is handed; the yielded lists are collected into one sequence.
- Network.Topology.SetRoutingEntries: destinations are nodes, not IP addresses (an address is looked up one to one), and `add_nvswitch` (scratch/common.h:509-511) is not modelled.
- Network.Topology.CalculateRoute: next-hop lists are proved as duplicate-free sets, since their order follows pointer order; the pair tables are keyed by node where some are keyed by node id; default entries that `operator[]` creates (empty lists, interfaces that are down) are not distinguished from missing ones.
- Network.Topology.TakeDownLink: taking the devices down and redistributing queue pairs is library code.
- Network.Topology.DeriveRttAndBdp: says nothing about pairs without a route beyond using what the tables hold.
- LinkFailures.InstalledTablesAvoidDownLinks: excludes an NVSwitch's own driver table, which the source fills but never clears; DriverTables.DriverOverDownLink says exactly when that table leads into a failed link, and DriverTables.StaleEntry gives the inputs where it does.
- WorkerPool.WorkerStepInv: a job is run in one step that yields any return code; subprocesses, valgrind, XML and text output, the progress number at test.py:1722 and exceptions inside a worker are not modelled.
- QpPool.StepInv: line 71 reads the global flow_input; it is taken to hold the caller's own src and dst, as it does at the call in ScheduleFlowInputs. The random choice is any index; installing and starting a client is library code.
- FlowSchedule.FlowSimulation.Simulate: the flow file has as many rows as it announces, all between hosts (the assertion at scratch/QpReuseNetwork.cc:135-137); times are whole nanoseconds; the transport is any that completes each pushed message once; a negative delay is an abort; what Finish and cancel_monitor do to queue pairs and monitors, and the printed flow completion times, are not modelled; getClient is modelled apart, in QpPool.
- TcpTransfer.Transfer.WriteUntilBufferFull: a socket that accepts 0 bytes while it reports room is excluded, because the source's loop would not end.
- Fairness.IndexInRange: the division is over the reals, not in floating point, and the throughput averages are left out; with all counters zero the source divides 0 by 0.
- BinaryStrings.IntRoundTrip: only strings of binary digits; the other forms Python's int() accepts (signs, spaces, underscores) and negative widths are not modelled.
- Configuration and topology parsing, monitors, congestion control, switch memory management and RDMA transport: wiring or library code.
- The other helpers of bindings/python/rad_util.py and the other examples: easy, float-based or wrappers over ns-3.
