# Constellation algorithms and containers, modelled in Dafny

This project models the core of a small satellite-constellation interview
toolkit, and proves properties of the model. The toolkit has two parts.

- `neet/note.py` holds the Python algorithms:
  - routing through the inter-satellite link mesh: Dijkstra, Dijkstra with route
    reconstruction, and breadth-first reachability;
  - coverage-window analysis: merging, gap finding and the continuous-coverage test;
  - handoff planning: the minimum-handoff satellite sequence and the timed link/gap schedule;
  - the peak number of concurrently visible satellites.
- Four C++ containers:
  - the circular buffer of `ring_buffer.hpp`;
  - the growable array of `neet/array.cpp`;
  - the directed adjacency-set graph of `neet/neet.cpp`;
  - the weighted network graph of `neet/graph_unord.cpp`.

How the files map to the source:

- `routing.dfy` (module `Routing`) models `dijkstra`, `dijkstra_with_path` and `bfs`.
  - Each method is proved against a reference meaning: least walk weights, a route
    of least weight, and the set of reachable nodes.
  - A link latency is a `nat`. `float('inf')` is the `Infinity` case of `Dist`.
- `coverage.dfy` (`Coverage`): `merge_intervals`, `find_coverage_gaps`, `has_continuous_coverage`.
  - `GapsAsIntended` is the corrected gap function described under Findings. It cuts each gap off at the required end.
- `concurrency.dfy` (`Concurrency`): `max_concurrent_satellites`, a sweep over +1/-1 events.
- `handoff.dfy` (`Handoff`): `min_handoffs_schedule`.
- `timed_handoff.dfy` (`TimedHandoff`): `optimal_handoff_schedule`.
  - The outcome `Diverges` stands for the source never returning.
  - `Fixed` is the corrected loop described under Findings.
- `sorting.dfy` (`Sorting`): a stable insertion sort by a total preorder.
  - Python's `list.sort` is stable, so every sort in the source is this function with the source's key.
- `ring_buffer.dfy` (`Ring`): class `RingBuffer`.
  - The slots are an `array`.
  - A ghost `Contents` holds the queued values, oldest first.
  - `Valid()` ties `Contents` to the slots from `tail` on.
- `dynamic_array.dfy` (`Growable`): class `DynamicArray`, with an `array` buffer that doubles when full.
- `adjacency_graph.dfy` (`AdjacencySets`): class `Graph`.
  - The graph is a `map<int, set<int>>` field.
  - The recursive depth-first reachability test shares one visited set.
- `network_graph.dfy` (`Network`): class `NetworkGraph`, with a weight map and a node-record map.
- `common.dfy` (`Options`, `SetFacts`): the `Option` datatype, and the fact that a proper subset is smaller, which the graph searches use for termination.

Methods modelling loops carry their loops and invariants. Each is proved equal to a
specification function, or to a reference predicate such as `IsDistanceTable` or
`IsBfsResult`. The lemmas beside the functions prove the properties promised by
the source or its demonstrations.

## Model

| member | source | states |
|---|---|---|
| Routing.Dijkstra | neet/note.py:86-136 | The result maps the start to 0. Its keys are exactly the nodes some walk reaches. Each is mapped to the least weight of a walk to it. |
| Routing.RelaxLinks | neet/note.py:128-134 | The inner loop relaxes each link of the popped node in order. It ends in the state given by the relaxation function over all links. |
| Routing.DistanceTableUnique | neet/note.py:86-136 | Any two results meeting the distance-table specification are equal, so the table is determined by the graph and the start. |
| Routing.ShortestUnique | neet/note.py:86-136 | The least walk weight to a node is unique. |
| Routing.MeshDistances | neet/note.py:482-489 | On the demonstration mesh from node 1, Dijkstra's table is {1:0, 2:10, 3:15, 4:30, 5:18, 6:28}. |
| Routing.DijkstraWithPath | neet/note.py:139-192 | Returns `(inf, [])` exactly when no walk reaches the end node. Otherwise returns the least weight and the node sequence of a walk of that weight. Start equal to end gives `(0, [start])`. Holds despite the early exit on reaching the end. |
| Routing.RelaxLinksTracking | neet/note.py:172-178 | The inner loop of the path variant. It ends in the relaxation state and records the predecessor of every improved node. |
| Routing.Reconstruct | neet/note.py:180-192 | Following `previous` back from the end yields the route of a walk from start to end. The walk's weight is the recorded distance. |
| Routing.NotReached | neet/note.py:160-182 | A search that empties the heap without processing the end node proves that node unreachable. |
| Routing.RouteAgreesWithTable | neet/note.py:139-192 | The distance of `dijkstra_with_path` is the entry of `dijkstra`'s table for the end node, and infinite exactly when the table lacks it. |
| Routing.RouteShape | neet/note.py:184-190 | A route holds one more node than the walk has hops. It starts at the start node and ends at the end node, and each consecutive pair is a link. |
| Routing.MeshRoute | neet/note.py:482-489 | On the mesh, the best route from 1 to 6 costs 28 ms and runs from node 1 to node 6. |
| Routing.Bfs | neet/note.py:26-40 | Fails, as with `KeyError`, exactly when some reachable node has no adjacency list. Otherwise returns exactly the set of nodes reachable from the start. |
| Routing.Expand | neet/note.py:35-38 | The neighbour loop marks and enqueues unseen neighbours and keeps the search invariant. The visited set and the queue only grow. |
| Routing.BfsDone | neet/note.py:31-40 | When the queue is empty, the visited set is exactly the reachable set, and every reachable node is a key. |
| Routing.BfsDanglingNeighbor | neet/note.py:35 | A neighbour with no adjacency list makes `bfs` fail. |
| Sorting.SortBy | neet/note.py:219 | The sort is a permutation of its input. |
| Sorting.SortBySorted | neet/note.py:219 | The sort's output is ordered by the key. |
| Sorting.SortByOfSorted | neet/note.py:219 | Sorting an ordered list returns it unchanged. |
| Sorting.SortByStable | neet/note.py:219 | The sort is stable: the elements that tie with any given one under the key keep their input order. |
| Coverage.MergeIntervals | neet/note.py:199-233 | `[]` exactly for `[]`. Otherwise the windows are sorted by start and pairwise separated. There are no more of them than in the input. They cover exactly the instants the input covers. Well-formed input gives well-formed output. |
| Coverage.MergeLoop | neet/note.py:221-233 | The loop over the sorted windows computes the merge function. |
| Coverage.MergeProperties | neet/note.py:199-233 | The same promises hold for the merge function on every input. |
| Coverage.MergeSortedCovers | neet/note.py:223-231 | Extending or appending at each step keeps the covered instants exactly. |
| Coverage.MergeIdempotent | neet/note.py:199-233 | Merging a merged list changes nothing. |
| Coverage.DemoMerge | neet/note.py:520-525 | The demonstration windows merge to 0..600 and 700..900. |
| Coverage.FindCoverageGaps | neet/note.py:236-274 | No windows gives the whole required window as one gap. Every gap starts at or after the required start. Every gap is non-empty, unless there are no windows and the range itself is empty. For well-formed windows, the gaps are ascending, no instant strictly inside a gap is covered, and every uncovered instant of the required window lies in some gap. |
| Coverage.WalkMerged | neet/note.py:259-274 | The walk of `current_position` over the merged windows computes the gap function. |
| Coverage.GapsUncovered | neet/note.py:262-272 | Nothing strictly inside a reported gap is covered. |
| Coverage.GapsComplete | neet/note.py:262-272 | Every uncovered instant of the required window lies in a reported gap. |
| Coverage.HasContinuousCoverage | neet/note.py:277-289 | True exactly when no gap is reported. A true answer on well-formed windows means every instant of a non-empty range is covered. |
| Coverage.DemoGaps | neet/note.py:536-551 | The demonstration reports the gap 600..700 over 0..900, and the same gap over 0..600, although every instant of 0..600 is covered. So coverage is false for both ranges. |
| Coverage.DemoCovered | neet/note.py:520-525 | Every instant from 0 to 600 is covered by the demonstration windows. |
| Coverage.GapsAsIntended | neet/note.py:236-274 | The corrected gaps all lie within the required window. Each starts at or after the required start, is non-empty, and ends by the required end. |
| Coverage.GapsAsIntendedProperties | neet/note.py:236-274 | No gap of the walk that lies within the window is lost. For well-formed windows the corrected gaps are ascending and nothing strictly inside one is covered. Every uncovered instant of a non-empty window lies in one of them. |
| Coverage.HasContinuousCoverageAsIntended | neet/note.py:277-289 | True exactly when no corrected gap is reported. A true answer on well-formed windows means every instant of a non-empty range is covered. |
| Coverage.DemoAsIntended | neet/note.py:536-551 | On the demonstration windows there are no corrected gaps over 0..600, and the gap 600..700 over 0..900. So coverage holds for 0..600 only. |
| Concurrency.MaxConcurrentSatellites | neet/note.py:429-462 | The procedure computes the peak function. The result is 0 for no windows, and otherwise lies between 0 and the number of windows. |
| Concurrency.MaxConcurrentIsPeak | neet/note.py:429-462 | For well-formed windows, no instant has more windows open than the peak, and, when there are windows, some instant has exactly that many. |
| Concurrency.CollectEvents | neet/note.py:447-450 | The event loop yields a +1 and a -1 event per window, in input order. |
| Concurrency.Sweep | neet/note.py:455-462 | The sweep returns the largest running count, and 0. |
| Concurrency.MaxConcurrentIsUpperBound | neet/note.py:429-462 | No instant has more active windows than the reported peak. |
| Concurrency.MaxConcurrentAttained | neet/note.py:429-462 | Some instant has exactly the reported number of active windows. |
| Concurrency.TouchingWindowsOverlap | neet/note.py:453 | Because starts sort before ends at equal times, windows touching at one instant count together. |
| Concurrency.ApartWindowsPeakOne | neet/note.py:429-462 | Windows that neither overlap nor touch give 1. |
| Handoff.MinHandoffsSchedule | neet/note.py:296-349 | The loop computes the schedule function. |
| Handoff.CollectAvailable | neet/note.py:326-332 | The inner loop collects exactly the started windows that extend the coverage. |
| Handoff.Best | neet/note.py:339-340 | The first element after a descending sort is an available pick that is greatest by `(end, id)`. |
| Handoff.MinHandoffsProperties | neet/note.py:296-349 | No windows gives `[]`. The schedule is no longer than the window list. For non-empty input it is non-empty exactly when coverage from time 0 can be kept up to the last end. |
| Handoff.MinHandoffsMinimal | neet/note.py:296-349 | The schedule is minimal. Take any chain of windows from time 0, each started by the coverage before it and extending it, that reaches the last end. Then the schedule is non-empty and no longer than that chain. |
| Handoff.GreedyAhead | neet/note.py:324-347 | The greedy stays ahead. From coverage `cur`, it reaches the last end in no more picks than any chain starting no later than `cur`. |
| Handoff.BestDominates | neet/note.py:328-339 | Take any window that has started by the coverage and ends after it. The scan offers it, so the chosen satellite ends no earlier. |
| Handoff.MinHandoffsSuccess | neet/note.py:324-349 | A returned schedule is a chain of windows from 0. Each starts by the coverage reached and extends it. Only its last pick reaches the largest end. |
| Handoff.MinHandoffsFailure | neet/note.py:334-336 | When the loop gives up at a gap, coverage from 0 to the last end is impossible. |
| Handoff.MinHandoffsDemo | neet/note.py:560-566 | On the demonstration windows the schedule is SAT_A, SAT_B, SAT_C, SAT_D, SAT_E. |
| TimedHandoff.OptimalHandoffSchedule | neet/note.py:352-426 | The procedure computes the outcome function: the returned events, or `Diverges` where the loop never ends. |
| TimedHandoff.HandoffLoop | neet/note.py:381-424 | The outer loop from index 0 at time 0 computes the plan. |
| TimedHandoff.HandoffStep | neet/note.py:383-424 | One pass either advances the index, or moves the time to the start of the current window with a gap. It reports `stuck` exactly where the plan diverges. |
| TimedHandoff.ScanAvailable | neet/note.py:383-393 | The inner loop computes the scan function. |
| TimedHandoff.ScanFrom | neet/note.py:383-393 | The scan passes over windows started by the current time. It finds nothing exactly when all of them end by then. Otherwise it picks the first window reaching the largest end among them, and that end is later than the current time. |
| TimedHandoff.ByTuple | neet/note.py:374-375 | Tuple order is a permutation of the input, sorted as `(start, end, id)` tuples and hence by start. |
| TimedHandoff.OptimalHandoffProperties | neet/note.py:352-426 | A returned schedule runs back to back from time 0, with each duration equal to end minus start. Every link is to a window that has started by the connect time and ends at the disconnect time. The loop can fail to return only if some window does not end after it starts. |
| TimedHandoff.PlanShape | neet/note.py:381-424 | The same, for the plan from any index and time. |
| TimedHandoff.PlanDiverges | neet/note.py:395-408 | Divergence needs a window with `end <= start`. |
| TimedHandoff.OptimalHandoffDemo | neet/note.py:578-586 | On the demonstration windows each satellite is linked from the end of the previous link: 0-300, 300-420, 420-600, 600-750, 750-900. |
| TimedHandoff.BackwardGap | neet/note.py:395-408 | Windows (0,10,A), (2,5,B), (20,30,C) give a gap from 10 back to 2, of duration -8. |
| TimedHandoff.EmptyWindowDiverges | neet/note.py:395-408 | The single window (5,5,A) makes the loop emit 5..5 gaps forever. |
| TimedHandoff.FixedHandoffProperties | neet/note.py:352-426 | The corrected schedule always exists. It runs back to back from time 0, every event moves time forward, and no window covers any instant of a gap. Each link is to the window that ends last among those started by its connect time. |
| TimedHandoff.FixedAdvance | neet/note.py:381-424 | One corrected step starts at the current time and moves it forward. It is a true gap or a greedy link, and leaves every scanned window over. |
| TimedHandoff.NestedFixed | neet/note.py:395-408 | On the nested windows the corrected loop gives A 0-10, a gap 10-20, then C 20-30. |
| Ring.RingBuffer.constructor | ring_buffer.hpp:19-23 | Empty, with both cursors at slot 0. |
| Ring.RingBuffer.Push | ring_buffer.hpp:25-35 | Appends the value. When full, the oldest value is dropped and `tail` advances. Only slot `head` is written, with the value and the new size, and `head` advances. |
| Ring.RingBuffer.Pop | ring_buffer.hpp:37-45 | `None` where the source throws. Otherwise returns the oldest value, removes it and advances `tail`. |
| Ring.RingBuffer.Front | ring_buffer.hpp:47-52 | `None` where the source throws. Otherwise returns slot `head`, which holds the oldest value only when the buffer is full. |
| Ring.RingBuffer.Back | ring_buffer.hpp:53-60 | Answers the same as `front`; the computed `last` index is unused. |
| Ring.HeadFollowsTail | ring_buffer.hpp:25-45 | The buffer keeps `head == (tail + size) % capacity`, and the k-th oldest value is at `(tail + k) % capacity`. |
| Ring.FrontReadsFreeSlot | ring_buffer.hpp:47-60 | With some but not all slots used, `front` and `back` read a slot holding none of the buffer's values. |
| Ring.RingBuffer.Oldest | ring_buffer.hpp:47-52 | The corrected `front`: the oldest value. |
| Ring.RingBuffer.Newest | ring_buffer.hpp:53-60 | The corrected `back`, read at `(head - 1 + capacity) % capacity`: the newest value. |
| Ring.PushPopDemo | ring_buffer.hpp:25-45 | Values leave in the order they were pushed, and a third pop from a two-value buffer is the empty case. |
| Ring.OverwriteDemo | ring_buffer.hpp:25-35 | A third push into a two-slot buffer drops the first value. |
| Growable.DynamicArray.Check | neet/array.cpp:10-15 | True exactly for `0 <= i <= capacity`. |
| Growable.CheckAdmitsEnd | neet/array.cpp:10-15 | `check` admits the index one past the last slot. It admits every index of the buffer. |
| Growable.DynamicArray.InBounds | neet/array.cpp:10-15 | The corrected bound: exactly the indices of the buffer. |
| Growable.DynamicArray.constructor | neet/array.cpp:28-32 | No elements, and the given number of slots. |
| Growable.DynamicArray.Resize | neet/array.cpp:16-25 | Doubles the capacity on a fresh buffer and keeps the elements. |
| Growable.DynamicArray.Get | neet/array.cpp:34-37 | Returns slot `i`, which is element `i` when `i` is below the size. |
| Growable.DynamicArray.Set | neet/array.cpp:38-41 | Writes slot `i` only. Element `i` becomes `n` when it exists; otherwise the elements are unchanged. |
| Growable.DynamicArray.PushBack | neet/array.cpp:43-51 | Appends the value, and doubles the capacity first exactly when the array is full. |
| Growable.DynamicArray.PopBack | neet/array.cpp:53-59 | Removes and returns the last element. On an empty array, returns slot 0 and the size stays 0. |
| Growable.DynamicArray.GetSize | neet/array.cpp:61-63 | The number of elements. |
| Growable.DynamicArray.GetCapacity | neet/array.cpp:64-66 | The buffer length, never below the size. |
| Growable.GrowDemo | neet/array.cpp:43-59 | Three pushes into two slots keep 1, 2, 3 and give capacity 4. Then a pop returns 3. |
| AdjacencySets.Graph.constructor | neet/neet.cpp:47 | No nodes. |
| AdjacencySets.Graph.AddEdge | neet/neet.cpp:50-53 | Exactly the edge `src -> dst` is added. |
| AdjacencySets.Graph.RemoveEdge | neet/neet.cpp:56-64 | True exactly when the edge existed. It is then removed and nothing else changes. Otherwise the graph is unchanged. |
| AdjacencySets.WithEdgeIdempotent | neet/neet.cpp:50-53 | Adding an existing edge changes nothing. |
| AdjacencySets.RemoveUndoesAdd | neet/neet.cpp:50-64 | Removing a newly added edge restores the edges. |
| AdjacencySets.Graph.HasPathDfs | neet/neet.cpp:8-21 | No edge changes. True means a walk leads from `src` to `dst`. False leaves `dst` unvisited, and every node the call visited has all its successors visited. |
| AdjacencySets.Graph.HasPath | neet/neet.cpp:67-70 | True exactly when a walk, possibly empty, leads from `src` to `dst`. No edge changes. |
| AdjacencySets.HasPathDemo | neet/neet.cpp:50-70 | A node reaches itself, and two added edges give a path one way only. Removing one breaks it. |
| Network.NetworkGraph.constructor | neet/graph_unord.cpp:45 | No nodes, no edges, with the given flag, which defaults to true. |
| Network.NetworkGraph.AddNode | neet/graph_unord.cpp:47-52 | A new node gets its record, with the label defaulting to "", and an empty row. An existing node is left as it is. |
| Network.NetworkGraph.AddEdge | neet/graph_unord.cpp:53-61 | Both endpoints become nodes, new ones with empty labels. `src -> dst` gets the weight, and `dst -> src` does too exactly when `is_directed` holds. No other weight changes. |
| Network.NetworkGraph.AddEndpoints | neet/graph_unord.cpp:54-55 | The two `addNode` calls add `src` and `dst` as nodes. New ones get empty labels, existing records are kept, and no weight changes. |
| Network.SetWeightOverwrites | neet/graph_unord.cpp:57 | A later weight for the same pair replaces the earlier one. |
| Network.LabelsAndDirectionDemo | neet/graph_unord.cpp:47-61 | The first label sticks, and new endpoints are labelled "". A directed graph stores the reverse weight; an undirected one does not. |
| Network.NetworkGraph.AddEdgeAsIntended | neet/graph_unord.cpp:53-61 | The corrected edge insertion stores the reverse weight for an undirected graph. That graph then stays symmetric. |
| Network.SetBothKeepsSymmetric | neet/graph_unord.cpp:57-60 | Storing a weight both ways keeps a symmetric weight map symmetric. |
| Network.SetOneWayBreaksSymmetric | neet/graph_unord.cpp:57 | Storing one direction breaks symmetry whenever the reverse weight differs. |

## Left out

- The first `dijkstra` and `merge_intervals` (neet/note.py:3-20, 45-59) are shadowed by the later definitions of the same names, so only the later ones are modelled.
- `merge_intervals`, `min_handoffs_schedule` and `find_coverage_gaps` sort the caller's list in place. The model works on values, so the caller's list is not changed.
- The heap is a set of `(distance, node)` pairs, popped at a minimum chosen nondeterministically. The ties the heap's order would break among equal pairs are not modelled. The contracts hold for every choice.
- Routing.Dijkstra, Routing.DijkstraWithPath: link latencies are non-negative integers (`nat`). Negative or fractional latencies, for which the source's visited-set shortcut is unsound, are not modelled.
- Routing.DijkstraWithPath: the route is built by prepending each predecessor. The source appends and then reverses; the result is the same list.
- Routing.RelaxLinks, Routing.RelaxLinksTracking, Routing.Expand, Coverage.MergeLoop, Coverage.WalkMerged, Concurrency.CollectEvents, Concurrency.Sweep, Handoff.CollectAvailable, TimedHandoff.ScanAvailable, TimedHandoff.HandoffLoop: these inner loops are stated only as equal to their specification functions. The properties are proved about those functions.
- Coverage: windows are closed `[start, end]` and the source never checks `start <= end`. Properties that need that order are stated under `WellFormed`.
- Coverage.FindCoverageGaps, Coverage.HasContinuousCoverage: these model the code, which does not cut gaps off at the required end. So the code breaks its docstrings, which promise gaps within the required window and `[]`, hence True, under continuous coverage (neet/note.py:240, 249, 286). `DemoGaps` shows this for 0..600, and Findings records the corrected version. HasContinuousCoverage is proved in one direction only: a true answer means the range is covered.
- Coverage.HasContinuousCoverageAsIntended: proved in one direction only: a true answer means every instant of the range is covered. Instants are integers, so the converse fails: windows `[0,600]` and `[601,900]` leave the gap 600..601, which holds no integer instant.
- TimedHandoff: the source's dictionaries become the `Link` and `Gap` cases of `Event`, and the input dictionaries become `(start, end, id)` windows.
  - `Diverges` stands for the loop never returning; it is not an observable value.
  - The `else: break` branch (neet/note.py:409-410) is unreachable, since `i < len(intervals)` holds inside the loop. The model has no such branch.
- TimedHandoff.PlanShape: states that each link is backed by a window and that events are back to back. That the chosen end is the largest among the windows scanned is stated per step by ScanFrom, and for the corrected loop by FixedHandoffProperties.
- Printing, the `__main__` demonstrations and their prose strings are not modelled. The demonstration inputs appear as the Demo lemmas.
- `ring_buffer.cpp`, `lru_cache.cpp` and `neet/graph.cpp` are not part of this model.
- Destructors, copy and move operations, and `delete[]` are not modelled; Dafny's heap is garbage-collected.
- Ring.RingBuffer.constructor: requires a positive capacity. With capacity 0 every `% capacity_` in the source divides by zero.
- Ring.RingBuffer.Pop, Ring.RingBuffer.Front, Ring.RingBuffer.Back: where the source throws `std::runtime_error`, the model returns `None`.
- Ring and Growable: `size_t`/`int` widths, wrap-around and the signed/unsigned comparisons are not modelled. Sizes are unbounded naturals.
- Growable.DynamicArray.constructor: a negative `int` capacity, which the source converts to a huge `size_t`, is not modelled; the capacity is a `nat`.
- Growable.DynamicArray.Get, Growable.DynamicArray.Set: require an index inside the buffer. The source does not act on `check`'s answer, and an index outside is undefined behaviour.
- Growable.DynamicArray.Set, Growable.DynamicArray.PushBack: take the element type `T`. The source takes an `int n` and converts it to `T` when storing it (neet/array.cpp:38, 43). For `T = int` the two agree; conversions to other types are not modelled.
- Growable.DynamicArray.PushBack: requires a positive capacity. From capacity 0, doubling gives 0 and the source writes past the buffer.
- Growable.DynamicArray.PopBack: requires at least one slot. On an empty zero-capacity array the source reads past the buffer.
- Growable: slots never written hold the type's default value (`T(0)`). In the source they hold whatever `new T[]` leaves there.
- AdjacencySets.Graph.HasPathDfs: the order in which `unordered_set` yields neighbours is unspecified. The model picks each next neighbour nondeterministically, and its contracts hold for every order.
- Network: the `metadata` map of `NodeInfo` and the unused `Edge` struct are not modelled. Weights are of an arbitrary type `W`.
- Network.NetworkGraph.AddNode, Network.NetworkGraph.AddEdge: require `Valid()`. This holds from construction on, because the class is only changed through these methods.

## Findings

| source | as written | input that shows it | evidently intended | confidence | as-written member | corrected member |
|---|---|---|---|---|---|---|
| neet/note.py:395-408 | With no available satellite, the gap always runs to `intervals[i][0]`, the start of a window that was already scanned and may lie before `current_time`. | `[(0,10,A),(2,5,B),(20,30,C)]` gives a gap from 10 to 2, of duration -8, then links B over 2..5. | Drop the windows that are over, and run the gap forward to the next window starting after `current_time`. | not executed | TimedHandoff.BackwardGap | TimedHandoff.FixedHandoffProperties |
| neet/note.py:395-408 | When window `i` starts exactly at `current_time` but ends by then, the gap is 0 long and the state repeats. | `[(5,5,A)]` loops forever, emitting 5..5 gaps. | The schedule ends, or moves to a later window. | not executed | TimedHandoff.EmptyWindowDiverges | TimedHandoff.FixedHandoffProperties |
| ring_buffer.hpp:47-60 | `front` and `back` both return slot `head_`. That is the slot the next push writes. `back` computes `last` and ignores it. | After `push(1)` into a buffer of capacity 2, `front()` and `back()` read the unwritten slot 1, not 1. | `front` reads `tail_`, and `back` reads `last`. | not executed | Ring.FrontReadsFreeSlot | Ring.RingBuffer.Oldest |
| ring_buffer.hpp:53-60 | `back` returns slot `head_` rather than the newest value. | After `push(1); push(2)` into a buffer of capacity 3, `back()` reads the unwritten slot 2, not 2. | `back` returns `buff_[last]`. | not executed | Ring.RingBuffer.Back | Ring.RingBuffer.Newest |
| neet/array.cpp:10-15 | `check` rejects only `i > capacity_`, so it admits `i == capacity_`, one past the last slot. | `check(capacity_)` returns true. | Reject `i >= capacity_`. | not executed | Growable.CheckAdmitsEnd | Growable.DynamicArray.InBounds |
| neet/note.py:262-274 | The walk reports gaps against the merged windows without cutting them off at `required_end`. The docstrings promise gaps within the required window and `[]` under continuous coverage (neet/note.py:240, 249, 286). | On the demonstration windows `[(0,300),(240,420),(400,600),(700,900)]` over 0..600, the result is `[(600, 700)]` and `has_continuous_coverage` is False, although every instant of 0..600 is covered. | Cut each gap off at `required_end`, and drop a gap the cut leaves empty. | not executed | Coverage.DemoGaps | Coverage.GapsAsIntendedProperties |
| neet/graph_unord.cpp:58-60 | The reverse weight is stored when `is_directed` is true. | In `NetworkGraph(true)`, `addEdge(A, B, 10)` also stores `B -> A`. In `NetworkGraph(false)` it does not. | Store the reverse weight when the graph is undirected, so an undirected graph stays symmetric. | not executed | Network.LabelsAndDirectionDemo | Network.NetworkGraph.AddEdgeAsIntended |
