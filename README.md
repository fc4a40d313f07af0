# Adventure maze traversal, modelled in Dafny

`projects/adventure/adv.py` plans a walk through a maze of rooms that visits every room. It works in three stages:

1. `populate_graph` runs a depth-first walk with an explicit stack. It records every room it meets as a vertex of a `Graph` and every exit as an edge.
2. A planner loop repeatedly calls `find_next_path`. This is a breadth-first search starting from the player's room. It passes only through rooms already visited and looks for the nearest room not visited yet. The loop replays the moves found and marks every room the player stands in.
3. A replay test walks the finished path again from the start room. It passes when the rooms entered are all the rooms of the map.

The model keeps this imperative shape:
- `Graph`, `Queue` and `Stack` are classes, and their methods update their fields.
- Each loop of the source is a `while` or `for` loop carrying its invariants.

Every method is proved against specification predicates, and the lemmas about those predicates state what the program guarantees:
- **What a finished discovery holds** (`Discovery.Discovered`). It has exactly the rooms reachable from the start. Each room has exactly the exits the world gives it, in the world's order. No exit leads outside the graph.
- **What `find_next_path` answers** (`Paths.IsNextPath`).
  - An answer is a walk through visited rooms whose last move enters an unvisited room.
  - No such walk is shorter.
  - `None` means no such walk exists.
  - When the room itself has an exit to an unvisited room, the answer is the first such exit alone.
  - Among the shortest such walks, the answer comes first in the order the search tries moves. Moves are compared at the first place where two walks differ, and the exit listed earlier in that room comes first (`Paths.Before`). The queue is first-in first-out and each room's exits are tried in their listed order, so this is the walk the search meets first.
  - These clauses fix the answer: two answers that both satisfy them are equal (`Paths.NextPathDetermined`).
- **What the planner produces** (`Traversal.GreedyPlan`). Each segment of the path is `find_next_path`'s answer from where the earlier segments left the player. Since that answer is determined, so is the plan: of two greedy plans from the same start, the shorter is the start of the longer (`Traversal.GreedyPlanDetermined`). The whole plan visits every discovered room. In a strongly connected world the plan always succeeds, and the replay test passes.

How the environment and the data are represented:
- **The world is a parameter** `w: map<RoomId, seq<(Dir, RoomId)>>`. It maps each room id to the exits that room reports, in the room's own order. The order sets the tie-breaks of the breadth-first search.
- **The player** is represented by the room it stands in. `Player.travel` becomes `Graphs.Travel`: a move along an existing exit, or no move when there is no exit that way.
- **The Python dictionaries** of exits (`direction -> room`) are sequences of pairs with distinct directions. A new key goes at the end and an existing key keeps its place, as in insertion-ordered dictionaries (`Graphs.SetEdge`).

## Model

| member | source | states |
|---|---|---|
| Containers.Queue.constructor | projects/adventure/adv.py:37-38 | a new queue is empty |
| Containers.Queue.Enqueue | projects/adventure/adv.py:40-41 | the value is appended behind all earlier ones |
| Containers.Queue.Dequeue | projects/adventure/adv.py:43-47 | on an empty queue: `None`, queue unchanged; otherwise the oldest element, and the queue keeps the rest in order |
| Containers.Queue.Size | projects/adventure/adv.py:49-50 | the size is zero exactly when the queue is empty |
| Containers.Stack.constructor | projects/adventure/adv.py:54-55 | a new stack is empty |
| Containers.Stack.Push | projects/adventure/adv.py:57-58 | the value goes on top |
| Containers.Stack.Pop | projects/adventure/adv.py:60-64 | on an empty stack: `None`, stack unchanged; otherwise the newest element, and the stack keeps the rest |
| Containers.Stack.Size | projects/adventure/adv.py:66-67 | the size is zero exactly when the stack is empty |
| Graphs.Graph.constructor | projects/adventure/adv.py:13-14 | a new graph has no vertices |
| Graphs.Graph.AddVertex | projects/adventure/adv.py:16-20 | `id` becomes a vertex with no exits; every other vertex is unchanged; a well-formed graph stays well formed |
| Graphs.Graph.AddEdge | projects/adventure/adv.py:22-27 | when both ends are vertices, only `v1`'s exit `d` is set to `v2`; otherwise nothing changes; a well-formed graph stays well formed |
| Graphs.Graph.Neighbors | projects/adventure/adv.py:29-33 | the exits of a vertex; in a closed graph every exit leads to a vertex, and directions are distinct |
| Graphs.Lookup | projects/adventure/adv.py:154-162 | a direction found in the exits is paired with the answer; `None` exactly when no exit has that direction |
| Graphs.LookupAt | projects/adventure/adv.py:154-162 | with distinct directions, looking up the direction of the k-th exit gives its target |
| Graphs.SetEdge | projects/adventure/adv.py:27 | assigning an exit either replaces an existing one or adds one |
| Graphs.SetEdgeLookup | projects/adventure/adv.py:27 | after setting exit `d` to `t`, `d` leads to `t` and every other direction leads where it led before |
| Graphs.SetEdgeShape | projects/adventure/adv.py:27 | setting an exit adds only that exit and keeps directions distinct |
| Graphs.SetEdgeAppend | projects/adventure/adv.py:27 | a new direction is appended at the end of the exits |
| Graphs.SetEdgeExisting | projects/adventure/adv.py:27 | re-setting an exit to its current target changes nothing |
| Graphs.Travel | projects/adventure/adv.py:187 | the player moves only along an exit of its room in the given direction, and does move along it when the room has one |
| Graphs.WalkStaysInside | projects/adventure/adv.py:120-124 | in a closed graph a walk from a vertex ends at a vertex |
| Graphs.WalkIsPosition | projects/adventure/adv.py:186-189 | `Position`, the room after replaying moves with `Travel`, is where the walk ends when every move follows a real exit |
| Graphs.VisitsInside | projects/adventure/adv.py:198-201 | `Visits`, the rooms stood in while replaying moves, and `Position` stay among the rooms of a closed graph |
| Graphs.PositionVisited | projects/adventure/adv.py:186-189 | the room the player ends in is one of the rooms it has stood in |
| Graphs.PositionAppend | projects/adventure/adv.py:183-191 | replaying two move lists one after the other ends where the second one ends from the end of the first |
| Graphs.VisitsAppend | projects/adventure/adv.py:183-191 | the rooms of a concatenated replay are the rooms of the first part plus those of the second part from its end |
| Graphs.AgreeReplay | projects/adventure/adv.py:186-189 | replaying in the discovered graph and in the world gives the same rooms, as long as the graph agrees with the world and is closed |
| Discovery.PopulateGraph | projects/adventure/adv.py:100-130 | the finished graph is well formed and holds exactly what a discovery from the start holds (`Discovered`) |
| Discovery.ProcessTop | projects/adventure/adv.py:107-128 | pops the top room, adds it as a vertex only if absent, records its exits, and pushes their unvisited targets |
| Discovery.ExploreExits | projects/adventure/adv.py:113-128 | the graph gains the exits of the room in order, with targets added only when absent; the stack gains the unvisited targets in exit order |
| Discovery.AddIfAbsent | projects/adventure/adv.py:110-121 | the room becomes a vertex, and every existing vertex keeps its exits |
| Discovery.AfterExit | projects/adventure/adv.py:117-124 | recording one exit adds exactly its target as a vertex, if absent, and keeps the room a vertex |
| Discovery.RecordExits | projects/adventure/adv.py:115-124 | recording exits keeps the room and every existing vertex |
| Discovery.ExitReachable | projects/adventure/adv.py:115-124 | recording an exit of a reachable room adds only reachable vertices |
| Discovery.ExitWellFormed | projects/adventure/adv.py:115-124 | recording an exit keeps the graph well formed |
| Discovery.ExitEdges | projects/adventure/adv.py:115-124 | recording the next exit extends the room's exits by exactly that exit, in the world's order, and leaves the other rooms' exits as they were |
| Discovery.ExitStep | projects/adventure/adv.py:115-124 | recording the next exit keeps the invariant of the exits loop |
| Discovery.RecordExitsKeys | projects/adventure/adv.py:120-121 | recording exits adds exactly their targets as vertices |
| Discovery.PushesSound | projects/adventure/adv.py:127-128 | only unvisited exit targets are pushed |
| Discovery.PushesComplete | projects/adventure/adv.py:127-128 | every unvisited exit target is pushed |
| Discovery.PushesMembers | projects/adventure/adv.py:127-128 | `Pushes`, the rooms pushed for a room's exits, holds a room exactly when it is an unvisited exit target |
| Discovery.ExitsLoop | projects/adventure/adv.py:115-124 | after the first `j` exits of the popped room are recorded, the room has exactly those exits (all of them if it was visited before), every other vertex has the world's exits if visited and none otherwise, the graph stays well formed and every vertex reachable |
| Discovery.StackStep | projects/adventure/adv.py:126-128 | rooms pushed are rooms of the world reachable from the start |
| Discovery.PendingStep | projects/adventure/adv.py:110-130 | every vertex is visited or still on the stack |
| Discovery.GraphStep | projects/adventure/adv.py:110-130 | after a pop, visited vertices have exactly the world's exits, the others none, and every vertex stays reachable |
| Discovery.PopStep | projects/adventure/adv.py:106-130 | one iteration of the stack loop keeps the loop invariant |
| Discovery.PopInit | projects/adventure/adv.py:101-104 | the loop invariant holds with the start room on the stack and nothing visited |
| Discovery.PopDone | projects/adventure/adv.py:106-130 | once the stack is empty the graph is the discovery from the start |
| Discovery.PopDecreases | projects/adventure/adv.py:106-130 | each pop decreases (unvisited rooms, whether the top is visited, stack size) lexicographically, although a room can be on the stack more than once |
| Discovery.DiscoveredWalks | projects/adventure/adv.py:100-130 | every walk from the start stays among the discovered rooms |
| Discovery.DiscoveredReachable | projects/adventure/adv.py:100-130 | a room is discovered exactly when it is reachable from the start |
| Discovery.DiscoveredUnique | projects/adventure/adv.py:100-130 | the discovered graph is determined by the world and the start |
| Discovery.DiscoveredWellFormed | projects/adventure/adv.py:100-130 | the discovered graph of a well-formed world is well formed |
| Discovery.DiscoveredAll | projects/adventure/adv.py:100-130 | in a strongly connected world the discovered graph is the whole world |
| Paths.FirstUnvisited | projects/adventure/adv.py:161-166 | `None` exactly when every exit leads to a visited room |
| Paths.FirstUnvisitedAt | projects/adventure/adv.py:161-166 | the k-th exit is the first one to an unvisited room when all earlier exits lead to visited rooms |
| Paths.ExitIndex | projects/adventure/adv.py:161 | the place of a direction among a room's exits: an exit with that direction is there and none earlier has it |
| Paths.ExitIndexAt | projects/adventure/adv.py:161 | with distinct directions, the k-th exit's direction is at place k |
| Paths.ExitIndexFound | projects/adventure/adv.py:161-162 | a direction with an exit has a place among the exits |
| Paths.BeforeAsym | projects/adventure/adv.py:140-170 | of two walks, at most one comes first in the search's order |
| Paths.BeforeTrans | projects/adventure/adv.py:140-170 | the search's order is transitive |
| Paths.BeforeTotal | projects/adventure/adv.py:140-170 | two different walks of the same length are ordered one way or the other |
| Paths.BeforeExtend | projects/adventure/adv.py:168-169 | extending two ordered walks by one move each keeps their order |
| Paths.BeforeStep | projects/adventure/adv.py:161-169 | from the same room, the exit listed earlier comes first |
| Paths.BeforeLast | projects/adventure/adv.py:161-169 | walks that differ only in their last move are ordered by that move alone |
| Paths.NextPathDetermined | projects/adventure/adv.py:133-170 | at most one answer satisfies what `find_next_path` promises |
| Frontier.FindNextPath | projects/adventure/adv.py:133-170 | the answer is a shortest path through visited rooms to an unvisited room, and the first such path of its length in the order the search tries moves; `None` only when there is none; the first exit to an unvisited room when the start room has one |
| Frontier.ScanExits | projects/adventure/adv.py:160-170 | at the first exit to an unvisited room, the answer; otherwise all exits lead to visited rooms, and those not yet enqueued are enqueued one move deeper with the search invariant and the queue's order kept |
| BreadthFirst.SearchInit | projects/adventure/adv.py:134-138 | the search invariant holds with only the start room enqueued |
| BreadthFirst.SearchEnqueue | projects/adventure/adv.py:168-170 | enqueueing a visited, not yet enqueued target one move deeper keeps the search invariant |
| BreadthFirst.SearchFinish | projects/adventure/adv.py:140-170 | dequeuing a room whose exits all lead to visited rooms keeps the search invariant |
| BreadthFirst.FrontierBound | projects/adventure/adv.py:140-170 | every frontier path is at least one move longer than the front of the queue |
| BreadthFirst.NoFrontier | projects/adventure/adv.py:140-170 | when the queue runs empty there is no frontier path |
| BreadthFirst.FrontierAt | projects/adventure/adv.py:161-166 | an exit of the front room to an unvisited room ends a frontier path |
| BreadthFirst.StartExpanded | projects/adventure/adv.py:134-138 | while the start room has an exit to an unvisited room, the start room is still at the front of the queue |
| BreadthFirst.LeaveExpanded | projects/adventure/adv.py:140-170 | a path through visited rooms that leaves the dequeued rooms passes a room still waiting in the queue |
| BreadthFirst.KnownDepth | projects/adventure/adv.py:168 | an already enqueued room sits at most one move deeper than the front |
| BreadthFirst.Answer | projects/adventure/adv.py:154-166 | returning at the first exit of the front room to an unvisited room gives a shortest frontier path, and the start room's first exit to an unvisited room when it has one |
| BreadthFirst.NoAnswer | projects/adventure/adv.py:140-170 | falling off the loop with an empty queue answers as `find_next_path` must |
| SearchOrder.OrderInit | projects/adventure/adv.py:137-138 | the queue holding only the start room is ordered |
| SearchOrder.ProcessedLeads | projects/adventure/adv.py:161-170 | the exits of a room whose exits were all examined lead to visited, enqueued rooms |
| SearchOrder.CoveredAt | projects/adventure/adv.py:140-170 | a walk through visited rooms to a room not yet expanded passes a waiting queued room within as many moves as it was enqueued with |
| SearchOrder.QueuedEnd | projects/adventure/adv.py:140-170 | such a walk, as long as the front room's path, ends in a queued room enqueued with that many moves |
| SearchOrder.FrontLeast | projects/adventure/adv.py:140-141 | a walk through visited rooms to a queued room of the front's depth is the front's path or comes after it |
| SearchOrder.ExtensionLeast | projects/adventure/adv.py:161-166 | a walk one move longer than the front's path, that extends it or a later one, and reaches no room of an earlier exit of the front, does not come before the front's path extended by the current exit |
| SearchOrder.NewLeast | projects/adventure/adv.py:168-170 | a newly enqueued room is enqueued with the first walk of its length that reaches it |
| SearchOrder.LeastEnqueue | projects/adventure/adv.py:168-170 | enqueuing a room with its first walk keeps every queued walk first for its room |
| SearchOrder.SortedEnqueue | projects/adventure/adv.py:168-170 | the new queued walk comes after every queued walk of its length |
| SearchOrder.DeeperEnqueue | projects/adventure/adv.py:161-170 | the new queued walk was found before the next exit of the front room |
| SearchOrder.DeeperNext | projects/adventure/adv.py:161-166 | walks found before an exit were found before the next one |
| SearchOrder.EnqueueOrdered | projects/adventure/adv.py:168-170 | enqueuing keeps every queued walk first for its room and each layer of the queue sorted |
| SearchOrder.FinishOrdered | projects/adventure/adv.py:140-141 | removing the front keeps the queue ordered, and every queued walk one move longer than the new front's was found from an earlier front room |
| SearchOrder.OrderedFinish | projects/adventure/adv.py:140-170 | dequeuing a room whose exits were all examined keeps both the search invariant and the queue's order |
| SearchOrder.OrderedAnswer | projects/adventure/adv.py:154-166 | returning at the first exit of the front room to an unvisited room gives exactly what `find_next_path` promises, order included |
| Traversal.Follow | projects/adventure/adv.py:186-189 | the player ends where replaying the moves ends and has stood in exactly the rooms of the replay |
| Traversal.GreedyPlanExtend | projects/adventure/adv.py:183-191 | appending `find_next_path`'s answer keeps the plan greedy, and `Concat` of the segments grows by exactly that answer |
| Traversal.GreedyPlanPrefix | projects/adventure/adv.py:183-191 | two greedy plans from the same start have the same first segments |
| Traversal.GreedyPlanDetermined | projects/adventure/adv.py:183-191 | of two greedy plans from the same start, the shorter is the start of the longer |
| Traversal.FrontierArrives | projects/adventure/adv.py:184-189 | replaying an answer of `find_next_path` in the world takes the player to its unvisited room |
| Traversal.FrontierExists | projects/adventure/adv.py:183-184 | in a strongly connected graph a frontier path exists while some room is not visited |
| Traversal.LeaveVisited | projects/adventure/adv.py:183-184 | a walk from a room that ends outside the visited rooms has a prefix that is a frontier path |
| Traversal.PlanTraversal | projects/adventure/adv.py:175-191 | the path is the segments concatenated; each segment is `find_next_path`'s answer, which is determined, so the plan is too; there are fewer segments than rooms; on success the path visits every discovered room; a failure means rooms remain unvisited and none can be reached; a strongly connected graph never fails |
| Traversal.ReplayCheck | projects/adventure/adv.py:194-211 | the rooms entered are the rooms of the replay; the test passes exactly when they are all rooms; `missing` counts the rooms never entered |
| Traversal.ConnectedDiscovered | projects/adventure/adv.py:173-181 | in a strongly connected world the discovered graph is the whole, strongly connected world |
| Traversal.PlanCovers | projects/adventure/adv.py:194-205 | a plan visiting every discovered room visits exactly the rooms reachable from the start; it visits every room of the world exactly when all rooms are reachable |
| Traversal.Run | projects/adventure/adv.py:173-205 | the planned path visits exactly the reachable rooms; the test passes exactly when every room is reachable; failure happens only in a world that is not strongly connected; a strongly connected world always passes |

## Left out

- `World`, `Room` and `Player` (lines 1-3, 71, 83, 88) are not part of this model. The world is an adjacency parameter. The player is the room it stands in.
- `Graphs.Travel`: the source of `Player.travel` is not part of this model. A move without an exit is modelled as leaving the player in place.
- Loading the map file with `open` and `literal_eval` (line 82) is file I/O. The ASCII map (line 86), the result prints (lines 203-207) and the commented-out interactive loop (lines 213-221) are console I/O. All are left out. The two outcomes of the test become `ReplayCheck`'s `passed` and `missing`.
- `import random` (line 5) is unused.
- Queue items are `(room, moves)` pairs instead of one-entry dictionaries (lines 138, 144-145).
- When `find_next_path` returns `None`, the source fails with a `TypeError` at `for direction in moves` (line 186). `PlanTraversal` and `Run` return `None` there instead.
- `Traversal.PlanTraversal`: the moves of one answer are replayed by `Follow` and appended to the path in one step. The source appends them one at a time. The resulting path is the same.
- The replay test collects `Room` objects (lines 195-201) and the model collects room ids. Each id names one room, so the counts are the same.
- `Frontier.FindNextPath` requires a graph whose exits all lead to vertices. In the source, a missing vertex raises `KeyError` in `get_neighbors`. `PopulateGraph` always leaves the graph closed, so the planner never hits this.
- `Discovery.PopulateGraph` and `Traversal.ReplayCheck` require a well-formed world: directions are distinct within a room, and every exit leads to a room of the world. The world loader guarantees this, but it is not part of this model.
- The graph `g` is a module-level global in the source. `Run` creates it, and the other methods take it as a parameter.
