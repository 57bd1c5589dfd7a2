# ProjektInzynierski — a verified model of the robot planner and the operator console

ProjektInzynierski is a small mobile robot with an operator console.

**The robot side (C++)** runs a lidar SLAM and serves its map, lidar points and pose over a REST/WebSocket server. It forwards motor commands to an Arduino over a serial line. It can drive itself to a goal or explore:
- it down-samples the occupancy map into a coarse node grid;
- it plans on that grid with D* Lite;
- it follows the path, replanning when the lidar sees an obstacle close by.

**The console side (Electron, JS)** connects to those sockets:
- it relays map frames to the window through a throttle;
- it paints the grayscale map;
- it shows the point cloud;
- it turns a gamepad's D-pad into motor commands.

This project models the integer, discrete and string parts of both sides in Dafny and proves their contracts. There is one module per source file:

| module | models |
|---|---|
| `Costs` | the planner's float costs, which are only ever 1, +inf or sums of them, as naturals with infinity |
| `DStarLite` | the planner class: g/rhs/cost tables, the lazy-deletion open list (a multiset of keyed entries) and the open set |
| `PathFinder` | ConvertMapToGrid, updateObstycle and FindPathDStarLite |
| `RobotHandler` | the goal and start clamps, detectCollision, frontier selection in explore, trackPath and the goTo entry points |
| `ArduinoSerial` | the serial port: newline framing, line reading, the command helpers |
| `RestApiEndpoint` | coords2index, the map and point frames, the /arduino/send status rule, the ws_threads registry |
| `MainProcess` | the map relay throttle and the one-handle-per-channel socket logic of the main process |
| `Gamepad` | the D-pad tick of both copies, including the renderer's |
| `Maps` | the RGBA buffer fill of the map view, the point list and the clear button |
| `Renderer` | the cell-by-cell map painting, the connection flag and its buttons, the send guard, the point list |
| `Utils` | the capped message log, throttle and debounce |
| `Common` | Option, row-major indexing and flattening, shared by the modules above |

Code that mutates state is modelled as classes and methods. Examples are the planner's tables, the serial port, the relay and channel handles, the D-pad controller and the console's closure state. Each such method is proved against a pure function of the old state, and the properties are proved about those functions as lemmas.

Loops are methods with invariants. Examples are updateObstycle's block averages, getNeighbors, updateVertex's lookahead, computeShortestPath, run's greedy walk, explore's scan, trackPath and the RGBA fill.

## Model

| member | source | states |
|---|---|---|
| `Common.RowMajorInjective` | ClientAPP/js/maps.js:216 | for in-range cells, `y*cols+x` is equal for two cells exactly when the cells are equal |
| `Common.FlattenIndex` | RESTAPI_EP/RESTAPI_EP.cpp:116-121 | rows of equal width flatten to `rows*width` entries, and entry `y*width+x` of the flat buffer is `rows[y][x]` |
| `Common.UnflattenRoundTrip` | RESTAPI_EP/RESTAPI_EP.cpp:113-122 | rows that agree row-major with a flat buffer of the same size flatten back to exactly that buffer |
| `Costs.Add` | RESTAPI_EP/include/PathFinder.h:190 | the float sum of costs is infinite exactly when one operand is |
| `Costs.Min` | RESTAPI_EP/include/PathFinder.h:157 | std::min returns one of its operands and neither operand is below it |
| `Costs.LessIsStrictTotalOrder` | RESTAPI_EP/include/PathFinder.h:113 | float `<` on naturals and infinity is irreflexive, transitive, total and asymmetric |
| `Costs.KeyLessIsStrictOrder` | RESTAPI_EP/include/PathFinder.h:142-148 | the queue's lexicographic key order is a strict total order |
| `DStarLite.Heuristic` | RESTAPI_EP/include/PathFinder.h:152-154 | the heuristic is the Manhattan distance, zero exactly for equal cells |
| `DStarLite.HeuristicConsistent` | RESTAPI_EP/include/PathFinder.h:152-154 | one grid step changes the heuristic by at most 1 |
| `DStarLite.Candidates` | RESTAPI_EP/include/PathFinder.h:162-167 | the four moves give exactly the four cells at Manhattan distance 1 |
| `DStarLite.PassableMembers` | RESTAPI_EP/include/PathFinder.h:168-172 | the filter keeps exactly the in-bounds cells of finite cost, and no more cells than it is given |
| `DStarLite.Neighbors` | RESTAPI_EP/include/PathFinder.h:161-175 | at most 4 neighbours; a cell is one exactly when it is in bounds, of finite cost and at distance 1 |
| `DStarLite.MinOverIsMinimum` | RESTAPI_EP/include/PathFinder.h:188-191 | the running std::min over neighbours is infinity for none; otherwise it is attained by some neighbour and no neighbour's `cost(u)+g(s)` is below it |
| `DStarLite.RhsForIsMinimum` | RESTAPI_EP/include/PathFinder.h:186-193 | rhs(u) is infinite without neighbours, else the minimum of `cost(u)+g(s)` over them, attained by one |
| `DStarLite.RhsAfterChange` | RESTAPI_EP/include/PathFinder.h:213 | changing g(u) changes rhs only at the cells getNeighbors(u) returns |
| `DStarLite.CalculateKey` | RESTAPI_EP/include/PathFinder.h:156-159 | the secondary key is min(g, rhs); the primary is infinite exactly when both g and rhs are |
| `DStarLite.TopExists` | RESTAPI_EP/include/PathFinder.h:200 | a non-empty open list has an entry with no smaller key on top |
| `DStarLite.TopAfterAdd` | RESTAPI_EP/include/PathFinder.h:207-208 | after a push, the top is the new entry or the old top |
| `DStarLite.WalkExtend` | RESTAPI_EP/include/PathFinder.h:119-120 | appending a getNeighbors neighbour of the last cell keeps a walk a walk |
| `DStarLite.SettleCell` | RESTAPI_EP/include/PathFinder.h:209-219 | after g(u) is set and u popped, only u and its neighbours can break the invariants; when g(u) becomes rhs(u), only the neighbours |
| `DStarLite.RepairFirst` | RESTAPI_EP/include/PathFinder.h:213 | one updateVertex on the first pending cell makes it consistent again |
| `DStarLite.InitialTables` | RESTAPI_EP/include/PathFinder.h:89-95 | g and rhs are infinite on exactly the grid; cost is infinite on obstacle cells and 1 elsewhere |
| `DStarLite.InitiallyConsistent` | RESTAPI_EP/include/PathFinder.h:89-96 | the all-infinite tables satisfy the invariants everywhere except at the goal |
| `DStarLite.InitialState` | RESTAPI_EP/include/PathFinder.h:96-97 | setting rhs(goal) to 0 and pushing the goal establishes the invariants |
| `DStarLite.ConstructorTables` | RESTAPI_EP/include/PathFinder.h:86-98 | the constructor's tables: costs from the grid, g infinite, rhs 0 only at the goal, the goal alone open, and the D* Lite invariants |
| `DStarLite.DrainedIsConsistent` | RESTAPI_EP/include/PathFinder.h:199 | with the open list drained, every cell has g = rhs |
| `DStarLite.GreedyStep` | RESTAPI_EP/include/PathFinder.h:107-117 | on settled unit-cost tables, a reachable non-goal cell has g ≥ 1, a neighbour with g one less, and no cheaper neighbour |
| `DStarLite.GreedyWitness` | RESTAPI_EP/include/PathFinder.h:111-116 | a reachable non-goal cell with g = rhs has a neighbour whose g is one less |
| `DStarLite.GreedyNoCheaper` | RESTAPI_EP/include/PathFinder.h:111-116 | no neighbour's `cost(n)+g(n)` is below g(s) |
| `DStarLite.GreedyChoice` | RESTAPI_EP/include/PathFinder.h:111-119 | the greedy step picks a neighbour exactly one closer to the goal |
| `DStarLite.StepBound` | RESTAPI_EP/include/PathFinder.h:186-193 | on settled unit-cost tables, g of a traversable cell is at most one more than any neighbour's |
| `DStarLite.WalkLowerBound` | RESTAPI_EP/include/PathFinder.h:100-124 | every walk to the goal from a traversable cell has at least g(first cell) steps |
| `DStarLite.Planner.constructor` | RESTAPI_EP/include/PathFinder.h:86-98 | the constructor's state, which is consistent |
| `DStarLite.Planner.GetNeighbors` | RESTAPI_EP/include/PathFinder.h:161-175 | the loop over the four moves returns exactly Neighbors |
| `DStarLite.Planner.InsertOpen` | RESTAPI_EP/include/PathFinder.h:181-184 | pushes u with its current key and adds u to the open set, nothing else |
| `DStarLite.Planner.RemoveOpen` | RESTAPI_EP/include/PathFinder.h:177-179 | erases u from the open set only; queue entries stay (lazy deletion) |
| `DStarLite.Planner.UpdateVertex` | RESTAPI_EP/include/PathFinder.h:186-196 | rhs(u) becomes the neighbour minimum unless u is the goal; afterwards u is open iff g(u) ≠ rhs(u); no other cell's membership changes |
| `DStarLite.Planner.LookAhead` | RESTAPI_EP/include/PathFinder.h:188-191 | the loop computes the minimum of `cost(u)+g(s)` over neighbours |
| `DStarLite.Planner.UpdateNodeCost` | RESTAPI_EP/include/PathFinder.h:126-129 | the cell's cost is replaced, its rhs recomputed, and it is open iff inconsistent; no other cell's open membership changes, and the open list gains the cell's entry iff it is inconsistent |
| `DStarLite.Planner.UpdateNeighbors` | RESTAPI_EP/include/PathFinder.h:213 | updating every neighbour after g(u) changed restores the invariants |
| `DStarLite.Planner.Repair` | RESTAPI_EP/include/PathFinder.h:194-195 | one updateVertex discharges the first pending cell |
| `DStarLite.Planner.ComputeShortestPath` | RESTAPI_EP/include/PathFinder.h:198-222 | keeps the D* Lite invariants and the costs; when the open list drains, every cell is locally consistent |
| `DStarLite.Planner.ProcessTop` | RESTAPI_EP/include/PathFinder.h:200-220 | one pass keeps the invariants; the break leaves the state untouched |
| `DStarLite.Planner.Reinsert` | RESTAPI_EP/include/PathFinder.h:206-208 | an outdated entry is replaced by one with the current key, the tables unchanged |
| `DStarLite.Planner.SettleTop` | RESTAPI_EP/include/PathFinder.h:210-212 | sets g(u), pops the top entry and erases u from the open set |
| `DStarLite.Planner.LowerToRhs` | RESTAPI_EP/include/PathFinder.h:209-213 | the overconsistent case sets g(u) to rhs(u) and keeps the invariants |
| `DStarLite.Planner.RaiseToInf` | RESTAPI_EP/include/PathFinder.h:214-219 | the underconsistent case sets g(u) to infinity and keeps the invariants |
| `DStarLite.Planner.RaiseAndUpdate` | RESTAPI_EP/include/PathFinder.h:215-218 | after g(u) := inf and updateVertex(u), only u's neighbours are left to repair |
| `DStarLite.Planner.ChooseNext` | RESTAPI_EP/include/PathFinder.h:108-118 | the first neighbour of least `cost(n)+g(n)`, or s itself exactly when every such sum is infinite |
| `DStarLite.Planner.Run` | RESTAPI_EP/include/PathFinder.h:100-124 | empty when g(start) is infinite; `[start]` when start is the goal; otherwise at least two cells, starting at start, each a neighbour of the last; on settled unit-cost tables it reaches the goal in exactly g(start) steps |
| `DStarLite.Planner.Walk` | RESTAPI_EP/include/PathFinder.h:102-123 | the greedy walk of run, with the same guarantees |
| `PathFinder.ConvertMapToGrid` | RESTAPI_EP/include/PathFinder.h:20-28 | height rows of width cells; a cell is 1 iff its row-major byte is above the threshold, else 0 |
| `PathFinder.CeilDiv` | RESTAPI_EP/include/PathFinder.h:38 | nodes_per_side is the ceiling of map_pixels / size |
| `PathFinder.ClampNodeSize` | RESTAPI_EP/include/PathFinder.h:36 | the node size is at least 1 and unchanged when it already is |
| `PathFinder.BlockNonEmpty` | RESTAPI_EP/include/PathFinder.h:43-46 | each node's pixel block `[n*size, min((n+1)*size, map_pixels))` is non-empty and inside the map |
| `PathFinder.RowSumBounds` | RESTAPI_EP/include/PathFinder.h:51-53 | a row's pixel sum lies between 0 and 255 per pixel |
| `PathFinder.BlockSumBounds` | RESTAPI_EP/include/PathFinder.h:50-55 | a block's pixel sum lies between 0 and 255 per pixel |
| `PathFinder.Classify` | RESTAPI_EP/include/PathFinder.h:56-64 | 0 iff the average is above 200, 1 iff below 25, 2 otherwise (integer form), and 0 for an empty block |
| `PathFinder.SumBlock` | RESTAPI_EP/include/PathFinder.h:48-55 | the nested loop returns the block's sum and its pixel count |
| `PathFinder.UpdateObstacle` | RESTAPI_EP/include/PathFinder.h:29-68 | a `ceil(map_pixels/size)`-square grid whose node is the class of its block's average; every entry is in {0,1,2} |
| `PathFinder.NodeValueFromAverage` | RESTAPI_EP/include/PathFinder.h:56-64 | every block is non-empty, so a node is free or an obstacle exactly by its average |
| `PathFinder.FindPathDStarLite` | RESTAPI_EP/include/PathFinder.h:70-81 | empty for an empty grid or an out-of-range start or goal; otherwise the path starts at start, steps between 4-adjacent in-grid cells and never enters an obstacle |
| `PathFinder.WalkAvoidsObstacles` | RESTAPI_EP/include/PathFinder.h:93 | a walk over the constructor's costs never enters an obstacle cell |
| `RobotHandler.TruncDiv` | RESTAPI_EP/include/RobotHandler.h:159 | C++ division truncates toward zero: the floor for a non-negative dividend `a`; for a negative one a quotient `q ≤ 0` with `a ≤ q*b < a + b` |
| `RobotHandler.Clamp` | RESTAPI_EP/include/RobotHandler.h:159-160 | std::clamp lands in the range, is the identity inside it, and gives the nearer bound outside |
| `RobotHandler.GoalNode` | RESTAPI_EP/include/RobotHandler.h:155-161 | the goal is `pixel/size` on each axis, clamped to `[0, map_pixels/size - 1]`: unchanged inside the range, 0 for a negative pixel, the upper bound above it |
| `RobotHandler.GoalInsideNodeGrid` | RESTAPI_EP/include/RobotHandler.h:159-160 | the goal node always lies inside the node grid of updateObstycle |
| `RobotHandler.FloorBelowCeil` | RESTAPI_EP/include/PathFinder.h:38 | `a / b` never exceeds `ceil(a / b)` |
| `RobotHandler.StartNode` | RESTAPI_EP/include/RobotHandler.h:27-28 | the start node is clamped into the node grid: unchanged when already inside, 0 below it, `grid_size - 1` above it, on each axis |
| `RobotHandler.DetectCollision` | RESTAPI_EP/include/RobotHandler.h:323-327 | true iff the node is inside the grid and its cell is 1 |
| `RobotHandler.PlannedCellsDoNotCollide` | RESTAPI_EP/include/RobotHandler.h:323-327 | no cell after the first of a planned path is reported as a collision |
| `RobotHandler.SelectFrontier` | RESTAPI_EP/include/RobotHandler.h:184-198 | (-1,-1) iff no cell is 2; otherwise a cell equal to 2 of least Manhattan distance, the first such in row-major order |
| `RobotHandler.TrackEndsWithStop` | RESTAPI_EP/include/RobotHandler.h:84-90 | every ending except running out of input sends stop last; more than 5 replans always aborts |
| `RobotHandler.TrackAsWritten` | RESTAPI_EP/include/RobotHandler.h:41-145 | trackPath as written: no command for a path of 0 or 1 nodes |
| `RobotHandler.SameWithoutReplan` | RESTAPI_EP/include/RobotHandler.h:60-142 | without a replan, tracking as written and the corrected tracking send the same commands and end the same way |
| `RobotHandler.TwoNodeReplanIsSkipped` | RESTAPI_EP/include/RobotHandler.h:92-94 | as written, a replan to a two-node path completes without moving; with the fix it drives to the goal |
| `RobotHandler.CompletesAtGoal` | RESTAPI_EP/include/RobotHandler.h:60-142 | with the fix, completed tracking has reached the last node of the path it followed |
| `RobotHandler.FollowsPath` | RESTAPI_EP/include/RobotHandler.h:60-141 | with the fix, forward moves that reach their nodes visit the rest of the path in order and complete |
| `RobotHandler.TrackPath` | RESTAPI_EP/include/RobotHandler.h:41-145 | trackPath as written: the loops compute `TrackAsWritten`, a replanned path resuming at index 1 |
| `RobotHandler.TrackPathCorrected` | RESTAPI_EP/include/RobotHandler.h:41-145 | corrected: the loops compute the tracking with a replanned path resuming at index 0; nothing is sent for a trivial path |
| `RobotHandler.PlanPathToGoal` | RESTAPI_EP/include/RobotHandler.h:20-39 | no path to a goal outside the node grid; a path starts at the clamped start and steps between adjacent in-grid nodes |
| `RobotHandler.GoToGoal` | RESTAPI_EP/include/RobotHandler.h:147-152 | trackPath as written runs only for a non-empty path; its commands and outcome are `TrackAsWritten`'s |
| `RobotHandler.GoToTarget` | RESTAPI_EP/include/RobotHandler.h:154-167 | the goal is the clamped pixel node, inside the grid; trackPath as written runs only for a non-empty path |
| `ArduinoSerial.Line` | RESTAPI_EP/include/ArduinoSerial.h:53-61 | the characters before the first newline, or all of the input when there is none |
| `ArduinoSerial.LineAndRest` | RESTAPI_EP/include/ArduinoSerial.h:53-61 | the input splits as line, newline, rest; without a newline the line is everything and nothing is left |
| `ArduinoSerial.FrameRoundTrip` | RESTAPI_EP/include/ArduinoSerial.h:36-60 | reading a line back from `data + "\n"` gives data, for data without a newline |
| `ArduinoSerial.FramesRoundTrip` | RESTAPI_EP/include/ArduinoSerial.h:33-64 | successive sends are read back one per receive, in order |
| `ArduinoSerial.Port.Connect` | RESTAPI_EP/include/ArduinoSerial.h:16-31 | succeeds iff the port was closed and opens; nothing is written |
| `ArduinoSerial.Port.Send` | RESTAPI_EP/include/ArduinoSerial.h:33-44 | false with nothing written when closed; otherwise writes exactly `data + "\n"` |
| `ArduinoSerial.Port.Receive` | RESTAPI_EP/include/ArduinoSerial.h:46-64 | "" when closed; otherwise the next line without its newline, which is consumed |
| `ArduinoSerial.Port.Disconnect` | RESTAPI_EP/include/ArduinoSerial.h:66-70 | the port is closed afterwards |
| `ArduinoSerial.Port.Forward` | RESTAPI_EP/include/ArduinoSerial.h:72-74 | sends "forward" |
| `ArduinoSerial.Port.Backward` | RESTAPI_EP/include/ArduinoSerial.h:76-78 | sends "backward" |
| `ArduinoSerial.Port.Stop` | RESTAPI_EP/include/ArduinoSerial.h:80-82 | sends "stop" |
| `ArduinoSerial.Port.TurnLeft` | RESTAPI_EP/include/ArduinoSerial.h:84-86 | sends "turn_left" |
| `ArduinoSerial.Port.TurnRight` | RESTAPI_EP/include/ArduinoSerial.h:88-90 | sends "turn_right" |
| `RestApiEndpoint.Coords2IndexIsRowMajor` | RESTAPI_EP/RESTAPI_EP.cpp:23-26 | for `0≤x,y<800` the index lies in `[0, 640000)` and gives x and y back |
| `RestApiEndpoint.Coords2IndexInjective` | RESTAPI_EP/RESTAPI_EP.cpp:23-26 | two on-map pixels share an index exactly when they are equal |
| `RestApiEndpoint.MapFrame` | RESTAPI_EP/RESTAPI_EP.cpp:113-122 | 800 rows of 800 with `map[y][x] == map_data[y*800+x]`, flattening back to the buffer |
| `RestApiEndpoint.PointsFrame` | RESTAPI_EP/RESTAPI_EP.cpp:172-177 | one element per scan point, in order, with its x and y |
| `RestApiEndpoint.SendCommand` | RESTAPI_EP/RESTAPI_EP.cpp:153-154 | a command exists iff the body is an object with a string "data", and it is that string |
| `RestApiEndpoint.SendResponse` | RESTAPI_EP/RESTAPI_EP.cpp:150-161 | 200 with `{"status":"ok"}` iff there is a command, else 400 with reason "invalid JSON" |
| `RestApiEndpoint.HandleArduinoSend` | RESTAPI_EP/RESTAPI_EP.cpp:150-161 | the route's response, and the command plus a newline written iff the port is open |
| `RestApiEndpoint.Registry.OnOpen` | RESTAPI_EP/RESTAPI_EP.cpp:133-134 | the connection gets a running worker |
| `RestApiEndpoint.Registry.OnClose` | RESTAPI_EP/RESTAPI_EP.cpp:191-199 | the connection's entry is gone and every other entry is untouched |
| `RestApiEndpoint.Registry.Shutdown` | RESTAPI_EP/RESTAPI_EP.cpp:209-217 | the registry is empty |
| `MainProcess.InitialRelayInv` | ClientAPP/main.js:77-92 | the idle relay satisfies the relay invariant |
| `MainProcess.RelayInvPreserved` | ClientAPP/main.js:77-92 | pushes, map messages and fires keep at most one timer, which exists only while pending, and never more emissions than timers |
| `MainProcess.PushSchedulesOnlyWhenIdle` | ClientAPP/main.js:78-91 | a push stores its frame and sets pending; it schedules a timer iff none was pending; it emits nothing |
| `MainProcess.PushesKeepLatest` | ClientAPP/main.js:88-91 | after pushes the stored frame is the last one, at most one timer was scheduled, and nothing was emitted |
| `MainProcess.FireEmitsLatest` | ClientAPP/main.js:82-86 | a fire with the window alive emits exactly the latest non-empty frame and clears pending |
| `MainProcess.StallsWithoutEmission` | ClientAPP/main.js:83-87 | a fire without a window leaves pending set with no timer, and later pushes schedule and emit nothing |
| `MainProcess.MapRelay.Push` | ClientAPP/main.js:77-92 | the relay state after sendGraymapDataThrottled |
| `MainProcess.MapRelay.Message` | ClientAPP/main.js:161-166 | the relay state after a map message: a push only while the window exists |
| `MainProcess.MapRelay.Fire` | ClientAPP/main.js:82-87 | the relay state after the timer fires |
| `MainProcess.OnConnect` | ClientAPP/main.js:95-100 | connect holds a fresh socket |
| `MainProcess.OnCloseChannel` | ClientAPP/main.js:135-145 | after close-websocket the handle is null, even if terminate throws; without a handle nothing changes; only the held socket changes, left closing with its close event still to come |
| `MainProcess.OnSocketEndAsWritten` | ClientAPP/main.js:114-126 | as written, error and close null the handle whichever socket raised them |
| `MainProcess.OnSocketEnd` | ClientAPP/main.js:114-126 | corrected: error and close null the handle only when they come from the socket held |
| `MainProcess.TidyHasOneLiveSocket` | ClientAPP/main.js:95-100 | a tidy channel has at most one live socket, the one held |
| `MainProcess.StepKeepsTidy` | ClientAPP/main.js:95-193 | with the corrected handlers, every event except a throwing terminate keeps the channel tidy |
| `MainProcess.SendOnlyWhenOpen` | ClientAPP/main.js:129-133 | a message is forwarded iff the held socket is open, and then on that socket |
| `MainProcess.ReconnectOrphansSocket` | ClientAPP/main.js:114-126 | as written, the old socket's close after a reconnect orphans the open new socket and drops a message; corrected, the message goes out |
| `MainProcess.CloseThenReconnectOrphansSocket` | ClientAPP/main.js:114-145 | as written, close, reconnect, then the terminated socket's late close orphans the open new socket and drops a message; corrected, the message goes out |
| `MainProcess.ChannelHandle.Connect` | ClientAPP/main.js:148-153 | the channel state after connect |
| `MainProcess.ChannelHandle.SendMessage` | ClientAPP/main.js:129-133 | the channel state after send-message |
| `MainProcess.ChannelHandle.Close` | ClientAPP/main.js:183-193 | the channel state after close; the handle is null and the terminated socket is closing |
| `MainProcess.ChannelHandle.SocketOpened` | ClientAPP/main.js:155-159 | the socket is open |
| `MainProcess.ChannelHandle.SocketEnded` | ClientAPP/main.js:168-180 | the corrected error/close handler |
| `Gamepad.DpadPayload` | ClientAPP/js/gamepad.js:26-36 | the payload is empty iff no direction is pressed, and otherwise is one of the four commands |
| `Gamepad.PayloadTables` | ClientAPP/renderer.js:385-395 | both tables are well formed; the two copies agree on up/down and differ on left/right |
| `Gamepad.TickSendsAtMostOnce` | ClientAPP/js/gamepad.js:26-49 | after a tick lastDpadState is the payload and at most one command went out: the changed payload, or one stop on release |
| `Gamepad.HoldSendsOnce` | ClientAPP/js/gamepad.js:38-41 | holding one direction for k ≥ 1 ticks sends its payload once, or not at all if it was already last |
| `Gamepad.IdleSendsAtMostOneStop` | ClientAPP/js/gamepad.js:44-49 | idle ticks send one stop if a command was last, then nothing |
| `Gamepad.DpadController.Connected` | ClientAPP/js/gamepad.js:12-15 | remembers the pad and requests a frame |
| `Gamepad.DpadController.Disconnected` | ClientAPP/js/gamepad.js:17-19 | forgets the pad |
| `Gamepad.DpadController.Update` | ClientAPP/js/gamepad.js:21-53 | with a pad, one tick and a new frame; without one, nothing is sent and the loop ends |
| `Maps.ClampColor` | ClientAPP/js/maps.js:214 | values above 255 become 255, below 0 become 0, and the rest are unchanged |
| `Maps.ClampColorIsProjection` | ClientAPP/js/maps.js:214 | the clamp is idempotent and monotone |
| `Maps.CellColor` | ClientAPP/js/maps.js:213-214 | a cell has a colour iff it exists, and it is the clamped value |
| `Maps.ImageLayout` | ClientAPP/js/maps.js:209-222 | the buffer holds `cols*rows*4` bytes; bytes `(y*cols+x)*4..+3` are the clamped value three times and 255 |
| `Maps.ImageCell` | ClientAPP/js/maps.js:211-221 | the same layout, cell by cell, by induction on rows |
| `Maps.PixelsDisjoint` | ClientAPP/js/maps.js:216 | the four bytes of earlier cells end before those of later cells |
| `Maps.DrawGrayscaleMap` | ClientAPP/js/maps.js:185-238 | draws iff the map and its first row are non-empty; the buffer is the row-major image; the robot only with a position |
| `Maps.FillRow` | ClientAPP/js/maps.js:212-221 | one row's pixels are appended to the filled prefix |
| `Maps.FillPixel` | ClientAPP/js/maps.js:217-220 | writes gray, gray, gray, 255 at the index |
| `Maps.PointView.ProcessPoints` | ClientAPP/js/maps.js:94-98 | the list is replaced wholesale and the count shows its length |
| `Maps.PointView.Clear` | ClientAPP/js/maps.js:41-45 | the list is empty and the count is 0 |
| `Renderer.RowFills` | ClientAPP/renderer.js:518-527 | one fill per column |
| `Renderer.RasterLayout` | ClientAPP/renderer.js:517-528 | rows*cols fills; fill `y*cols+x` paints cell (x, y) with its clamped colour |
| `Renderer.RasterPaintsOnce` | ClientAPP/renderer.js:517-528 | no cell is painted twice |
| `Renderer.PaintGrayscaleMap` | ClientAPP/renderer.js:500-553 | paints iff the map is non-empty, cell by cell in row-major order; the robot only with a position |
| `Renderer.Window.UpdateConnectionState` | ClientAPP/renderer.js:143-151 | connected is b; connect disabled iff b; disconnect, input and send disabled iff not b |
| `Renderer.Window.SendClicked` | ClientAPP/renderer.js:188-194 | forwards and clears a non-empty message only while connected; otherwise nothing changes |
| `Renderer.Window.KeyPressed` | ClientAPP/renderer.js:196-201 | Enter does what the send button does; other keys nothing |
| `Renderer.Window.ProcessPoints` | ClientAPP/renderer.js:423-428 | the list is replaced wholesale and the count shows its length |
| `Renderer.Window.ClearPoints` | ClientAPP/renderer.js:297-301 | the list is empty and the count is 0 |
| `Utils.Trimmed` | ClientAPP/js/utils.js:13-15 | the removal loop leaves min(n, 50) entries |
| `Utils.AddMessageKeepsNewest` | ClientAPP/js/utils.js:12-21 | at most 51 entries, the new one last, only the oldest dropped, order kept; a log of ≤50 grows by exactly one |
| `Utils.MessageLog.AddMessage` | ClientAPP/js/utils.js:8-23 | the log becomes its newest 50 entries plus the new message |
| `Utils.ThrottleInvPreserved` | ClientAPP/js/utils.js:26-37 | a window is open exactly while its one timer is pending |
| `Utils.ThrottleRunsFirstOnly` | ClientAPP/js/utils.js:31-35 | of a run of calls, only the first outside a window reaches func, with its arguments |
| `Utils.Throttled.Call` | ClientAPP/js/utils.js:28-36 | the throttle state after a call |
| `Utils.Throttled.TimerFired` | ClientAPP/js/utils.js:34 | the window ends |
| `Utils.DebounceRunsLastOnce` | ClientAPP/js/utils.js:40-48 | a burst runs func not at all until the timeout, then once with the last call's arguments |
| `Utils.Debounced.Call` | ClientAPP/js/utils.js:45-46 | the pending timeout is replaced by one for this call |
| `Utils.Debounced.TimeoutFired` | ClientAPP/js/utils.js:46 | the pending call runs |

## Left out

- Floating point geometry and timing are not modelled.
  - Node size is an integer parameter: the `std::round` derivation from metres, `mm2pix` and the truncating millimetre-to-node casts are not modelled.
  - Also left out: headings, turn and forward times, the 15-degree turn rule, `detectCollisionByScan`'s distances, canvas scaling, zoom, grid lines and the robot overlay's drawing.
  - The tracking loop instead consumes one observation per pass: a collision with its replanned path, a turn, or a forward move that did or did not reach the node.
- Threads, mutexes, sleeps and `join` are left out. The sender threads are reduced to a per-connection running flag in `Registry`. The `exploring_` atomic and the outer explore loop are left out; `SelectFrontier` models one scan.
- trackPathWithExplorationCheck (RobotHandler.h:232-319) is not part of this model; `TrackPath` models `trackPath` as written.
- Foreign libraries are left out.
  - JSON parsing is an `Option<Json>`.
  - The serial port is a byte string: `Port.Connect` takes whether the open succeeds, and a read error is the input running out.
  - Write errors of `send` are not modelled.
  - WebSockets are numbered sockets with a readyState; the window is a boolean at each timer fire.
  - The Gamepad API is a per-tick record of four buttons.
- Lidar coordinates in the points frame are `real`; `coords2index` is modelled on integer coordinates only.
- JS map values are integers. A NaN or a non-number value in the map is not modelled; a missing cell of a short row is.
- DStarLite.Planner.ComputeShortestPath: its loop is bounded by a `fuel` parameter because the source does not bound it. The early exit on `k_old ≥ k_start` is modelled, but the optimality it implies is not proved. Consistency is proved only when the open list drains.
- DStarLite.Planner.Walk: it is bounded by a `fuel` parameter. Reaching the goal in g(start) steps is proved on settled tables with unit costs. The costs are always unit, because `updateNodeCost` is never called with other costs. The tables are settled only when the search drained the open list, which its early exit usually prevents.
- PathFinder.FindPathDStarLite requires a rectangular grid. A row shorter than the first one would make the planner's constructor read past it.
- RobotHandler.SelectFrontier requires coordinates below 2^28, so that Manhattan distances fit the source's `int`. `RobotHandler.GoalNode` requires the map to be at least one node wide, since `std::clamp` with an empty range is undefined.
- Utils.MessageLog.AddMessage counts every child of the log as an element. Text nodes under the container, which `firstChild` could remove first, are not modelled.
- MainProcess.StepKeepsTidy excludes a `terminate` that throws: the socket then stays live while the handle is dropped, as in the source.
- The graymap connection state (renderer.js:153-159), the `debug.js`/`preload.js` wiring and window creation are not part of this model.
- RobotHandler.TrackAsWritten states only the trivial-path rule. `SameWithoutReplan` states that it agrees with the corrected tracking until a replan, and `TwoNodeReplanIsSkipped` states where it diverges.
- PathFinder.FindPathDStarLite states `path == [] || path == [start]` when start is the goal. The first search pass always settles the goal, so the source returns `[start]` there; proving that would need an invariant on the goal's g through every pass of the search.

## Findings

| source | as written | input that shows it | evidently intended | confidence | as-written member | corrected member |
|---|---|---|---|---|---|---|
| RESTAPI_EP/include/RobotHandler.h:92-94 | After a replan, `path_idx = 0; break;` exits the inner loop into the outer loop's `++path_idx`. Tracking of the new path therefore resumes at index 1 and skips its first step. | Path [(0,0),(1,0)]; the first pass sees a collision and replans to [(0,0),(0,1)]. Tracking then reports completion and sends only stop, without driving to (0,1). | Follow the replanned path from its first node, so completion means the last node was reached | not executed | `RobotHandler.TwoNodeReplanIsSkipped` | `RobotHandler.CompletesAtGoal` |
| ClientAPP/main.js:114-126 | The `error` and `close` handlers set `wsClient = null` whichever socket fires them (the same holds for `graymapWsClient` at 168-180). | The sequence connect, open, connect, open of the new socket, then the old socket's close event. The handle becomes null while the new socket is open, so the next `send-message` is dropped and the open socket can never be closed. Close, connect, open, then the terminated socket's late close does the same. | Reset the handle only when the event comes from the socket still held | not executed | `MainProcess.ReconnectOrphansSocket` | `MainProcess.ChannelHandle.SocketEnded` |

The goTo entry points track as written, as the source does; `RobotHandler.TrackPathCorrected` is the loop with the fix.
