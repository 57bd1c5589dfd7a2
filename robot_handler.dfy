/**
 * The discrete decisions of RobotHandler: clamping a goal pixel and the
 * robot's position to node coordinates, the occupancy test of a node, the
 * choice of the nearest unknown node while exploring, and the path
 * tracking loop's early exit, replanning and abort rules.
 *
 * Positions, headings and timings are floating point in the source; here
 * the truncated node coordinates arrive as integers, and the outcome of
 * each pass of the tracking loop (a collision with its replanned path, a
 * turn, or a forward move that did or did not reach the next node) arrives
 * as an observation.
 */
module RobotHandler {
  import opened Common
  import opened DStarLite
  import opened PathFinder

  /** INT_MAX of a 32-bit int, explore's initial min_dist. */
  const IntMax: int := 0x7fff_ffff

  /** C++ integer division, which truncates toward zero. */
  function TruncDiv(a: int, b: int): (q: int)
    requires b > 0
    ensures a >= 0 ==> q == a / b
    ensures a < 0 ==> q <= 0 && a <= q * b < a + b
  {
    if a >= 0 then a / b else
      var p := (-a) / b;
      assert p * b <= -a < p * b + b;
      -p
  }

  /** std::clamp(v, lo, hi), whose behaviour is undefined when hi < lo. */
  function Clamp(v: int, lo: int, hi: int): (r: int)
    requires lo <= hi
    ensures lo <= r <= hi
    ensures lo <= v <= hi ==> r == v
    ensures v < lo ==> r == lo
    ensures v > hi ==> r == hi
  {
    if v < lo then lo else if hi < v then hi else v
  }

  /** goToTarget's goal node: each pixel coordinate divided by the node
      size (clamped to at least 1) and clamped to
      [0, mapPixels / size - 1].  The clamp needs that range non-empty. */
  function GoalNode(xPixel: int, yPixel: int, nodeSizePx: int, mapPixels: int): (goal: Node)
    requires mapPixels >= ClampNodeSize(nodeSizePx)
    ensures var size := ClampNodeSize(nodeSizePx);
      && 0 <= goal.x <= mapPixels / size - 1
      && 0 <= goal.y <= mapPixels / size - 1
      && (0 <= TruncDiv(xPixel, size) <= mapPixels / size - 1 ==> goal.x == TruncDiv(xPixel, size))
      && (0 <= TruncDiv(yPixel, size) <= mapPixels / size - 1 ==> goal.y == TruncDiv(yPixel, size))
      && (xPixel < 0 ==> goal.x == 0)
      && (yPixel < 0 ==> goal.y == 0)
      && (TruncDiv(xPixel, size) > mapPixels / size - 1 ==> goal.x == mapPixels / size - 1)
      && (TruncDiv(yPixel, size) > mapPixels / size - 1 ==> goal.y == mapPixels / size - 1)
  {
    var size := ClampNodeSize(nodeSizePx);
    Node(Clamp(TruncDiv(xPixel, size), 0, mapPixels / size - 1),
         Clamp(TruncDiv(yPixel, size), 0, mapPixels / size - 1))
  }

  /** The goal node always lies inside the node grid updateObstycle builds
      from the same map and node size, since
      mapPixels / size - 1 < ceil(mapPixels / size). */
  lemma GoalInsideNodeGrid(xPixel: int, yPixel: int, nodeSizePx: int, mapPixels: nat)
    requires mapPixels >= ClampNodeSize(nodeSizePx)
    ensures var nodes := CeilDiv(mapPixels, ClampNodeSize(nodeSizePx));
      InGrid(nodes, nodes, GoalNode(xPixel, yPixel, nodeSizePx, mapPixels))
  {
    var size := ClampNodeSize(nodeSizePx);
    FloorBelowCeil(mapPixels, size);
  }

  /** a / b never exceeds ceil(a / b). */
  lemma FloorBelowCeil(a: nat, b: nat)
    requires b >= 1
    ensures a / b <= CeilDiv(a, b)
  {
    var q, c := a / b, CeilDiv(a, b);
    assert q * b <= a by {
      assert a == q * b + a % b;
    }
    assert (c + 1) * b == c * b + b;
    MulMonotone(c + 1, q, b);
  }

  /** planPathToGoal's start node: the truncated position clamped to
      [0, gridSize - 1] on both axes. */
  function StartNode(xRaw: int, yRaw: int, gridSize: int): (start: Node)
    requires gridSize >= 1
    ensures InGrid(gridSize, gridSize, start)
    ensures 0 <= xRaw < gridSize ==> start.x == xRaw
    ensures 0 <= yRaw < gridSize ==> start.y == yRaw
    ensures xRaw < 0 ==> start.x == 0
    ensures yRaw < 0 ==> start.y == 0
    ensures xRaw >= gridSize ==> start.x == gridSize - 1
    ensures yRaw >= gridSize ==> start.y == gridSize - 1
  {
    Node(Clamp(xRaw, 0, gridSize - 1), Clamp(yRaw, 0, gridSize - 1))
  }

  /** detectCollision: false off the grid, else whether the node is an
      obstacle. */
  function DetectCollision(grid: seq<seq<byte>>, xNode: int, yNode: int): (hit: bool)
    requires Rectangular(grid)
    ensures hit <==> InGrid(if |grid| == 0 then 0 else |grid[0]|, |grid|, Node(xNode, yNode)) &&
                     grid[yNode][xNode] == Obstacle
  {
    if yNode < 0 || yNode >= |grid| || xNode < 0 || xNode >= |grid[0]| then false
    else grid[yNode][xNode] == 1
  }

  /** No cell after the first of a planned path collides. */
  lemma PlannedCellsDoNotCollide(grid: seq<seq<byte>>, path: seq<Node>, i: int)
    requires Rectangular(grid) && |grid| > 0 && 0 < i < |path|
    requires forall k :: 0 < k < |path| ==>
               InGrid(|grid[0]|, |grid|, path[k]) && grid[path[k].y][path[k].x] != Obstacle
    ensures !DetectCollision(grid, path[i].x, path[i].y)
  {
  }

  /** Manhattan distance from the robot's node. */
  function Dist(x: int, y: int, xNode: int, yNode: int): nat
  {
    Abs(x - xNode) + Abs(y - yNode)
  }

  /** Cell (x1, y1) comes before (x2, y2) in row-major order. */
  predicate Before(x1: int, y1: int, x2: int, y2: int)
  {
    y1 < y2 || (y1 == y2 && x1 < x2)
  }

  /** An unknown node of the grid. */
  predicate IsUnknown(grid: seq<seq<byte>>, x: int, y: int)
  {
    0 <= y < |grid| && 0 <= x < |grid[y]| && grid[y][x] == Unknown
  }

  /** No unknown node comes before (x, y) in row-major order. */
  ghost predicate NoneBefore(grid: seq<seq<byte>>, x: int, y: int)
  {
    forall j, i :: IsUnknown(grid, i, j) ==> !Before(i, j, x, y)
  }

  /** `best` is the answer for the nodes before (x, y): an unknown node
      there, no farther than any other, and strictly nearer than those
      before it. */
  ghost predicate BestBefore(grid: seq<seq<byte>>, best: Node, x: int, y: int, xNode: int, yNode: int)
  {
    && IsUnknown(grid, best.x, best.y) && Before(best.x, best.y, x, y)
    && (forall j, i :: IsUnknown(grid, i, j) && Before(i, j, x, y) ==>
          Dist(best.x, best.y, xNode, yNode) <= Dist(i, j, xNode, yNode))
    && (forall j, i :: IsUnknown(grid, i, j) && Before(i, j, best.x, best.y) ==>
          Dist(best.x, best.y, xNode, yNode) < Dist(i, j, xNode, yNode))
  }

  /** The scan passes (x, y) without a new best: nothing unknown yet. */
  lemma ScanNone(grid: seq<seq<byte>>, x: int, y: int)
    requires 0 <= y < |grid| && 0 <= x < |grid[y]| && grid[y][x] != Unknown
    requires NoneBefore(grid, x, y)
    ensures NoneBefore(grid, x + 1, y)
  {
    forall j, i | IsUnknown(grid, i, j)
      ensures !Before(i, j, x + 1, y)
    {
      assert !Before(i, j, x, y);
    }
  }

  /** The scan passes (x, y) and keeps `best`, which is no farther. */
  lemma ScanKeep(grid: seq<seq<byte>>, best: Node, x: int, y: int, xNode: int, yNode: int)
    requires 0 <= y < |grid| && 0 <= x < |grid[y]|
    requires BestBefore(grid, best, x, y, xNode, yNode)
    requires grid[y][x] == Unknown ==> Dist(best.x, best.y, xNode, yNode) <= Dist(x, y, xNode, yNode)
    ensures BestBefore(grid, best, x + 1, y, xNode, yNode)
  {
    forall j, i | IsUnknown(grid, i, j) && Before(i, j, x + 1, y)
      ensures Dist(best.x, best.y, xNode, yNode) <= Dist(i, j, xNode, yNode)
    {
      if Before(i, j, x, y) {
      } else {
        assert i == x && j == y;
      }
    }
  }

  /** The scan finds at (x, y) an unknown node strictly nearer than every
      one before it, which becomes the new best. */
  lemma ScanReplace(grid: seq<seq<byte>>, best: Node, x: int, y: int, xNode: int, yNode: int)
    requires IsUnknown(grid, x, y)
    requires NoneBefore(grid, x, y) ||
             (BestBefore(grid, best, x, y, xNode, yNode) && Dist(x, y, xNode, yNode) < Dist(best.x, best.y, xNode, yNode))
    ensures BestBefore(grid, Node(x, y), x + 1, y, xNode, yNode)
  {
    forall j, i | IsUnknown(grid, i, j) && Before(i, j, x, y)
      ensures Dist(x, y, xNode, yNode) < Dist(i, j, xNode, yNode)
    {
      assert !NoneBefore(grid, x, y);
    }
  }

  /** The end of row y is the start of row y + 1. */
  lemma RowDone(grid: seq<seq<byte>>, best: Node, y: int, xNode: int, yNode: int)
    requires 0 <= y < |grid|
    ensures NoneBefore(grid, |grid[y]|, y) ==> NoneBefore(grid, 0, y + 1)
    ensures BestBefore(grid, best, |grid[y]|, y, xNode, yNode) ==> BestBefore(grid, best, 0, y + 1, xNode, yNode)
  {
    assert forall j, i :: IsUnknown(grid, i, j) ==> (Before(i, j, |grid[y]|, y) <==> Before(i, j, 0, y + 1));
  }

  /** Every unknown node comes before the end of the grid. */
  lemma ScanDone(grid: seq<seq<byte>>, best: Node, xNode: int, yNode: int)
    ensures NoneBefore(grid, 0, |grid|) ==> forall y, x :: !IsUnknown(grid, x, y)
    ensures BestBefore(grid, best, 0, |grid|, xNode, yNode) ==>
              forall y, x :: IsUnknown(grid, x, y) ==> Dist(best.x, best.y, xNode, yNode) <= Dist(x, y, xNode, yNode)
  {
    assert forall j, i :: IsUnknown(grid, i, j) ==> Before(i, j, 0, |grid|);
  }

  /** explore's scan of the node grid for the nearest unknown node: the
      first unknown node in row-major order among those at minimal
      Manhattan distance, or (-1, -1) when there is none.  The bounds keep
      every distance below INT_MAX, as 32-bit ints require. */
  method SelectFrontier(grid: seq<seq<byte>>, xNode: int, yNode: int) returns (best: Node)
    requires |grid| < 0x1000_0000 && forall y :: 0 <= y < |grid| ==> |grid[y]| < 0x1000_0000
    requires -0x1000_0000 < xNode < 0x1000_0000 && -0x1000_0000 < yNode < 0x1000_0000
    ensures best == Node(-1, -1) <==> forall y, x :: !IsUnknown(grid, x, y)
    ensures best != Node(-1, -1) ==> IsUnknown(grid, best.x, best.y)
    ensures best != Node(-1, -1) ==> forall y, x :: IsUnknown(grid, x, y) ==>
              Dist(best.x, best.y, xNode, yNode) <= Dist(x, y, xNode, yNode)
    ensures best != Node(-1, -1) ==> forall y, x :: IsUnknown(grid, x, y) && Before(x, y, best.x, best.y) ==>
              Dist(best.x, best.y, xNode, yNode) < Dist(x, y, xNode, yNode)
  {
    best := Node(-1, -1);
    var minDist := IntMax;
    for y := 0 to |grid|
      invariant best == Node(-1, -1) ==> NoneBefore(grid, 0, y) && minDist == IntMax
      invariant best != Node(-1, -1) ==> BestBefore(grid, best, 0, y, xNode, yNode) && minDist == Dist(best.x, best.y, xNode, yNode)
    {
      for x := 0 to |grid[y]|
        invariant best == Node(-1, -1) ==> NoneBefore(grid, x, y) && minDist == IntMax
        invariant best != Node(-1, -1) ==> BestBefore(grid, best, x, y, xNode, yNode) && minDist == Dist(best.x, best.y, xNode, yNode)
      {
        if grid[y][x] == 2 {
          var dist := Abs(x - xNode) + Abs(y - yNode);
          if dist < minDist {
            ScanReplace(grid, best, x, y, xNode, yNode);
            minDist := dist;
            best := Node(x, y);
          } else {
            ScanKeep(grid, best, x, y, xNode, yNode);
          }
        } else if best == Node(-1, -1) {
          ScanNone(grid, x, y);
        } else {
          ScanKeep(grid, best, x, y, xNode, yNode);
        }
      }
      RowDone(grid, best, y, xNode, yNode);
    }
    ScanDone(grid, best, xNode, yNode);
  }

  /** What one pass of trackPath's inner loop observed. */
  datatype Observation =
    | Collision(newPath: seq<Node>)   // detectCollisionByScan fired; the replanned path
    | Turn                            // heading off by more than 15 degrees: turn, stop
    | Forward(reached: bool)          // drove forward, stopped; whether next_node was reached

  /** The motor commands sent to the Arduino. */
  datatype Command = TurnCmd | ForwardCmd | StopCmd

  datatype Outcome =
    | Trivial      // path of size 0 or 1: nothing to track
    | Completed    // walked the whole path
    | Aborted      // replanning gave no path or exceeded 5 attempts
    | Stuck        // more than 100 forward moves without reaching a node
    | OutOfInput   // the observations ran out first

  /** The replan limit: tracking aborts once recalc_attempts exceeds it. */
  const MaxReplans: nat := 5
  /** The stuck limit: tracking aborts once stuck_counter exceeds it. */
  const MaxStuck: nat := 100

  /** trackPath's local state: the path being followed, the index of the
      node the robot is at, the replan and stuck counters, the commands
      sent so far and the next_node of every pass that reached it. */
  datatype Tracking = Tracking(
    current: seq<Node>,
    pathIdx: nat,
    attempts: nat,
    stuck: nat,
    commands: seq<Command>,
    reachedNodes: seq<Node>)

  /** The tracking loop from state t over the remaining observations.
      After a replan, tracking of the new path resumes at index
      `resumeAt`. */
  function Track(t: Tracking, obs: seq<Observation>, resumeAt: nat): (r: (Tracking, Outcome))
    ensures r.1 != Trivial
    decreases |obs|
  {
    if t.pathIdx + 1 >= |t.current| then (t.(commands := t.commands + [StopCmd]), Completed)
    else if obs == [] then (t, OutOfInput)
    else
      match obs[0]
      case Collision(newPath) =>
        var attempts := t.attempts + 1;
        if newPath == [] || attempts > MaxReplans then
          (t.(attempts := attempts, commands := t.commands + [StopCmd]), Aborted)
        else
          Track(Tracking(newPath, resumeAt, attempts, 0, t.commands, t.reachedNodes), obs[1..], resumeAt)
      case Turn =>
        Track(t.(commands := t.commands + [TurnCmd, StopCmd]), obs[1..], resumeAt)
      case Forward(reached) =>
        var commands := t.commands + [ForwardCmd, StopCmd];
        if reached then
          Track(t.(pathIdx := t.pathIdx + 1, stuck := 0, commands := commands,
                   reachedNodes := t.reachedNodes + [t.current[t.pathIdx + 1]]), obs[1..], resumeAt)
        else if t.stuck + 1 > MaxStuck then
          (t.(stuck := t.stuck + 1, commands := commands + [StopCmd]), Stuck)
        else
          Track(t.(stuck := t.stuck + 1, commands := commands), obs[1..], resumeAt)
  }

  /** Every way tracking ends, except running out of observations, sends
      stop last; and at most MaxReplans replanned paths are ever followed,
      the attempt after that aborting. */
  lemma {:induction false} TrackEndsWithStop(t: Tracking, obs: seq<Observation>, resumeAt: nat)
    requires t.attempts <= MaxReplans
    ensures var r := Track(t, obs, resumeAt);
      && (r.1 in {Completed, Aborted, Stuck} ==> |r.0.commands| > 0 && r.0.commands[|r.0.commands| - 1] == StopCmd)
      && r.0.attempts <= MaxReplans + 1
      && (r.1 != Aborted ==> r.0.attempts <= MaxReplans)
    decreases |obs|
  {
    if t.pathIdx + 1 < |t.current| && obs != [] {
      match obs[0]
      case Collision(newPath) =>
        if newPath != [] && t.attempts + 1 <= MaxReplans {
          TrackEndsWithStop(Tracking(newPath, resumeAt, t.attempts + 1, 0, t.commands, t.reachedNodes), obs[1..], resumeAt);
        }
      case Turn =>
        TrackEndsWithStop(t.(commands := t.commands + [TurnCmd, StopCmd]), obs[1..], resumeAt);
      case Forward(reached) =>
        var commands := t.commands + [ForwardCmd, StopCmd];
        if reached {
          TrackEndsWithStop(t.(pathIdx := t.pathIdx + 1, stuck := 0, commands := commands,
                               reachedNodes := t.reachedNodes + [t.current[t.pathIdx + 1]]), obs[1..], resumeAt);
        } else if t.stuck + 1 <= MaxStuck {
          TrackEndsWithStop(t.(stuck := t.stuck + 1, commands := commands), obs[1..], resumeAt);
        }
    }
  }

  /** trackPath: nothing for a path of size 0 or 1, else the tracking loop
      from the path's first node. */
  function TrackSpec(path: seq<Node>, obs: seq<Observation>, resumeAt: nat): (r: (Tracking, Outcome))
  {
    if |path| <= 1 then (Tracking(path, 0, 0, 0, [], []), Trivial)
    else Track(Tracking(path, 0, 0, 0, [], []), obs, resumeAt)
  }

  /** trackPath as written: after a replan path_idx is reset to 0, but the
      inner loop's `break` falls through to `++path_idx`, so tracking of
      the new path resumes at index 1. */
  function TrackAsWritten(path: seq<Node>, obs: seq<Observation>): (r: (Tracking, Outcome))
    ensures |path| <= 1 <==> r.1 == Trivial
    ensures r.1 == Trivial ==> r.0.commands == []
  {
    TrackSpec(path, obs, 1)
  }

  /** Without a replan the loop as written and the corrected loop take the
      same course: they differ only in where a replanned path resumes. */
  lemma {:induction false} SameWithoutReplan(t: Tracking, obs: seq<Observation>)
    requires forall i :: 0 <= i < |obs| ==> !obs[i].Collision?
    ensures Track(t, obs, 1) == Track(t, obs, 0)
    decreases |obs|
  {
    if t.pathIdx + 1 < |t.current| && obs != [] {
      var rest := obs[1..];
      assert !obs[0].Collision?;
      assert forall i :: 0 <= i < |rest| ==> !rest[i].Collision? by {
        forall i | 0 <= i < |rest|
          ensures !rest[i].Collision?
        {
          assert rest[i] == obs[i + 1];
        }
      }
      match obs[0]
      case Collision(_) =>
        assert false;
      case Turn =>
        SameWithoutReplan(t.(commands := t.commands + [TurnCmd, StopCmd]), rest);
      case Forward(reached) =>
        var commands := t.commands + [ForwardCmd, StopCmd];
        if reached {
          SameWithoutReplan(t.(pathIdx := t.pathIdx + 1, stuck := 0, commands := commands,
                               reachedNodes := t.reachedNodes + [t.current[t.pathIdx + 1]]), rest);
        } else if t.stuck + 1 <= MaxStuck {
          SameWithoutReplan(t.(stuck := t.stuck + 1, commands := commands), rest);
        }
    }
  }

  /** A replan to a two-node path [robot node, goal] is never followed as
      written: tracking reports completion without a single move towards
      the goal.  Tracking with the fix is still waiting to reach it. */
  lemma TwoNodeReplanIsSkipped()
    ensures var path := [Node(0, 0), Node(1, 0)];
      var obs := [Collision([Node(0, 0), Node(0, 1)])];
      && TrackAsWritten(path, obs).1 == Completed
      && TrackAsWritten(path, obs).0.reachedNodes == []
      && TrackAsWritten(path, obs).0.commands == [StopCmd]
      && TrackSpec(path, obs, 0).1 == OutOfInput
      && TrackSpec(path, obs + [Forward(true)], 0).1 == Completed
      && TrackSpec(path, obs + [Forward(true)], 0).0.reachedNodes == [Node(0, 1)]
  {
    var path := [Node(0, 0), Node(1, 0)];
    var obs := [Collision([Node(0, 0), Node(0, 1)])];
    var np := [Node(0, 0), Node(0, 1)];
    assert obs[1..] == [];
    assert (obs + [Forward(true)])[1..] == [Forward(true)];
    assert [Forward(true)][1..] == [];
    var t1 := Tracking(np, 0, 1, 0, [], []);
    assert TrackSpec(path, obs + [Forward(true)], 0) == Track(t1, [Forward(true)], 0);
  }

  /** With the fix (resume at index 0), the robot is at the node of the
      followed path at pathIdx: once pathIdx is past the first node, the
      last node reached is current[pathIdx]. */
  ghost predicate AtPathNode(t: Tracking)
  {
    t.pathIdx < |t.current| &&
    (t.pathIdx > 0 ==> t.reachedNodes != [] && t.reachedNodes[|t.reachedNodes| - 1] == t.current[t.pathIdx])
  }

  /** With the fix, tracking that completes on a path of two or more nodes
      has reached that path's last node. */
  lemma {:induction false} CompletesAtGoal(t: Tracking, obs: seq<Observation>)
    requires AtPathNode(t)
    ensures var r := Track(t, obs, 0);
      r.1 == Completed && |r.0.current| >= 2 ==>
        r.0.reachedNodes != [] && r.0.reachedNodes[|r.0.reachedNodes| - 1] == r.0.current[|r.0.current| - 1]
    decreases |obs|
  {
    if t.pathIdx + 1 < |t.current| && obs != [] {
      match obs[0]
      case Collision(newPath) =>
        if newPath != [] && t.attempts + 1 <= MaxReplans {
          CompletesAtGoal(Tracking(newPath, 0, t.attempts + 1, 0, t.commands, t.reachedNodes), obs[1..]);
        }
      case Turn =>
        CompletesAtGoal(t.(commands := t.commands + [TurnCmd, StopCmd]), obs[1..]);
      case Forward(reached) =>
        var commands := t.commands + [ForwardCmd, StopCmd];
        if reached {
          CompletesAtGoal(t.(pathIdx := t.pathIdx + 1, stuck := 0, commands := commands,
                             reachedNodes := t.reachedNodes + [t.current[t.pathIdx + 1]]), obs[1..]);
        } else if t.stuck + 1 <= MaxStuck {
          CompletesAtGoal(t.(stuck := t.stuck + 1, commands := commands), obs[1..]);
        }
    }
  }

  /** With the fix, a run of forward moves that each reach their node
      follows the rest of the path node by node and completes. */
  lemma {:induction false} FollowsPath(t: Tracking, k: nat)
    requires t.pathIdx + k + 1 == |t.current|
    ensures var r := Track(t, seq(k, _ => Forward(true)), 0);
      r.1 == Completed && r.0.reachedNodes == t.reachedNodes + t.current[t.pathIdx + 1..]
    decreases k
  {
    var obs := seq(k, _ => Forward(true));
    if k == 0 {
      assert t.current[t.pathIdx + 1..] == [];
    } else {
      assert obs[0] == Forward(true);
      assert obs[1..] == seq(k - 1, _ => Forward(true));
      var t' := t.(pathIdx := t.pathIdx + 1, stuck := 0, commands := t.commands + [ForwardCmd, StopCmd],
                   reachedNodes := t.reachedNodes + [t.current[t.pathIdx + 1]]);
      FollowsPath(t', k - 1);
      assert t.current[t.pathIdx + 1..] == [t.current[t.pathIdx + 1]] + t.current[t.pathIdx + 2..];
    }
  }

  /** One pass of the tracking loop, unfolded: the first observation
      decides the next state, or the outcome. */
  lemma ReplanStep(t: Tracking, newPath: seq<Node>, obs: seq<Observation>, resumeAt: nat)
    requires t.pathIdx + 1 < |t.current| && newPath != [] && t.attempts + 1 <= MaxReplans
    requires obs != [] && obs[0] == Collision(newPath)
    ensures Track(t, obs, resumeAt) ==
            Track(Tracking(newPath, resumeAt, t.attempts + 1, 0, t.commands, t.reachedNodes), obs[1..], resumeAt)
  {
  }

  lemma TurnStep(t: Tracking, obs: seq<Observation>, resumeAt: nat)
    requires t.pathIdx + 1 < |t.current| && obs != [] && obs[0] == Turn
    ensures Track(t, obs, resumeAt) == Track(t.(commands := t.commands + [TurnCmd, StopCmd]), obs[1..], resumeAt)
  {
  }

  lemma ReachStep(t: Tracking, obs: seq<Observation>, resumeAt: nat)
    requires t.pathIdx + 1 < |t.current| && obs != [] && obs[0] == Forward(true)
    ensures Track(t, obs, resumeAt) ==
            Track(t.(pathIdx := t.pathIdx + 1, stuck := 0, commands := t.commands + [ForwardCmd, StopCmd],
                     reachedNodes := t.reachedNodes + [t.current[t.pathIdx + 1]]), obs[1..], resumeAt)
  {
  }

  lemma AbortStep(t: Tracking, newPath: seq<Node>, obs: seq<Observation>, resumeAt: nat)
    requires t.pathIdx + 1 < |t.current| && (newPath == [] || t.attempts + 1 > MaxReplans)
    requires obs != [] && obs[0] == Collision(newPath)
    ensures Track(t, obs, resumeAt) == (t.(attempts := t.attempts + 1, commands := t.commands + [StopCmd]), Aborted)
  {
  }

  lemma StuckStep(t: Tracking, obs: seq<Observation>, resumeAt: nat)
    requires t.pathIdx + 1 < |t.current| && t.stuck + 1 > MaxStuck
    requires obs != [] && obs[0] == Forward(false)
    ensures Track(t, obs, resumeAt) ==
            (t.(stuck := t.stuck + 1, commands := t.commands + [ForwardCmd, StopCmd] + [StopCmd]), Stuck)
  {
  }

  lemma MissStep(t: Tracking, obs: seq<Observation>, resumeAt: nat)
    requires t.pathIdx + 1 < |t.current| && t.stuck + 1 <= MaxStuck
    requires obs != [] && obs[0] == Forward(false)
    ensures Track(t, obs, resumeAt) ==
            Track(t.(stuck := t.stuck + 1, commands := t.commands + [ForwardCmd, StopCmd]), obs[1..], resumeAt)
  {
  }

  /** trackPath as written.  The observations drive the loop; it returns
      OutOfInput when they run out.  A replan sets path_idx to 0 and
      breaks out of the inner loop, and the outer loop's ++path_idx then
      runs as it does after a reached node. */
  method TrackPath(path: seq<Node>, obs: seq<Observation>)
    returns (commands: seq<Command>, reachedNodes: seq<Node>, outcome: Outcome)
    ensures commands == TrackAsWritten(path, obs).0.commands
    ensures reachedNodes == TrackAsWritten(path, obs).0.reachedNodes
    ensures outcome == TrackAsWritten(path, obs).1
  {
    if |path| <= 1 {
      return [], [], Trivial;
    }
    ghost var final := Track(Tracking(path, 0, 0, 0, [], []), obs, 1);
    commands, reachedNodes := [], [];
    var current := path;
    var pathIdx := 0;
    var attempts := 0;
    var k := 0;
    while pathIdx + 1 < |current|
      invariant 0 <= k <= |obs|
      invariant Track(Tracking(current, pathIdx, attempts, 0, commands, reachedNodes), obs[k..], 1) == final
      decreases |obs| - k
    {
      var next := current[pathIdx + 1];
      var stuckCounter := 0;
      var reached := false;
      ghost var k0 := k;
      while !reached
        invariant k0 <= k <= |obs|
        invariant pathIdx + 1 < |current| && next == current[pathIdx + 1]
        invariant reached ==> k > k0
        invariant Track(Tracking(current, if reached then pathIdx + 1 else pathIdx, attempts,
                                 if reached then 0 else stuckCounter, commands, reachedNodes),
                        obs[k..], 1) == final
        decreases |obs| - k
      {
        if k == |obs| {
          return commands, reachedNodes, OutOfInput;
        }
        var o := obs[k];
        ghost var t := Tracking(current, pathIdx, attempts, stuckCounter, commands, reachedNodes);
        ghost var here := obs[k..];
        assert here[0] == o && here[1..] == obs[k + 1..];
        k := k + 1;
        match o {
          case Collision(newPath) =>
            attempts := attempts + 1;
            if newPath == [] || attempts > MaxReplans {
              AbortStep(t, newPath, here, 1);
              commands := commands + [StopCmd];
              return commands, reachedNodes, Aborted;
            }
            ReplanStep(t, newPath, here, 1);
            current := newPath;
            pathIdx := 0;
            break;
          case Turn =>
            TurnStep(t, here, 1);
            commands := commands + [TurnCmd, StopCmd];
          case Forward(r) =>
            commands := commands + [ForwardCmd, StopCmd];
            if r {
              ReachStep(t, here, 1);
              reachedNodes := reachedNodes + [next];
              reached := true;
            } else {
              stuckCounter := stuckCounter + 1;
              if stuckCounter > MaxStuck {
                StuckStep(t, here, 1);
                commands := commands + [StopCmd];
                return commands, reachedNodes, Stuck;
              }
              MissStep(t, here, 1);
            }
        }
      }
      pathIdx := pathIdx + 1;
    }
    commands := commands + [StopCmd];
    outcome := Completed;
  }

  /** trackPath corrected: tracking of a replanned path resumes at its
      first node, the inner loop exiting to the outer loop without
      advancing path_idx. */
  method TrackPathCorrected(path: seq<Node>, obs: seq<Observation>)
    returns (commands: seq<Command>, reachedNodes: seq<Node>, outcome: Outcome)
    ensures commands == TrackSpec(path, obs, 0).0.commands
    ensures reachedNodes == TrackSpec(path, obs, 0).0.reachedNodes
    ensures outcome == TrackSpec(path, obs, 0).1
    ensures |path| <= 1 <==> outcome == Trivial
    ensures outcome == Trivial ==> commands == []
  {
    if |path| <= 1 {
      return [], [], Trivial;
    }
    ghost var final := Track(Tracking(path, 0, 0, 0, [], []), obs, 0);
    commands, reachedNodes := [], [];
    var current := path;
    var pathIdx := 0;
    var attempts := 0;
    var k := 0;
    while pathIdx + 1 < |current|
      invariant 0 <= k <= |obs| && pathIdx < |current|
      invariant Track(Tracking(current, pathIdx, attempts, 0, commands, reachedNodes), obs[k..], 0) == final
      decreases |obs| - k
    {
      var next := current[pathIdx + 1];
      var stuckCounter := 0;
      var reached, replanned := false, false;
      ghost var k0 := k;
      while !reached && !replanned
        invariant k0 <= k <= |obs|
        invariant !replanned ==> pathIdx + 1 < |current| && next == current[pathIdx + 1]
        invariant reached || replanned ==> k > k0
        invariant !(reached && replanned)
        invariant !replanned ==> Track(Tracking(current, if reached then pathIdx + 1 else pathIdx, attempts,
                                                if reached then 0 else stuckCounter, commands, reachedNodes),
                                       obs[k..], 0) == final
        invariant replanned ==> pathIdx == 0 && 0 < |current| &&
                                Track(Tracking(current, 0, attempts, 0, commands, reachedNodes), obs[k..], 0) == final
        decreases |obs| - k
      {
        if k == |obs| {
          return commands, reachedNodes, OutOfInput;
        }
        var o := obs[k];
        ghost var t := Tracking(current, pathIdx, attempts, stuckCounter, commands, reachedNodes);
        ghost var here := obs[k..];
        assert here[0] == o && here[1..] == obs[k + 1..];
        k := k + 1;
        match o {
          case Collision(newPath) =>
            attempts := attempts + 1;
            if newPath == [] || attempts > MaxReplans {
              AbortStep(t, newPath, here, 0);
              commands := commands + [StopCmd];
              return commands, reachedNodes, Aborted;
            }
            ReplanStep(t, newPath, here, 0);
            current := newPath;
            pathIdx := 0;
            replanned := true;
          case Turn =>
            TurnStep(t, here, 0);
            commands := commands + [TurnCmd, StopCmd];
          case Forward(r) =>
            commands := commands + [ForwardCmd, StopCmd];
            if r {
              ReachStep(t, here, 0);
              reachedNodes := reachedNodes + [next];
              reached := true;
            } else {
              stuckCounter := stuckCounter + 1;
              if stuckCounter > MaxStuck {
                StuckStep(t, here, 0);
                commands := commands + [StopCmd];
                return commands, reachedNodes, Stuck;
              }
              MissStep(t, here, 0);
            }
        }
      }
      if reached {
        pathIdx := pathIdx + 1;
      }
    }
    commands := commands + [StopCmd];
    outcome := Completed;
  }

  /** planPathToGoal: build the node grid, clamp the robot's node into it
      and plan to the goal node.  xRaw and yRaw are the robot's position
      already converted to (unclamped) node coordinates. */
  method PlanPathToGoal(mapData: seq<byte>, nodeSizePx: int, mapPixels: nat, xRaw: int, yRaw: int, goal: Node,
                        searchFuel: nat, walkFuel: nat)
    returns (path: seq<Node>)
    requires mapPixels >= 1 && mapPixels * mapPixels <= |mapData|
    ensures var nodes := CeilDiv(mapPixels, ClampNodeSize(nodeSizePx));
      && (!InGrid(nodes, nodes, goal) ==> path == [])
      && (path != [] ==> path[0] == StartNode(xRaw, yRaw, nodes))
      && (forall i :: 0 < i < |path| ==> Heuristic(path[i - 1], path[i]) == 1 && InGrid(nodes, nodes, path[i]))
  {
    var grid := UpdateObstacle(mapData, nodeSizePx, mapPixels);
    var nodes := |grid|;
    assert nodes >= 1 by {
      var c := CeilDiv(mapPixels, ClampNodeSize(nodeSizePx));
      assert c * ClampNodeSize(nodeSizePx) >= mapPixels;
    }
    var start := StartNode(xRaw, yRaw, nodes);
    path := FindPathDStarLite(grid, start, goal, searchFuel, walkFuel);
  }

  /** goToGoal: plan, and track the path only when there is one. */
  method GoToGoal(mapData: seq<byte>, nodeSizePx: int, mapPixels: nat, xRaw: int, yRaw: int, goal: Node,
                  obs: seq<Observation>, searchFuel: nat, walkFuel: nat)
    returns (path: seq<Node>, commands: seq<Command>, outcome: Outcome)
    requires mapPixels >= 1 && mapPixels * mapPixels <= |mapData|
    ensures path == [] ==> commands == [] && outcome == Trivial
    ensures path != [] ==> commands == TrackAsWritten(path, obs).0.commands && outcome == TrackAsWritten(path, obs).1
  {
    path := PlanPathToGoal(mapData, nodeSizePx, mapPixels, xRaw, yRaw, goal, searchFuel, walkFuel);
    commands, outcome := [], Trivial;
    if path != [] {
      var reachedNodes;
      commands, reachedNodes, outcome := TrackPath(path, obs);
    }
  }

  /** goToTarget: the goal node from a pixel, which always lies inside the
      node grid, then as goToGoal. */
  method GoToTarget(mapData: seq<byte>, nodeSizePx: int, mapPixels: nat, xPixel: int, yPixel: int,
                    xRaw: int, yRaw: int, obs: seq<Observation>, searchFuel: nat, walkFuel: nat)
    returns (goal: Node, path: seq<Node>, commands: seq<Command>, outcome: Outcome)
    requires mapPixels >= ClampNodeSize(nodeSizePx) && mapPixels * mapPixels <= |mapData|
    ensures goal == GoalNode(xPixel, yPixel, nodeSizePx, mapPixels)
    ensures var nodes := CeilDiv(mapPixels, ClampNodeSize(nodeSizePx)); InGrid(nodes, nodes, goal)
    ensures path == [] ==> commands == [] && outcome == Trivial
    ensures path != [] ==> commands == TrackAsWritten(path, obs).0.commands && outcome == TrackAsWritten(path, obs).1
  {
    goal := GoalNode(xPixel, yPixel, nodeSizePx, mapPixels);
    GoalInsideNodeGrid(xPixel, yPixel, nodeSizePx, mapPixels);
    path, commands, outcome := GoToGoal(mapData, nodeSizePx, mapPixels, xRaw, yRaw, goal, obs, searchFuel, walkFuel);
  }
}
