/**
 * The static helpers of PathFinder: thresholding a byte map into a grid,
 * down-sampling an occupancy map into the node grid of free (0), obstacle
 * (1) and unknown (2) nodes, and the guarded entry point of the D* Lite
 * planner.
 */
module PathFinder {
  import opened Common
  import opened Costs
  import opened DStarLite

  const Free: byte := 0
  const Obstacle: byte := 1
  const Unknown: byte := 2

  /** ConvertMapToGrid: a height x width grid whose cell is 1 exactly when
      its byte of the row-major map is above the threshold. */
  method ConvertMapToGrid(mapData: seq<byte>, width: int, height: int, threshold: byte) returns (grid: seq<seq<byte>>)
    requires 0 <= width && 0 <= height && width * height <= |mapData|
    ensures |grid| == height
    ensures forall y :: 0 <= y < height ==> |grid[y]| == width
    ensures forall y, x :: 0 <= y < height && 0 <= x < width ==>
              RowMajor(width, x, y) < |mapData| &&
              (grid[y][x] == 1 <==> mapData[RowMajor(width, x, y)] > threshold) &&
              (grid[y][x] == 0 <==> mapData[RowMajor(width, x, y)] <= threshold)
  {
    grid := [];
    for y := 0 to height
      invariant |grid| == y
      invariant forall j :: 0 <= j < y ==> |grid[j]| == width
      invariant forall j, x :: 0 <= j < y && 0 <= x < width ==>
                  RowMajor(width, x, j) < |mapData| &&
                  grid[j][x] == if mapData[RowMajor(width, x, j)] > threshold then 1 else 0
    {
      var row := [];
      for x := 0 to width
        invariant |row| == x
        invariant forall i :: 0 <= i < x ==>
                    RowMajor(width, i, y) < |mapData| &&
                    row[i] == if mapData[RowMajor(width, i, y)] > threshold then 1 else 0
      {
        RowMajorInRange(width, height, x, y);
        row := row + [if mapData[y * width + x] > threshold then 1 else 0];
      }
      grid := grid + [row];
    }
  }

  /** ceil(a / b) for a >= 0 and b >= 1, as std::ceil of the float quotient. */
  function CeilDiv(a: nat, b: nat): (r: nat)
    requires b >= 1
    ensures (r - 1) * b < a <= r * b || (a == 0 && r == 0)
  {
    CeilDivBounds(a, b);
    (a + b - 1) / b
  }

  lemma CeilDivBounds(a: nat, b: nat)
    requires b >= 1
    ensures var r := (a + b - 1) / b; (r - 1) * b < a <= r * b || (a == 0 && r == 0)
  {
    var r := (a + b - 1) / b;
    var m := (a + b - 1) % b;
    assert a + b - 1 == r * b + m;
    assert (r - 1) * b == r * b - b;
  }

  /** The node size after the clamp `if (node_size_px < 1) node_size_px = 1`. */
  function ClampNodeSize(raw: int): (size: nat)
    ensures size >= 1
    ensures raw >= 1 ==> size == raw
  {
    if raw < 1 then 1 else raw
  }

  /** The half-open pixel range [n*size, min((n+1)*size, mapPixels)) of node
      n on one axis. */
  function BlockStart(n: nat, size: nat): nat
  {
    n * size
  }

  function BlockEnd(n: nat, size: nat, mapPixels: nat): nat
  {
    if (n + 1) * size < mapPixels then (n + 1) * size else mapPixels
  }

  /** Every node's block is non-empty and inside the map. */
  lemma BlockNonEmpty(n: nat, size: nat, mapPixels: nat)
    requires size >= 1 && n < CeilDiv(mapPixels, size)
    ensures BlockStart(n, size) < BlockEnd(n, size, mapPixels) <= mapPixels
  {
    var r := CeilDiv(mapPixels, size);
    assert n <= r - 1;
    assert n * size <= (r - 1) * size;
  }

  /** Sum of the bytes at columns [x0, x1) of pixel row py. */
  function RowSum(mapData: seq<byte>, mapPixels: nat, py: nat, x0: nat, x1: nat): int
    requires x0 <= x1 <= mapPixels && py < mapPixels && mapPixels * mapPixels <= |mapData|
    decreases x1 - x0
  {
    if x1 == x0 then 0
    else
      RowMajorInRange(mapPixels, mapPixels, x1 - 1, py);
      RowSum(mapData, mapPixels, py, x0, x1 - 1) + mapData[RowMajor(mapPixels, x1 - 1, py)] as int
  }

  /** Sum of the bytes of rows [y0, y1), columns [x0, x1). */
  function BlockSum(mapData: seq<byte>, mapPixels: nat, y0: nat, y1: nat, x0: nat, x1: nat): int
    requires y0 <= y1 <= mapPixels && x0 <= x1 <= mapPixels && mapPixels * mapPixels <= |mapData|
    decreases y1 - y0
  {
    if y1 == y0 then 0
    else BlockSum(mapData, mapPixels, y0, y1 - 1, x0, x1) + RowSum(mapData, mapPixels, y1 - 1, x0, x1)
  }

  /** A block sum lies between 0 and 255 per pixel. */
  lemma {:induction false} RowSumBounds(mapData: seq<byte>, mapPixels: nat, py: nat, x0: nat, x1: nat)
    requires x0 <= x1 <= mapPixels && py < mapPixels && mapPixels * mapPixels <= |mapData|
    ensures 0 <= RowSum(mapData, mapPixels, py, x0, x1) <= 255 * (x1 - x0)
    decreases x1 - x0
  {
    if x1 > x0 {
      RowSumBounds(mapData, mapPixels, py, x0, x1 - 1);
      RowMajorInRange(mapPixels, mapPixels, x1 - 1, py);
      assert 255 * (x1 - x0) == 255 * (x1 - 1 - x0) + 255;
    }
  }

  lemma {:induction false} BlockSumBounds(mapData: seq<byte>, mapPixels: nat, y0: nat, y1: nat, x0: nat, x1: nat)
    requires y0 <= y1 <= mapPixels && x0 <= x1 <= mapPixels && mapPixels * mapPixels <= |mapData|
    ensures 0 <= BlockSum(mapData, mapPixels, y0, y1, x0, x1) <= 255 * ((y1 - y0) * (x1 - x0))
    decreases y1 - y0
  {
    if y1 > y0 {
      BlockSumBounds(mapData, mapPixels, y0, y1 - 1, x0, x1);
      RowSumBounds(mapData, mapPixels, y1 - 1, x0, x1);
      assert (y1 - y0) * (x1 - x0) == (y1 - 1 - y0) * (x1 - x0) + (x1 - x0);
    }
  }

  /** The node class from a block's sum and pixel count: average above 200
      is free, below 25 an obstacle, otherwise unknown; an empty block
      averages 255. */
  function Classify(sum: int, count: int): (c: byte)
    ensures c == Free || c == Obstacle || c == Unknown
    ensures count > 0 ==> (c == Free <==> sum > 200 * count)
    ensures count > 0 ==> (c == Obstacle <==> sum < 25 * count)
    ensures count > 0 ==> (c == Unknown <==> 25 * count <= sum <= 200 * count)
    ensures count <= 0 ==> c == Free
  {
    if count <= 0 then Free
    else if sum > 200 * count then Free
    else if sum < 25 * count then Obstacle
    else Unknown
  }

  /** The pixel count and byte sum of node (nx, ny)'s block. */
  function NodeCount(mapPixels: nat, size: nat, nx: nat, ny: nat): int
    requires size >= 1 && nx < CeilDiv(mapPixels, size) && ny < CeilDiv(mapPixels, size)
  {
    BlockNonEmpty(nx, size, mapPixels);
    BlockNonEmpty(ny, size, mapPixels);
    (BlockEnd(ny, size, mapPixels) - BlockStart(ny, size)) * (BlockEnd(nx, size, mapPixels) - BlockStart(nx, size))
  }

  function NodeSum(mapData: seq<byte>, mapPixels: nat, size: nat, nx: nat, ny: nat): int
    requires size >= 1 && mapPixels * mapPixels <= |mapData|
    requires nx < CeilDiv(mapPixels, size) && ny < CeilDiv(mapPixels, size)
  {
    BlockNonEmpty(nx, size, mapPixels);
    BlockNonEmpty(ny, size, mapPixels);
    BlockSum(mapData, mapPixels, BlockStart(ny, size), BlockEnd(ny, size, mapPixels),
             BlockStart(nx, size), BlockEnd(nx, size, mapPixels))
  }

  /** The node value updateObstycle computes for node (nx, ny). */
  function NodeValue(mapData: seq<byte>, mapPixels: nat, size: nat, nx: nat, ny: nat): byte
    requires size >= 1 && mapPixels * mapPixels <= |mapData|
    requires nx < CeilDiv(mapPixels, size) && ny < CeilDiv(mapPixels, size)
  {
    Classify(NodeSum(mapData, mapPixels, size, nx, ny), NodeCount(mapPixels, size, nx, ny))
  }

  /** The two inner loops of updateObstycle: the sum and count of one
      block, reading only indices inside the map. */
  method SumBlock(mapData: seq<byte>, mapPixels: nat, y0: nat, y1: nat, x0: nat, x1: nat) returns (sum: int, count: int)
    requires y0 <= y1 <= mapPixels && x0 <= x1 <= mapPixels && mapPixels * mapPixels <= |mapData|
    ensures sum == BlockSum(mapData, mapPixels, y0, y1, x0, x1)
    ensures count == (y1 - y0) * (x1 - x0)
  {
    sum, count := 0, 0;
    for py := y0 to y1
      invariant sum == BlockSum(mapData, mapPixels, y0, py, x0, x1)
      invariant count == (py - y0) * (x1 - x0)
    {
      for px := x0 to x1
        invariant sum == BlockSum(mapData, mapPixels, y0, py, x0, x1) + RowSum(mapData, mapPixels, py, x0, px)
        invariant count == (py - y0) * (x1 - x0) + (px - x0)
      {
        RowMajorInRange(mapPixels, mapPixels, px, py);
        sum := sum + mapData[py * mapPixels + px] as int;
        count := count + 1;
      }
      assert (py + 1 - y0) * (x1 - x0) == (py - y0) * (x1 - x0) + (x1 - x0);
    }
  }

  /** updateObstycle with the node size given in pixels (the source derives
      it from the map's size in metres): a square grid of
      ceil(mapPixels / size) nodes per side, each classified from the
      average of its pixel block. */
  method UpdateObstacle(mapData: seq<byte>, nodeSizePx: int, mapPixels: nat) returns (grid: seq<seq<byte>>)
    requires mapPixels * mapPixels <= |mapData|
    ensures var size := ClampNodeSize(nodeSizePx);
      && |grid| == CeilDiv(mapPixels, size)
      && (forall ny :: 0 <= ny < |grid| ==> |grid[ny]| == |grid|)
      && (forall ny, nx :: 0 <= ny < |grid| && 0 <= nx < |grid| ==>
            grid[ny][nx] == NodeValue(mapData, mapPixels, size, nx, ny))
    ensures forall ny, nx :: 0 <= ny < |grid| && 0 <= nx < |grid[ny]| ==>
              grid[ny][nx] == Free || grid[ny][nx] == Obstacle || grid[ny][nx] == Unknown
  {
    var size := ClampNodeSize(nodeSizePx);
    var nodes := CeilDiv(mapPixels, size);
    grid := [];
    for ny := 0 to nodes
      invariant |grid| == ny
      invariant forall j :: 0 <= j < ny ==> |grid[j]| == nodes
      invariant forall j, i :: 0 <= j < ny && 0 <= i < nodes ==> grid[j][i] == NodeValue(mapData, mapPixels, size, i, j)
    {
      var row := [];
      for nx := 0 to nodes
        invariant |row| == nx
        invariant forall i :: 0 <= i < nx ==> row[i] == NodeValue(mapData, mapPixels, size, i, ny)
      {
        BlockNonEmpty(nx, size, mapPixels);
        BlockNonEmpty(ny, size, mapPixels);
        var yStart := ny * size;
        var yEnd := if (ny + 1) * size < mapPixels then (ny + 1) * size else mapPixels;
        var xStart := nx * size;
        var xEnd := if (nx + 1) * size < mapPixels then (nx + 1) * size else mapPixels;
        var sum, count := SumBlock(mapData, mapPixels, yStart, yEnd, xStart, xEnd);
        var v: byte;
        if count <= 0 {
          v := Free;
        } else if sum > 200 * count {
          v := Free;
        } else if sum < 25 * count {
          v := Obstacle;
        } else {
          v := Unknown;
        }
        row := row + [v];
      }
      grid := grid + [row];
    }
  }

  /** Every node's block has at least one pixel, so the "empty block"
      branch of the average never applies, and its sum is at most 255 per
      pixel. */
  lemma NodeValueFromAverage(mapData: seq<byte>, mapPixels: nat, size: nat, nx: nat, ny: nat)
    requires size >= 1 && mapPixels * mapPixels <= |mapData|
    requires nx < CeilDiv(mapPixels, size) && ny < CeilDiv(mapPixels, size)
    ensures NodeCount(mapPixels, size, nx, ny) > 0
    ensures 0 <= NodeSum(mapData, mapPixels, size, nx, ny) <= 255 * NodeCount(mapPixels, size, nx, ny)
    ensures NodeValue(mapData, mapPixels, size, nx, ny) == Free <==>
              NodeSum(mapData, mapPixels, size, nx, ny) > 200 * NodeCount(mapPixels, size, nx, ny)
    ensures NodeValue(mapData, mapPixels, size, nx, ny) == Obstacle <==>
              NodeSum(mapData, mapPixels, size, nx, ny) < 25 * NodeCount(mapPixels, size, nx, ny)
  {
    BlockNonEmpty(nx, size, mapPixels);
    BlockNonEmpty(ny, size, mapPixels);
    var y0, y1 := BlockStart(ny, size), BlockEnd(ny, size, mapPixels);
    var x0, x1 := BlockStart(nx, size), BlockEnd(nx, size, mapPixels);
    BlockSumBounds(mapData, mapPixels, y0, y1, x0, x1);
    MulPositive(y1 - y0, x1 - x0);
  }

  lemma MulPositive(a: int, b: int)
    requires a > 0 && b > 0
    ensures a * b > 0
  {
  }

  /** FindPathDStarLite: no path for an empty grid or an out-of-range start
      or goal; otherwise the planner's path, which starts at `start`, steps
      between 4-adjacent cells and never enters an obstacle cell (value 1).
      The planner's two loops are bounded by the fuel parameters. */
  method FindPathDStarLite(grid: seq<seq<byte>>, start: Node, goal: Node, searchFuel: nat, walkFuel: nat)
    returns (path: seq<Node>)
    requires Rectangular(grid)
    ensures |grid| == 0 || |grid[0]| == 0 ==> path == []
    ensures |grid| > 0 && !InGrid(|grid[0]|, |grid|, start) ==> path == []
    ensures |grid| > 0 && !InGrid(|grid[0]|, |grid|, goal) ==> path == []
    ensures path != [] ==> path[0] == start
    ensures start == goal ==> path == [] || path == [start]
    ensures start != goal && path != [] ==> |path| >= 2
    ensures forall i :: 0 < i < |path| ==>
              Heuristic(path[i - 1], path[i]) == 1 &&
              InGrid(|grid[0]|, |grid|, path[i]) && grid[path[i].y][path[i].x] != Obstacle
  {
    if |grid| == 0 || |grid[0]| == 0 {
      return [];
    }
    var h, w := |grid|, |grid[0]|;
    if start.x < 0 || start.y < 0 || start.x >= w || start.y >= h {
      return [];
    }
    if goal.x < 0 || goal.y < 0 || goal.x >= w || goal.y >= h {
      return [];
    }
    var dstar := new Planner(grid, start, goal);
    path := dstar.Run(searchFuel, walkFuel);
    if path != [] {
      WalkAvoidsObstacles(grid, dstar.cost, path);
    }
  }

  /** A walk over the constructor's step costs moves between 4-adjacent
      cells and never enters an obstacle cell. */
  lemma WalkAvoidsObstacles(grid: seq<seq<byte>>, cost: map<Node, ExtNat>, path: seq<Node>)
    requires |grid| > 0 && Rectangular(grid)
    requires forall n :: InGrid(|grid[0]|, |grid|, n) ==> n in cost && cost[n] == CellCost(grid, n)
    requires IsWalk(cost, |grid[0]|, |grid|, path)
    ensures forall i :: 0 < i < |path| ==>
              Heuristic(path[i - 1], path[i]) == 1 &&
              InGrid(|grid[0]|, |grid|, path[i]) && grid[path[i].y][path[i].x] != Obstacle
  {
    var w, h := |grid[0]|, |grid|;
    forall i | 0 < i < |path|
      ensures Heuristic(path[i - 1], path[i]) == 1
      ensures InGrid(w, h, path[i]) && grid[path[i].y][path[i].x] != Obstacle
    {
      assert path[i] in Neighbors(cost, w, h, path[i - 1]);
      assert cost[path[i]] == CellCost(grid, path[i]);
    }
  }
}
