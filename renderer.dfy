/**
 * Renderer: the state the console window keeps in its closure — the
 * lidar point list and its count, the command connection flag with the
 * buttons it enables, the manual message box — and the cell-by-cell
 * painting of the grayscale map.  The renderer's copy of the D-pad tick is
 * Gamepad.DpadController built with Gamepad.RendererPayloads.
 */
module Renderer {
  import opened Common
  import opened RestApiEndpoint
  import opened Maps

  /** One fillRect of the grayscale map: the cell and the gray level of its
      fill style, None where the value is NaN and the style is ignored. */
  datatype Fill = Fill(x: int, y: int, color: Option<byte>)

  /** The fills of row y, left to right. */
  function RowFills(mapData: seq<seq<int>>, cols: nat, y: int): (r: seq<Fill>)
    ensures |r| == cols
  {
    seq(cols, x => Fill(x, y, CellColor(mapData, x, y)))
  }

  /** The fills of the first m rows, row by row. */
  function Raster(mapData: seq<seq<int>>, cols: nat, m: nat): seq<Fill>
  {
    Flatten(seq(m, y => RowFills(mapData, cols, y)))
  }

  /** A rows x cols raster paints rows * cols cells; the fill at
      (y * cols + x) is cell (x, y) with its clamped value; so every cell
      is painted exactly once, in row-major order. */
  lemma RasterLayout(mapData: seq<seq<int>>, cols: nat, rows: nat, x: nat, y: nat)
    requires x < cols && y < rows
    ensures |Raster(mapData, cols, rows)| == rows * cols
    ensures 0 <= RowMajor(cols, x, y) < rows * cols
    ensures Raster(mapData, cols, rows)[RowMajor(cols, x, y)] == Fill(x, y, CellColor(mapData, x, y))
  {
    var grid := seq(rows, y => RowFills(mapData, cols, y));
    FlattenIndex(grid, cols, x, y);
  }

  lemma RasterPaintsOnce(mapData: seq<seq<int>>, cols: nat, rows: nat, i: nat, j: nat)
    requires cols > 0 && i < rows * cols && j < rows * cols
    requires |Raster(mapData, cols, rows)| == rows * cols
    ensures var r := Raster(mapData, cols, rows);
      r[i].x == r[j].x && r[i].y == r[j].y ==> i == j
  {
    var yi, xi := CellOf(cols, i);
    var yj, xj := CellOf(cols, j);
    MulMonotone(rows, yi, cols);
    MulMonotone(rows, yj, cols);
    RasterLayout(mapData, cols, rows, xi, yi);
    RasterLayout(mapData, cols, rows, xj, yj);
  }

  /** drawGrayscaleMap's cell loop: one fill per cell in row-major order.
      An empty map makes the source throw before any cell is painted; the
      robot is drawn only with a position. */
  method PaintGrayscaleMap<P>(mapData: seq<seq<int>>, position: Option<P>)
    returns (drawn: bool, fills: seq<Fill>, robotDrawn: bool)
    ensures drawn <==> mapData != []
    ensures drawn ==> fills == Raster(mapData, |mapData[0]|, |mapData|)
    ensures !drawn ==> fills == []
    ensures robotDrawn <==> drawn && position.Some?
  {
    if mapData == [] {
      return false, [], false;
    }
    var rows, cols := |mapData|, |mapData[0]|;
    fills := [];
    for y := 0 to rows
      invariant fills == Raster(mapData, cols, y)
    {
      ghost var before := fills;
      for x := 0 to cols
        invariant fills == before + RowFills(mapData, cols, y)[..x]
      {
        var color := if x < |mapData[y]| then Some(ClampColor(mapData[y][x])) else None;
        fills := fills + [Fill(x, y, color)];
        assert RowFills(mapData, cols, y)[..x + 1] == RowFills(mapData, cols, y)[..x] + [Fill(x, y, color)];
      }
      RasterStep(mapData, cols, y);
    }
    drawn, robotDrawn := true, position.Some?;
  }

  lemma RasterStep(mapData: seq<seq<int>>, cols: nat, y: nat)
    ensures Raster(mapData, cols, y + 1) == Raster(mapData, cols, y) + RowFills(mapData, cols, y)
  {
    var grid := seq(y + 1, j => RowFills(mapData, cols, j));
    assert grid == seq(y, j => RowFills(mapData, cols, j)) + [RowFills(mapData, cols, y)];
    FlattenSnoc(seq(y, j => RowFills(mapData, cols, j)), RowFills(mapData, cols, y));
  }

  class Window {
    var allPoints: seq<PointJson>
    var pointCount: nat
    var connected: bool
    var connectDisabled: bool
    var disconnectDisabled: bool
    var inputDisabled: bool
    var sendDisabled: bool
    var messageInput: string
    /** Messages handed to the main process for the command socket. */
    var forwarded: seq<string>

    /** The controls follow the connection flag. */
    ghost predicate Valid()
      reads this
    {
      && connectDisabled == connected
      && disconnectDisabled == !connected
      && inputDisabled == !connected
      && sendDisabled == !connected
    }

    constructor ()
      ensures Valid() && !connected
      ensures allPoints == [] && pointCount == 0 && messageInput == "" && forwarded == []
    {
      allPoints, pointCount := [], 0;
      connected := false;
      connectDisabled, disconnectDisabled, inputDisabled, sendDisabled := false, true, true, true;
      messageInput, forwarded := "", [];
    }

    /** updateConnectionState(b). */
    method UpdateConnectionState(b: bool)
      modifies this
      ensures Valid() && connected == b
      ensures allPoints == old(allPoints) && pointCount == old(pointCount)
      ensures messageInput == old(messageInput) && forwarded == old(forwarded)
    {
      connected := b;
      connectDisabled := b;
      disconnectDisabled := !b;
      inputDisabled := !b;
      sendDisabled := !b;
    }

    /** The send button: forward a non-empty message while connected and
        clear the box; otherwise nothing happens. */
    method SendClicked()
      modifies this
      ensures old(messageInput) != "" && old(connected) ==>
        forwarded == old(forwarded) + [old(messageInput)] && messageInput == ""
      ensures !(old(messageInput) != "" && old(connected)) ==>
        forwarded == old(forwarded) && messageInput == old(messageInput)
      ensures connected == old(connected) && allPoints == old(allPoints) && pointCount == old(pointCount)
      ensures old(Valid()) ==> Valid()
    {
      if messageInput != "" && connected {
        forwarded := forwarded + [messageInput];
        messageInput := "";
      }
    }

    /** A key press in the message box: Enter sends as the button does. */
    method KeyPressed(key: string)
      modifies this
      ensures key == "Enter" && old(messageInput) != "" && old(connected) ==>
        forwarded == old(forwarded) + [old(messageInput)] && messageInput == ""
      ensures !(key == "Enter" && old(messageInput) != "" && old(connected)) ==>
        forwarded == old(forwarded) && messageInput == old(messageInput)
      ensures connected == old(connected) && allPoints == old(allPoints) && pointCount == old(pointCount)
      ensures old(Valid()) ==> Valid()
    {
      if key == "Enter" && messageInput != "" && connected {
        forwarded := forwarded + [messageInput];
        messageInput := "";
      }
    }

    /** processPoints: the frame's points replace the list wholesale. */
    method ProcessPoints(points: seq<PointJson>)
      modifies this
      ensures allPoints == points && pointCount == |points|
      ensures connected == old(connected) && messageInput == old(messageInput) && forwarded == old(forwarded)
      ensures old(Valid()) ==> Valid()
    {
      allPoints := points;
      pointCount := |allPoints|;
    }

    /** The clear-points button. */
    method ClearPoints()
      modifies this
      ensures allPoints == [] && pointCount == 0
      ensures connected == old(connected) && messageInput == old(messageInput) && forwarded == old(forwarded)
      ensures old(Valid()) ==> Valid()
    {
      allPoints := [];
      pointCount := 0;
    }
  }
}
