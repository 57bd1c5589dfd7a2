/**
 * Maps: the console's map view — the point list replaced by every lidar
 * frame, and the grayscale occupancy map rasterised into an RGBA image
 * buffer, one pixel per map cell, with the robot overlay drawn only when a
 * position is known.  Canvas scaling and drawing are left to the browser.
 */
module Maps {
  import opened Common
  import opened RestApiEndpoint

  /** Math.max(0, Math.min(255, value)) on an integer cell value. */
  function ClampColor(v: int): (c: byte)
    ensures 0 <= v <= 255 ==> c as int == v
    ensures v > 255 ==> c == 255
    ensures v < 0 ==> c == 0
  {
    if v < 0 then 0 else if v > 255 then 255 else v as byte
  }

  /** Clamping is a monotone projection onto 0..255. */
  lemma ClampColorIsProjection(v: int, w: int)
    ensures ClampColor(ClampColor(v) as int) == ClampColor(v)
    ensures v <= w ==> ClampColor(v) <= ClampColor(w)
  {
  }

  /** The clamped value of cell (x, y), or None where the row has no such
      entry (the value is undefined and the clamp yields NaN). */
  function CellColor(mapData: seq<seq<int>>, x: int, y: int): (c: Option<byte>)
    ensures c.Some? <==> 0 <= y < |mapData| && 0 <= x < |mapData[y]|
    ensures c.Some? ==> c.value == ClampColor(mapData[y][x])
  {
    if 0 <= y < |mapData| && 0 <= x < |mapData[y]| then Some(ClampColor(mapData[y][x])) else None
  }

  /** The colour byte stored for cell (x, y): a Uint8ClampedArray stores
      NaN as 0. */
  function CellByte(mapData: seq<seq<int>>, x: int, y: int): byte
  {
    match CellColor(mapData, x, y)
    case Some(c) => c
    case None => 0
  }

  /** The four RGBA bytes of a pixel of gray level b, fully opaque. */
  function Pixel(b: byte): seq<byte>
  {
    [b, b, b, 255]
  }

  /** The pixels of the first n cells of row y. */
  function RowImage(mapData: seq<seq<int>>, y: int, n: nat): seq<byte>
  {
    if n == 0 then [] else RowImage(mapData, y, n - 1) + Pixel(CellByte(mapData, n - 1, y))
  }

  /** The image buffer of the first m rows of a map `cols` cells wide. */
  function Image(mapData: seq<seq<int>>, cols: nat, m: nat): seq<byte>
  {
    if m == 0 then [] else Image(mapData, cols, m - 1) + RowImage(mapData, m - 1, cols)
  }

  lemma {:induction false} RowImageLayout(mapData: seq<seq<int>>, y: int, n: nat, x: nat)
    requires x < n
    ensures |RowImage(mapData, y, n)| == 4 * n
    ensures RowImage(mapData, y, n)[4 * x..4 * x + 4] == Pixel(CellByte(mapData, x, y))
  {
    RowImageLength(mapData, y, n - 1);
    if x < n - 1 {
      RowImageLayout(mapData, y, n - 1, x);
    }
  }

  lemma {:induction false} RowImageLength(mapData: seq<seq<int>>, y: int, n: nat)
    ensures |RowImage(mapData, y, n)| == 4 * n
  {
    if n > 0 {
      RowImageLength(mapData, y, n - 1);
    }
  }

  lemma {:induction false} ImageLength(mapData: seq<seq<int>>, cols: nat, m: nat)
    ensures |Image(mapData, cols, m)| == RowMajor(cols, 0, m) * 4
  {
    if m > 0 {
      ImageLength(mapData, cols, m - 1);
      RowImageLength(mapData, m - 1, cols);
      RowMajorNextRow(cols, 0, m - 1);
    }
  }

  /** The image of a rows x cols map holds cols * rows * 4 bytes; the four
      bytes of cell (x, y) start at (y * cols + x) * 4 and hold its clamped
      value three times (0 where its row is short) and full alpha. */
  lemma ImageLayout(mapData: seq<seq<int>>, cols: nat, rows: nat, x: nat, y: nat)
    requires 0 <= x < cols && 0 <= y < rows
    ensures |Image(mapData, cols, rows)| == cols * rows * 4
    ensures 0 <= RowMajor(cols, x, y) * 4 && RowMajor(cols, x, y) * 4 + 4 <= cols * rows * 4
    ensures Image(mapData, cols, rows)[RowMajor(cols, x, y) * 4..RowMajor(cols, x, y) * 4 + 4]
            == Pixel(if y < |mapData| && x < |mapData[y]| then ClampColor(mapData[y][x]) else 0)
  {
    ImageCell(mapData, cols, rows, x, y);
    assert RowMajor(cols, 0, rows) == cols * rows;
  }

  lemma {:induction false} ImageCell(mapData: seq<seq<int>>, cols: nat, rows: nat, x: nat, y: nat)
    requires 0 <= x < cols && 0 <= y < rows
    ensures |Image(mapData, cols, rows)| == RowMajor(cols, 0, rows) * 4
    ensures 0 <= RowMajor(cols, x, y) && RowMajor(cols, x, y) * 4 + 4 <= |Image(mapData, cols, rows)|
    ensures Image(mapData, cols, rows)[RowMajor(cols, x, y) * 4..RowMajor(cols, x, y) * 4 + 4]
            == Pixel(CellByte(mapData, x, y))
    decreases rows
  {
    ImageLength(mapData, cols, rows);
    ImageLength(mapData, cols, rows - 1);
    if y < rows - 1 {
      var before, row := Image(mapData, cols, rows - 1), RowImage(mapData, rows - 1, cols);
      var start := RowMajor(cols, x, y) * 4;
      ImageCell(mapData, cols, rows - 1, x, y);
      ImageUnfold(mapData, cols, rows);
      PrefixBytes(before, row, start);
      assert before[start..start + 4] == Pixel(CellByte(mapData, x, y));
    } else {
      LastRowLayout(mapData, cols, rows, x);
    }
  }

  lemma ImageUnfold(mapData: seq<seq<int>>, cols: nat, rows: nat)
    requires rows > 0
    ensures Image(mapData, cols, rows) == Image(mapData, cols, rows - 1) + RowImage(mapData, rows - 1, cols)
  {
  }

  /** Appending bytes keeps the four bytes at `start` of the prefix. */
  lemma PrefixBytes(before: seq<byte>, after: seq<byte>, start: nat)
    requires start + 4 <= |before|
    ensures (before + after)[start..start + 4] == before[start..start + 4]
  {
  }

  lemma LastRowLayout(mapData: seq<seq<int>>, cols: nat, rows: nat, x: nat)
    requires 0 <= x < cols && rows > 0
    requires |Image(mapData, cols, rows - 1)| == RowMajor(cols, 0, rows - 1) * 4
    ensures var start := RowMajor(cols, x, rows - 1) * 4;
      0 <= start && start + 4 <= |Image(mapData, cols, rows)|
      && Image(mapData, cols, rows)[start..start + 4] == Pixel(CellByte(mapData, x, rows - 1))
  {
    var before := Image(mapData, cols, rows - 1);
    var row := RowImage(mapData, rows - 1, cols);
    RowImageLayout(mapData, rows - 1, cols, x);
    var start := RowMajor(cols, x, rows - 1) * 4;
    assert RowMajor(cols, x, rows - 1) == RowMajor(cols, 0, rows - 1) + x;
    assert start == |before| + 4 * x;
    ImageUnfold(mapData, cols, rows);
    SuffixBytes(before, row, 4 * x);
  }

  lemma SuffixBytes(before: seq<byte>, after: seq<byte>, i: nat)
    requires i + 4 <= |after|
    ensures (before + after)[|before| + i..|before| + i + 4] == after[i..i + 4]
  {
  }

  /** Row y < rows of a rows x cols grid ends within it. */
  lemma RowFits(cols: nat, rows: nat, y: nat)
    requires y < rows
    ensures RowMajor(cols, 0, y) + cols <= rows * cols
  {
    RowMajorNextRow(cols, 0, y);
    MulMonotone(y + 1, rows, cols);
  }

  /** Distinct cells of a map `cols` wide have disjoint pixel bytes. */
  lemma PixelsDisjoint(cols: nat, x1: nat, y1: nat, x2: nat, y2: nat)
    requires x1 < cols && x2 < cols && (x1, y1) != (x2, y2)
    ensures RowMajor(cols, x1, y1) * 4 + 4 <= RowMajor(cols, x2, y2) * 4
         || RowMajor(cols, x2, y2) * 4 + 4 <= RowMajor(cols, x1, y1) * 4
  {
    RowMajorInjective(cols, x1, y1, x2, y2);
  }

  /** drawGrayscaleMap: fill a fresh cols x rows RGBA buffer cell by cell
      in row-major order.  An empty map or an empty first row makes the
      source throw before anything is drawn; the robot overlay is drawn
      only with a position. */
  method DrawGrayscaleMap<P>(mapData: seq<seq<int>>, position: Option<P>)
    returns (drawn: bool, image: array<byte>, robotDrawn: bool)
    ensures drawn <==> mapData != [] && mapData[0] != []
    ensures drawn ==> image[..] == Image(mapData, |mapData[0]|, |mapData|)
    ensures robotDrawn <==> drawn && position.Some?
    ensures fresh(image)
  {
    if mapData == [] || mapData[0] == [] {
      image := new byte[0];
      return false, image, false;
    }
    var rows, cols := |mapData|, |mapData[0]|;
    image := new byte[rows * cols * 4];
    ghost var total := rows * cols;
    for y := 0 to rows
      invariant RowMajor(cols, 0, y) <= total
      invariant image[..RowMajor(cols, 0, y) * 4] == Image(mapData, cols, y)
    {
      RowFits(cols, rows, y);
      FillRow(image, mapData, cols, y, y * cols);
      RowMajorNextRow(cols, 0, y);
    }
    assert image[..] == image[..RowMajor(cols, 0, rows) * 4];
    drawn, robotDrawn := true, position.Some?;
  }

  /** The inner loop for row y, whose first cell has row-major index
      `start`: append the row's pixels to the image. */
  method FillRow(image: array<byte>, mapData: seq<seq<int>>, cols: nat, y: nat, start: nat)
    requires y < |mapData| && (start + cols) * 4 <= image.Length
    requires image[..start * 4] == Image(mapData, cols, y)
    modifies image
    ensures image[..(start + cols) * 4] == Image(mapData, cols, y + 1)
  {
    for x := 0 to cols
      invariant image[..(start + x) * 4] == Image(mapData, cols, y) + RowImage(mapData, y, x)
    {
      var color: byte := if x < |mapData[y]| then ClampColor(mapData[y][x]) else 0;
      assert color == CellByte(mapData, x, y);
      var index := (start + x) * 4;
      ghost var rowDone := RowImage(mapData, y, x);
      FillPixel(image, index, color);
      assert RowImage(mapData, y, x + 1) == rowDone + Pixel(color);
    }
  }

  /** One pass of the inner loop: the four bytes at `index`. */
  method FillPixel(image: array<byte>, index: nat, color: byte)
    requires index + 4 <= image.Length
    modifies image
    ensures image[..index + 4] == old(image[..index]) + Pixel(color)
  {
    image[index] := color;
    image[index + 1] := color;
    image[index + 2] := color;
    image[index + 3] := 255;
  }

  /** The module's point list and the count shown beside it. */
  class PointView {
    var allPoints: seq<PointJson>
    var pointCount: nat

    constructor ()
      ensures allPoints == [] && pointCount == 0
    {
      allPoints, pointCount := [], 0;
    }

    /** processPoints: the frame's points replace the list wholesale. */
    method ProcessPoints(points: seq<PointJson>)
      modifies this
      ensures allPoints == points && pointCount == |points|
    {
      allPoints := points;
      pointCount := |allPoints|;
    }

    /** The clear button. */
    method Clear()
      modifies this
      ensures allPoints == [] && pointCount == 0
    {
      allPoints := [];
      pointCount := 0;
    }
  }
}
