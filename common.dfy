/**
 * Definitions shared by the robot-side and console-side models: the
 * unsigned byte, optional values and row-major index arithmetic.
 */
module Common {

  /** uint8_t / unsigned char / one byte of a Uint8ClampedArray. */
  newtype byte = x: int | 0 <= x < 256

  /** A value that may be absent: a JavaScript null, a failed parse. */
  datatype Option<T> = None | Some(value: T)

  /** Row-major index of cell (x, y) in a grid `width` cells wide. */
  function RowMajor(width: int, x: int, y: int): int
  {
    y * width + x
  }

  /** A cell inside a width x height grid has its row-major index inside
      the flat buffer of width * height entries. */
  lemma RowMajorInRange(width: int, height: int, x: int, y: int)
    requires 0 <= x < width && 0 <= y < height
    ensures 0 <= RowMajor(width, x, y) < width * height
  {
    assert y * width + x < (y + 1) * width;
    assert (y + 1) * width <= height * width;
  }

  /** Distinct cells have distinct row-major indices, and the index gives
      the cell back by division and remainder. */
  lemma RowMajorInverse(width: int, x: int, y: int)
    requires 0 <= x < width && 0 <= y
    ensures RowMajor(width, x, y) / width == y && RowMajor(width, x, y) % width == x
  {
    var n := RowMajor(width, x, y);
    var q, r := n / width, n % width;
    assert n == q * width + r && 0 <= r < width;
    assert (y + 1) * width == y * width + width;
    assert (y - 1) * width == y * width - width;
    MulMonotone(y + 1, q, width);
    MulMonotone(q, y - 1, width);
  }

  lemma RowMajorInjective(width: int, x1: int, y1: int, x2: int, y2: int)
    requires 0 <= x1 < width && 0 <= y1 && 0 <= x2 < width && 0 <= y2
    ensures RowMajor(width, x1, y1) == RowMajor(width, x2, y2) <==> x1 == x2 && y1 == y2
  {
    RowMajorInverse(width, x1, y1);
    RowMajorInverse(width, x2, y2);
  }

  /** Concatenation of the rows of a grid: the flat row-major buffer. */
  function Flatten<T>(rows: seq<seq<T>>): seq<T>
  {
    if rows == [] then [] else rows[0] + Flatten(rows[1..])
  }

  /** In the flattening of equal-width rows, cell (x, y) sits at its
      row-major index. */
  lemma {:induction false} FlattenIndex<T>(rows: seq<seq<T>>, width: nat, x: int, y: int)
    requires forall i :: 0 <= i < |rows| ==> |rows[i]| == width
    requires 0 <= x < width && 0 <= y < |rows|
    ensures |Flatten(rows)| == |rows| * width
    ensures 0 <= RowMajor(width, x, y) < |Flatten(rows)|
    ensures Flatten(rows)[RowMajor(width, x, y)] == rows[y][x]
  {
    FlattenLength(rows, width);
    RowMajorInRange(width, |rows|, x, y);
    assert width * |rows| == |rows| * width;
    var rest := Flatten(rows[1..]);
    assert Flatten(rows) == rows[0] + rest;
    if y == 0 {
      assert RowMajor(width, x, y) == x;
    } else {
      FlattenIndex(rows[1..], width, x, y - 1);
      RowMajorNextRow(width, x, y - 1);
      assert rest[RowMajor(width, x, y - 1)] == rows[y][x];
    }
  }

  lemma RowMajorNextRow(width: int, x: int, y: int)
    ensures RowMajor(width, x, y + 1) == width + RowMajor(width, x, y)
  {
    assert (y + 1) * width == width + y * width;
  }

  lemma {:induction false} FlattenLength<T>(rows: seq<seq<T>>, width: nat)
    requires forall i :: 0 <= i < |rows| ==> |rows[i]| == width
    ensures |Flatten(rows)| == |rows| * width
  {
    if rows != [] {
      FlattenLength(rows[1..], width);
      assert |rows| * width == width + (|rows| - 1) * width;
    }
  }

  /** A grid of equal-width rows whose cells are read from a row-major
      buffer flattens back to exactly that buffer. */
  lemma UnflattenRoundTrip<T>(rows: seq<seq<T>>, data: seq<T>, width: nat)
    requires width > 0
    requires |data| == |rows| * width
    requires forall i :: 0 <= i < |rows| ==> |rows[i]| == width
    requires forall y, x :: 0 <= y < |rows| && 0 <= x < width ==>
               0 <= RowMajor(width, x, y) < |data| && rows[y][x] == data[RowMajor(width, x, y)]
    ensures Flatten(rows) == data
  {
    FlattenLength(rows, width);
    forall i | 0 <= i < |data|
      ensures Flatten(rows)[i] == data[i]
    {
      var y, x := CellOf(width, i);
      MulMonotone(|rows|, y, width);
      FlattenIndex(rows, width, x, y);
    }
  }

  /** Flattening a grid with one more row appends that row. */
  lemma {:induction false} FlattenSnoc<T>(rows: seq<seq<T>>, row: seq<T>)
    ensures Flatten(rows + [row]) == Flatten(rows) + row
  {
    if rows == [] {
      assert [row][1..] == [];
    } else {
      assert (rows + [row])[1..] == rows[1..] + [row];
      FlattenSnoc(rows[1..], row);
    }
  }

  /** The cell whose row-major index is i. */
  lemma CellOf(width: nat, i: nat) returns (y: nat, x: nat)
    requires width > 0
    ensures x < width && i == RowMajor(width, x, y) && y * width <= i
  {
    y, x := i / width, i % width;
  }

  /** Multiplying by a natural number keeps the order. */
  lemma MulMonotone(a: int, b: int, c: nat)
    ensures a <= b ==> a * c <= b * c
  {
  }
}
