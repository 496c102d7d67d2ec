/**
 * The pixel buffer the transforms read and write (a `BufferedImage` of packed
 * ints), its edge-clamped sampler, and the column-major order in which the
 * transforms visit pixel and cell origins.
 */
module Raster {
  import opened Numeric
  import opened Pixels

  /** A raster of packed pixels, addressed `pixels[col, row]` like `getRGB(x, y)`. */
  class Image {
    const pixels: array2<Pixel>

    function Width(): nat
    {
      pixels.Length0
    }

    function Height(): nat
    {
      pixels.Length1
    }

    /** `new BufferedImage(width, height, TYPE_INT_ARGB)`: a positive size, every pixel 0. */
    constructor (width: nat, height: nat)
      requires width >= 1 && height >= 1
      ensures Width() == width && Height() == height
      ensures fresh(pixels)
      ensures forall c, r :: 0 <= c < width && 0 <= r < height ==> pixels[c, r] == 0
    {
      pixels := new Pixel[width, height]((c, r) => 0);
    }

    predicate InRange(col: int, row: int)
    {
      0 <= col < Width() && 0 <= row < Height()
    }

    /** The edge-clamp policy: the pixel at the nearest in-range coordinates. */
    function Sample(col: int, row: int): Pixel
      reads pixels
      requires Width() >= 1 && Height() >= 1
    {
      pixels[Clamp(col, 0, Width() - 1), Clamp(row, 0, Height() - 1)]
    }

    /**
     * `get(col, row)`: out-of-range coordinates are moved to the nearest edge,
     * each independently, before the pixel is read.
     */
    method Get(col: int, row: int) returns (p: Pixel)
      requires Width() >= 1 && Height() >= 1
      ensures p == Sample(col, row)
      ensures InRange(col, row) ==> p == pixels[col, row]
    {
      var c, r := col, row;
      if c < 0 {
        c := 0;
      }
      if r < 0 {
        r := 0;
      }
      if c >= Width() {
        c := Width() - 1;
      }
      if r >= Height() {
        r := Height() - 1;
      }
      p := pixels[c, r];
    }

    /** `setRGB(col, row, val)` on an in-range position: that pixel and no other changes. */
    method Set(col: int, row: int, val: Pixel)
      requires InRange(col, row)
      modifies pixels
      ensures pixels[col, row] == val
      ensures forall c, r :: InRange(c, r) && (c != col || r != row) ==> pixels[c, r] == old(pixels[c, r])
    {
      pixels[col, row] := val;
    }

    /**
     * Coordinates beyond an edge read the edge: for every k >= 0 the columns -k and
     * W-1+k read as columns 0 and W-1, and the rows -k and H-1+k as rows 0 and H-1.
     */
    lemma EdgeCollapse(col: int, row: int, k: nat)
      requires Width() >= 1 && Height() >= 1
      ensures Sample(-(k as int), row) == Sample(0, row)
      ensures Sample(Width() - 1 + k, row) == Sample(Width() - 1, row)
      ensures Sample(col, -(k as int)) == Sample(col, 0)
      ensures Sample(col, Height() - 1 + k) == Sample(col, Height() - 1)
      ensures Sample(col, row) == Sample(Clamp(col, 0, Width() - 1), Clamp(row, 0, Height() - 1))
    {
    }
  }

  /** Whether cell origin `p` comes strictly before `q` when columns are walked outermost. */
  predicate ColumnMajorBefore(p: (int, int), q: (int, int))
  {
    p.0 < q.0 || (p.0 == q.0 && p.1 < q.1)
  }

  /** The origins `(col, r)` for r = row, row + stride, ... below `height`. */
  function ColumnCells(col: int, row: int, height: int, stride: nat): seq<(int, int)>
    requires stride >= 1
    decreases height - row
  {
    if row >= height then [] else [(col, row)] + ColumnCells(col, row + stride, height, stride)
  }

  /** The origins of the columns col, col + stride, ... below `width`, each column top to bottom. */
  function CellsFrom(col: int, width: int, height: int, stride: nat): seq<(int, int)>
    requires stride >= 1
    decreases width - col
  {
    if col >= width then []
    else ColumnCells(col, 0, height, stride) + CellsFrom(col + stride, width, height, stride)
  }

  /**
   * The `(col, row)` pairs visited by `for (col = 0; col < width; col += stride)
   * for (row = 0; row < height; row += stride)`, in visiting order.
   */
  function CellOrigins(width: nat, height: nat, stride: nat): seq<(int, int)>
    requires stride >= 1
  {
    CellsFrom(0, width, height, stride)
  }

  /** The first `k` origins of column `col`, in visiting order. */
  function RowsBefore(col: int, k: nat, stride: nat): seq<(int, int)>
  {
    if k == 0 then [] else RowsBefore(col, k - 1, stride) + [(col, (k - 1) * stride)]
  }

  /** The origins of the first `j` columns, in visiting order. */
  function ColumnsBefore(j: nat, height: int, stride: nat): seq<(int, int)>
    requires stride >= 1
  {
    if j == 0 then [] else ColumnsBefore(j - 1, height, stride) + ColumnCells((j - 1) * stride, 0, height, stride)
  }

  /** The first `k` origins of a column followed by the rest of it make up the whole column. */
  lemma {:induction false} RowsBeforeSplit(col: int, k: nat, height: int, stride: nat)
    requires stride >= 1 && (k == 0 || (k - 1) * stride < height)
    ensures RowsBefore(col, k, stride) + ColumnCells(col, k * stride, height, stride) == ColumnCells(col, 0, height, stride)
  {
    if k > 0 {
      if k > 1 {
        assert (k - 2) * stride < (k - 1) * stride;
      }
      RowsBeforeSplit(col, k - 1, height, stride);
      assert (k - 1) * stride + stride == k * stride;
      var rest := ColumnCells(col, k * stride, height, stride);
      assert ColumnCells(col, (k - 1) * stride, height, stride) == [(col, (k - 1) * stride)] + rest;
      assert RowsBefore(col, k, stride) == RowsBefore(col, k - 1, stride) + [(col, (k - 1) * stride)];
    }
  }

  /** The first `j` columns followed by the columns after them make up every origin. */
  lemma {:induction false} ColumnsBeforeSplit(j: nat, width: nat, height: nat, stride: nat)
    requires stride >= 1 && (j == 0 || (j - 1) * stride < width)
    ensures ColumnsBefore(j, height, stride) + CellsFrom(j * stride, width, height, stride) == CellOrigins(width, height, stride)
  {
    if j > 0 {
      if j > 1 {
        assert (j - 2) * stride < (j - 1) * stride;
      }
      ColumnsBeforeSplit(j - 1, width, height, stride);
      assert (j - 1) * stride + stride == j * stride;
      var column := ColumnCells((j - 1) * stride, 0, height, stride);
      assert CellsFrom((j - 1) * stride, width, height, stride) == column + CellsFrom(j * stride, width, height, stride);
      assert ColumnsBefore(j, height, stride) == ColumnsBefore(j - 1, height, stride) + column;
    }
  }

  /** Visiting the `k`-th origin (col, row) of a column extends the visited ones by it; the next is a stride further down. */
  lemma RowsNext(visited: seq<(int, int)>, col: int, k: nat, row: int, stride: nat)
    requires row == k * stride
    ensures visited + RowsBefore(col, k + 1, stride) == (visited + RowsBefore(col, k, stride)) + [(col, row)]
    ensures row + stride == (k + 1) * stride
  {
    assert RowsBefore(col, k + 1, stride) == RowsBefore(col, k, stride) + [(col, row)];
  }

  /** Finishing the `j`-th column `col` adds that column to the visited ones; the next is a stride further right. */
  lemma ColumnsNext(j: nat, col: int, row: int, k: nat, height: int, stride: nat)
    requires stride >= 1 && col == j * stride && row == k * stride && height <= row < height + stride
    ensures ColumnsBefore(j, height, stride) + RowsBefore(col, k, stride) == ColumnsBefore(j + 1, height, stride)
    ensures col + stride == (j + 1) * stride
  {
    if k > 0 {
      assert (k - 1) * stride == row - stride;
    }
    RowsBeforeSplit(col, k, height, stride);
    assert ColumnCells(col, row, height, stride) == [];
  }

  /** Once the column counter is past the last column, every origin has been visited. */
  lemma AllColumnsDone(j: nat, col: int, width: nat, height: nat, stride: nat)
    requires stride >= 1 && col == j * stride && width <= col < width + stride
    ensures ColumnsBefore(j, height, stride) == CellOrigins(width, height, stride)
  {
    if j > 0 {
      assert (j - 1) * stride == col - stride;
    }
    ColumnsBeforeSplit(j, width, height, stride);
    assert CellsFrom(col, width, height, stride) == [];
  }

  /** Euclidean division is determined by its quotient-remainder decomposition. */
  lemma DivModUnique(d: int, s: int, q: int, r: int)
    requires s >= 1 && 0 <= r < s && d == q * s + r
    ensures d % s == r && d / s == q
  {
    var q', r' := d / s, d % s;
    assert d == q' * s + r';
    assert (q - q') * s == r' - r;
    if q != q' {
      MultipleBound(q - q', s);
      assert false;
    }
  }

  /** A non-zero multiple of s is at least s away from 0. */
  lemma MultipleBound(k: int, s: int)
    requires k != 0 && s >= 1
    ensures k * s >= s || k * s <= -s
  {
    if k > 0 {
      assert (k - 1) * s >= 0;
      assert k * s == (k - 1) * s + s;
    } else {
      assert (-k - 1) * s >= 0;
      assert k * s == -((-k - 1) * s) - s;
    }
  }

  /** One step in a column: a non-negative multiple of the stride is 0 or the stride plus one. */
  lemma StrideStep(d: int, s: int)
    requires s >= 1
    ensures d % s == 0 && 0 <= d ==> d == 0 || (d >= s && (d - s) % s == 0)
    ensures d >= s && (d - s) % s == 0 ==> d % s == 0
  {
    var q, r := d / s, d % s;
    assert d == q * s + r;
    if d % s == 0 && 0 < d {
      if d < s {
        DivModUnique(d, s, 0, d);
      }
      DivModUnique(d - s, s, q - 1, 0);
    }
    if d >= s && (d - s) % s == 0 {
      var q1 := (d - s) / s;
      assert d - s == q1 * s;
      DivModUnique(d, s, q1 + 1, 0);
    }
  }

  lemma {:induction false} ColumnCellsExact(col: int, row: int, height: int, stride: nat)
    requires stride >= 1
    ensures forall p :: p in ColumnCells(col, row, height, stride) <==>
      p.0 == col && row <= p.1 < height && (p.1 - row) % stride == 0
    ensures forall i, j :: 0 <= i < j < |ColumnCells(col, row, height, stride)| ==>
      ColumnMajorBefore(ColumnCells(col, row, height, stride)[i], ColumnCells(col, row, height, stride)[j])
    decreases height - row
  {
    if row < height {
      var rest := ColumnCells(col, row + stride, height, stride);
      ColumnCellsExact(col, row + stride, height, stride);
      forall p: (int, int)
        ensures p in ColumnCells(col, row, height, stride) <==>
          p.0 == col && row <= p.1 < height && (p.1 - row) % stride == 0
      {
        StrideStep(p.1 - row, stride);
      }
      var all := ColumnCells(col, row, height, stride);
      forall i, j | 0 <= i < j < |all|
        ensures ColumnMajorBefore(all[i], all[j])
      {
        if i == 0 {
          assert all[j] in rest;
        } else {
          assert all[i] == rest[i - 1] && all[j] == rest[j - 1];
        }
      }
    }
  }

  lemma {:induction false} CellsFromMembers(col: int, width: int, height: int, stride: nat)
    requires stride >= 1
    ensures forall p :: p in CellsFrom(col, width, height, stride) <==>
      col <= p.0 < width && (p.0 - col) % stride == 0 && 0 <= p.1 < height && p.1 % stride == 0
    decreases width - col
  {
    if col < width {
      var column := ColumnCells(col, 0, height, stride);
      var rest := CellsFrom(col + stride, width, height, stride);
      ColumnCellsExact(col, 0, height, stride);
      CellsFromMembers(col + stride, width, height, stride);
      forall p: (int, int)
        ensures p in CellsFrom(col, width, height, stride) <==>
          col <= p.0 < width && (p.0 - col) % stride == 0 && 0 <= p.1 < height && p.1 % stride == 0
      {
        var d := p.0 - col;
        var rowOk := 0 <= p.1 < height && p.1 % stride == 0;
        assert p in column <==> d == 0 && rowOk;
        assert p in rest <==> col + stride <= p.0 < width && (d - stride) % stride == 0 && rowOk;
        assert p in CellsFrom(col, width, height, stride) <==> p in column || p in rest;
        StrideStep(d, stride);
      }
    }
  }

  lemma {:induction false} CellsFromOrdered(col: int, width: int, height: int, stride: nat)
    requires stride >= 1
    ensures forall i, j :: 0 <= i < j < |CellsFrom(col, width, height, stride)| ==>
      ColumnMajorBefore(CellsFrom(col, width, height, stride)[i], CellsFrom(col, width, height, stride)[j])
    decreases width - col
  {
    if col < width {
      var column := ColumnCells(col, 0, height, stride);
      var rest := CellsFrom(col + stride, width, height, stride);
      ColumnCellsExact(col, 0, height, stride);
      CellsFromMembers(col + stride, width, height, stride);
      CellsFromOrdered(col + stride, width, height, stride);
      var all := CellsFrom(col, width, height, stride);
      assert all == column + rest;
      forall i, j | 0 <= i < j < |all|
        ensures ColumnMajorBefore(all[i], all[j])
      {
        if j < |column| {
          assert all[i] == column[i] && all[j] == column[j];
        } else if i < |column| {
          assert all[i] == column[i];
          assert all[i] in column;
          assert all[j] == rest[j - |column|];
          assert all[j] in rest;
        } else {
          assert all[i] == rest[i - |column|] && all[j] == rest[j - |column|];
        }
      }
    }
  }

  /**
   * The cell origins are exactly the pairs whose column is a multiple of the stride
   * below `width` and whose row is a multiple of the stride below `height`, each
   * visited once, columns outermost.
   */
  lemma CellOriginsExact(width: nat, height: nat, stride: nat)
    requires stride >= 1
    ensures forall p :: p in CellOrigins(width, height, stride) <==>
      0 <= p.0 < width && p.0 % stride == 0 && 0 <= p.1 < height && p.1 % stride == 0
    ensures forall i, j :: 0 <= i < j < |CellOrigins(width, height, stride)| ==>
      ColumnMajorBefore(CellOrigins(width, height, stride)[i], CellOrigins(width, height, stride)[j])
  {
    CellsFromMembers(0, width, height, stride);
    CellsFromOrdered(0, width, height, stride);
  }

  /** With stride 1 the origins are every pixel position of a width-by-height image, each once. */
  lemma PixelOrderExact(width: nat, height: nat)
    ensures forall c, r :: (c, r) in CellOrigins(width, height, 1) <==> 0 <= c < width && 0 <= r < height
    ensures forall i, j :: 0 <= i < j < |CellOrigins(width, height, 1)| ==>
      CellOrigins(width, height, 1)[i] != CellOrigins(width, height, 1)[j]
  {
    CellOriginsExact(width, height, 1);
    var os := CellOrigins(width, height, 1);
    forall i, j | 0 <= i < j < |os|
      ensures os[i] != os[j]
    {
      assert ColumnMajorBefore(os[i], os[j]);
    }
  }
}
