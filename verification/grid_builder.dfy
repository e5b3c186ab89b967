/** A grid of square cells laid over an extent, column by column.  Each cell
    sits in a square slot of side `res`; a gutter fraction in [0, 1] of the
    slot is left empty, split evenly on both sides.  The count of slots along
    an axis is the number of whole numbers below extent / res, so a partial
    slot at the far edge still gets a cell. */
module GridBuilder {

  /** A JTS envelope. */
  datatype Envelope = Envelope(minX: real, maxX: real, minY: real, maxY: real)

  /** `MathUtil.clamp(g, 0, 1)`. */
  function Clamp01(g: real): (r: real)
    ensures 0.0 <= r <= 1.0
    ensures 0.0 <= g <= 1.0 ==> r == g
    ensures g < 0.0 ==> r == 0.0
    ensures g > 1.0 ==> r == 1.0
  {
    if g < 0.0 then 0.0 else if g > 1.0 then 1.0 else g
  }

  /** The iterations of `for (int x = 0; x < len / res; x++)`.  A zero
      resolution with a zero length divides 0 by 0, a NaN that stops the
      loop at once. */
  function SlotCount(len: real, res: real): (n: nat)
    requires len >= 0.0
    requires res != 0.0 || len == 0.0
    ensures res == 0.0 || len / res <= 0.0 ==> n == 0
    ensures res != 0.0 && len / res > 0.0 ==> n as real >= len / res && (n - 1) as real < len / res
  {
    if res == 0.0 then 0
    else
      var q := len / res;
      if q <= 0.0 then 0
      else
        var c := -((-q).Floor);
        assert c as real >= q && (c - 1) as real < q;
        c
  }

  /** The cell in slot (i, j): a square of the slot's size shrunk by the
      gutter fraction and centred in the slot. */
  function Cell(extent: Envelope, res: real, gutter: real, i: nat, j: nat): (r: Envelope)
    ensures res >= 0.0 ==>
      extent.minX + (i as real) * res <= r.minX <= r.maxX <= extent.minX + ((i + 1) as real) * res &&
      extent.minY + (j as real) * res <= r.minY <= r.maxY <= extent.minY + ((j + 1) as real) * res
    ensures r.minX - (extent.minX + (i as real) * res) == extent.minX + ((i + 1) as real) * res - r.maxX
    ensures r.minY - (extent.minY + (j as real) * res) == extent.minY + ((j + 1) as real) * res - r.maxY
    ensures 0.0 <= gutter <= 1.0 ==> r.maxX - r.minX == (1.0 - gutter) * res && r.maxY - r.minY == (1.0 - gutter) * res
  {
    var g := Clamp01(gutter);
    var orgX := extent.minX + (i as real) * res + res * g / 2.0;
    var orgY := extent.minY + (j as real) * res + res * g / 2.0;
    Envelope(orgX, orgX + (1.0 - g) * res, orgY, orgY + (1.0 - g) * res)
  }

  /** The cells of column `i`, slots 0 to `ny` - 1. */
  function Column(extent: Envelope, res: real, gutter: real, i: nat, ny: nat): (r: seq<Envelope>)
    ensures |r| == ny
    ensures forall j :: 0 <= j < ny ==> r[j] == Cell(extent, res, gutter, i, j)
  {
    if ny == 0 then [] else Column(extent, res, gutter, i, ny - 1) + [Cell(extent, res, gutter, i, ny - 1)]
  }

  /** Slot (i, j) of an nx by ny grid listed column by column. */
  lemma SlotIndex(i: nat, j: nat, nx: nat, ny: nat)
    requires i < nx && j < ny
    ensures i * ny + j < nx * ny
  {
    assert i * ny + j < i * ny + ny == (i + 1) * ny;
    assert (i + 1) * ny <= nx * ny;
  }

  /** `r` lists the cells of an nx by ny grid column by column. */
  predicate IsGrid(r: seq<Envelope>, extent: Envelope, res: real, gutter: real, nx: nat, ny: nat) {
    |r| == nx * ny &&
    forall i, j :: 0 <= i < nx && 0 <= j < ny ==> i * ny + j < |r| && r[i * ny + j] == Cell(extent, res, gutter, i, j)
  }

  /** The first `nx` columns, concatenated. */
  function Columns(extent: Envelope, res: real, gutter: real, nx: nat, ny: nat): (r: seq<Envelope>)
    ensures IsGrid(r, extent, res, gutter, nx, ny)
  {
    if nx == 0 then []
    else
      var prev := Columns(extent, res, gutter, nx - 1, ny);
      var col := Column(extent, res, gutter, nx - 1, ny);
      GridGrows(prev, col, extent, res, gutter, nx, ny);
      prev + col
  }

  /** Appending column `nx` - 1 to a grid of `nx` - 1 columns gives the
      grid of `nx` columns. */
  lemma GridGrows(prev: seq<Envelope>, col: seq<Envelope>, extent: Envelope, res: real, gutter: real,
                  nx: nat, ny: nat)
    requires nx > 0 && IsGrid(prev, extent, res, gutter, nx - 1, ny)
    requires |col| == ny && forall k :: 0 <= k < ny ==> col[k] == Cell(extent, res, gutter, nx - 1, k)
    ensures IsGrid(prev + col, extent, res, gutter, nx, ny)
  {
    var r := prev + col;
    assert |r| == nx * ny by {
      assert (nx - 1) * ny + ny == nx * ny;
    }
    forall i, j | 0 <= i < nx && 0 <= j < ny
      ensures i * ny + j < |r| && r[i * ny + j] == Cell(extent, res, gutter, i, j)
    {
      GridSlot(prev, col, extent, res, gutter, nx, ny, i, j);
    }
  }

  /** Slot (i, j) of the grid one column wider. */
  lemma GridSlot(prev: seq<Envelope>, col: seq<Envelope>, extent: Envelope, res: real, gutter: real,
                 nx: nat, ny: nat, i: nat, j: nat)
    requires nx > 0 && IsGrid(prev, extent, res, gutter, nx - 1, ny)
    requires |col| == ny && forall k :: 0 <= k < ny ==> col[k] == Cell(extent, res, gutter, nx - 1, k)
    requires i < nx && j < ny
    ensures i * ny + j < |prev + col| && (prev + col)[i * ny + j] == Cell(extent, res, gutter, i, j)
  {
    var r := prev + col;
    var k := i * ny + j;
    if i < nx - 1 {
      SlotIndex(i, j, nx - 1, ny);
      assert r[k] == prev[k];
    } else {
      assert k == |prev| + j;
      assert r[k] == col[j];
    }
  }

  /** `getGridCells()`. */
  function GridCells(extent: Envelope, res: real, gutter: real): (r: seq<Envelope>)
    requires extent.minX <= extent.maxX && extent.minY <= extent.maxY
    requires res != 0.0 || extent.minX == extent.maxX
    ensures var nx := SlotCount(extent.maxX - extent.minX, res);
      var ny := if res == 0.0 && extent.minY < extent.maxY then 0 else SlotCount(extent.maxY - extent.minY, res);
      IsGrid(r, extent, res, gutter, nx, ny)
  {
    var nx := SlotCount(extent.maxX - extent.minX, res);
    // With a zero resolution only a zero-width extent gets here, and then
    // no column is produced whatever the height.
    var ny := if res == 0.0 && extent.minY < extent.maxY then 0 else SlotCount(extent.maxY - extent.minY, res);
    Columns(extent, res, gutter, nx, ny)
  }

  /** The slots reach the far edge of the extent and none starts beyond it:
      the last, possibly partial, slot is kept. */
  lemma SlotsCoverLength(len: real, res: real)
    requires len > 0.0 && res > 0.0
    ensures var n := SlotCount(len, res);
      n >= 1 && (n as real) * res >= len && ((n - 1) as real) * res < len
  {
    var n := SlotCount(len, res);
    var q := len / res;
    assert q > 0.0;
    assert !((n as real) < q);
    assert ((n - 1) as real) < q;
    assert q * res == len;
    assert (n as real) * res >= q * res;
    assert ((n - 1) as real) * res < q * res;
  }

  /** Each cell is the middle (1 - g) part of its slot: the gutter is split
      evenly on both sides and the cell is square. */
  lemma CellInSlot(extent: Envelope, res: real, gutter: real, i: nat, j: nat)
    requires res > 0.0
    ensures var c := Cell(extent, res, gutter, i, j);
      var sx := extent.minX + (i as real) * res;
      var sy := extent.minY + (j as real) * res;
      sx <= c.minX <= c.maxX <= sx + res && sy <= c.minY <= c.maxY <= sy + res &&
      c.minX - sx == sx + res - c.maxX && c.minY - sy == sy + res - c.maxY &&
      c.maxX - c.minX == c.maxY - c.minY == (1.0 - Clamp01(gutter)) * res
  {
    var g := Clamp01(gutter);
    MulNonneg(g, res);
    MulNonneg(1.0 - g, res);
  }

  /** Without a gutter the cells of a non-empty extent cover it: every point
      of the extent lies in the cell of some slot. */
  lemma NoGutterCovers(extent: Envelope, res: real, px: real, py: real)
    requires extent.minX < extent.maxX && extent.minY < extent.maxY && res > 0.0
    requires extent.minX <= px <= extent.maxX && extent.minY <= py <= extent.maxY
    ensures exists i: nat, j: nat :: InSlotCell(extent, res, i, j, px, py)
  {
    var i := SlotOf(extent.maxX - extent.minX, res, px - extent.minX);
    var j := SlotOf(extent.maxY - extent.minY, res, py - extent.minY);
    assert InSlotCell(extent, res, i, j, px, py);
  }

  /** (px, py) lies in the gutter-free cell of slot (i, j), a slot of the
      grid. */
  predicate InSlotCell(extent: Envelope, res: real, i: nat, j: nat, px: real, py: real)
    requires extent.minX <= extent.maxX && extent.minY <= extent.maxY && res > 0.0
  {
    var c := Cell(extent, res, 0.0, i, j);
    i < SlotCount(extent.maxX - extent.minX, res) && j < SlotCount(extent.maxY - extent.minY, res) &&
    c.minX <= px <= c.maxX && c.minY <= py <= c.maxY
  }

  lemma MulNonneg(a: real, b: real)
    requires a >= 0.0 && b >= 0.0
    ensures a * b >= 0.0
  {
  }

  lemma MulLe(a: real, b: real, k: real)
    requires k > 0.0 && a <= b
    ensures a * k <= b * k
  {
    assert (b - a) * k >= 0.0;
    assert (b - a) * k == b * k - a * k;
  }

  lemma AddOne(f: real, g: real, k: real)
    requires g == f + 1.0
    ensures g * k == f * k + k
  {
  }

  /** The slot holding offset `d` along an axis of length `len`. */
  lemma SlotOf(len: real, res: real, d: real) returns (i: nat)
    requires len > 0.0 && res > 0.0 && 0.0 <= d <= len
    ensures i < SlotCount(len, res)
    ensures (i as real) * res <= d <= (i as real) * res + res
  {
    SlotsCoverLength(len, res);
    i := SlotFrom(len, res, d, 0);
  }

  /** The slot holding `d`, searched from slot `i` on. */
  lemma SlotFrom(len: real, res: real, d: real, i: nat) returns (k: nat)
    requires len > 0.0 && res > 0.0 && 0.0 <= d <= len
    requires i < SlotCount(len, res) && (i as real) * res <= d
    ensures k < SlotCount(len, res)
    ensures (k as real) * res <= d <= (k as real) * res + res
    decreases SlotCount(len, res) - i
  {
    var n := SlotCount(len, res);
    if d <= (i as real) * res + res {
      k := i;
    } else {
      AddOne(i as real, (i + 1) as real, res);
      assert ((i + 1) as real) * res < d;
      if i + 1 >= n {
        SlotsCoverLength(len, res);
        MulLe(n as real, (i + 1) as real, res);
        assert false;
      }
      k := SlotFrom(len, res, d, i + 1);
    }
  }
}
