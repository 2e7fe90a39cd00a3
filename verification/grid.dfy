/**
 Geometry of the drawing surface: a square grid of `Side` x `Side` cells, each
 cell stored as `Channels` interleaved bytes in one flat row-major buffer.
 */
module Grid {

  /** Grid resolution: the classifier's input is 28 x 28. */
  const Side: int := 28
  /** Bytes per cell: red, green, blue, alpha. */
  const Channels: int := 4
  /** Bytes in one row of the buffer. */
  const RowStride: int := Side * Channels
  /** Number of cells; also the length of a captured grayscale image. */
  const Cells: int := Side * Side
  /** Length of the byte buffer, 28 * 28 * 4 = 3136. */
  const Size: int := Side * Side * Channels

  /** True when (row, col) names a cell of the grid. */
  predicate InGrid(row: int, col: int) {
    0 <= row < Side && 0 <= col < Side
  }

  /**
   The byte offset of a cell, for any row width and channel count. With the
   program's arguments (28 columns, 4 channels) an on-grid cell's four bytes
   start at row * 112 + col * 4 and lie inside the buffer.
   */
  function RowColToIndex(row: int, col: int, width: int, channel: int): (idx: int)
    ensures width == Side && channel == Channels ==> idx == row * RowStride + col * Channels
    ensures width == Side && channel == Channels && InGrid(row, col) ==> 0 <= idx && idx + Channels <= Size
  {
    row * width * channel + col * channel
  }

  /** The cell a byte offset belongs to, and the channel within that cell. */
  datatype Slot = Slot(row: int, col: int, channel: int)

  /** Inverse of the index function: which cell and channel a byte of the buffer holds. */
  function SlotOf(k: int): (s: Slot)
    requires 0 <= k < Size
    ensures InGrid(s.row, s.col) && 0 <= s.channel < Channels
    ensures RowColToIndex(s.row, s.col, Side, Channels) + s.channel == k
  {
    Slot(k / RowStride, (k % RowStride) / Channels, k % Channels)
  }

  /** Every cell's four bytes lie inside the buffer, starting at a multiple of four. */
  lemma IndexInBounds(row: int, col: int)
    requires InGrid(row, col)
    ensures RowColToIndex(row, col, Side, Channels) == row * RowStride + col * Channels
    ensures 0 <= RowColToIndex(row, col, Side, Channels)
    ensures RowColToIndex(row, col, Side, Channels) + Channels <= Size
    ensures RowColToIndex(row, col, Side, Channels) % Channels == 0
  {
  }

  /** The index function and `SlotOf` are mutually inverse on the grid. */
  lemma IndexSlotRoundTrip(row: int, col: int, channel: int)
    requires InGrid(row, col) && 0 <= channel < Channels
    ensures 0 <= RowColToIndex(row, col, Side, Channels) + channel < Size
    ensures SlotOf(RowColToIndex(row, col, Side, Channels) + channel) == Slot(row, col, channel)
  {
    var k := RowColToIndex(row, col, Side, Channels) + channel;
    assert k == (row * Side + col) * Channels + channel;
    SlotsDisjoint(row, col, channel, SlotOf(k).row, SlotOf(k).col, SlotOf(k).channel);
  }

  /**
   Two byte positions given by cell and channel coincide only when they name
   the same cell and channel: distinct cells own disjoint four-byte slots.
   */
  lemma SlotsDisjoint(r1: int, c1: int, ch1: int, r2: int, c2: int, ch2: int)
    requires InGrid(r1, c1) && 0 <= ch1 < Channels
    requires InGrid(r2, c2) && 0 <= ch2 < Channels
    ensures RowColToIndex(r1, c1, Side, Channels) + ch1 == RowColToIndex(r2, c2, Side, Channels) + ch2
        <==> r1 == r2 && c1 == c2 && ch1 == ch2
  {
    IndexInBounds(r1, c1);
    IndexInBounds(r2, c2);
  }

  /** Byte k is one of the three intensity bytes of cell (row, col) exactly when it lies in [offset, offset + 3). */
  lemma SlotIntensity(row: int, col: int, k: int)
    requires InGrid(row, col) && 0 <= k < Size
    ensures (RowColToIndex(row, col, Side, Channels) <= k < RowColToIndex(row, col, Side, Channels) + 3)
        == (SlotOf(k).row == row && SlotOf(k).col == col && SlotOf(k).channel < 3)
  {
    var s := SlotOf(k);
    var i := RowColToIndex(row, col, Side, Channels);
    IndexInBounds(row, col);
    if i <= k < i + 3 {
      SlotsDisjoint(s.row, s.col, s.channel, row, col, k - i);
    }
  }

  /** Distinct in-range cells map to distinct offsets at least a slot apart. */
  lemma IndexInjective(r1: int, c1: int, r2: int, c2: int)
    requires InGrid(r1, c1) && InGrid(r2, c2)
    requires r1 != r2 || c1 != c2
    ensures RowColToIndex(r1, c1, Side, Channels) + Channels <= RowColToIndex(r2, c2, Side, Channels)
         || RowColToIndex(r2, c2, Side, Channels) + Channels <= RowColToIndex(r1, c1, Side, Channels)
  {
    IndexInBounds(r1, c1);
    IndexInBounds(r2, c2);
  }

  /**
   The i-th cell in row-major order starts at byte i * 4: stepping through
   the buffer four bytes at a time visits the cells row by row.
   */
  lemma RowMajorOffset(i: int)
    requires 0 <= i < Cells
    ensures InGrid(i / Side, i % Side)
    ensures i * Channels == RowColToIndex(i / Side, i % Side, Side, Channels)
  {
    assert i == (i / Side) * Side + i % Side;
  }

  /**
   An idealised version of the pointer mapping: the pointer's distance from
   the surface origin, divided by the displayed extent, scaled by the grid
   resolution and floored. Real arithmetic stands for the program's
   double-precision arithmetic.
   */
  function ToGrid(pos: real, origin: real, extent: real): (cell: int)
    requires extent > 0.0
    ensures cell as real <= (pos - origin) / extent * (Side as real) < cell as real + 1.0
  {
    ((pos - origin) / extent * (Side as real)).Floor
  }

  /** A pointer maps into the grid exactly when it lies on the displayed surface. */
  lemma ToGridInRange(pos: real, origin: real, extent: real)
    requires extent > 0.0
    ensures 0 <= ToGrid(pos, origin, extent) < Side <==> origin <= pos < origin + extent
  {
    var t := (pos - origin) / extent;
    assert (pos - origin) == t * extent;
    assert (t - 1.0) * extent == (pos - origin) - extent;
    if origin <= pos < origin + extent {
      assert 0.0 <= t;
      if t >= 1.0 {
        assert false;
      }
    } else if pos < origin {
      assert t < 0.0;
    } else {
      assert t >= 1.0;
    }
  }

  /** A pointer at the centre of cell c maps back to c. */
  lemma CellCentreMapsToCell(c: int, origin: real, extent: real)
    requires 0 <= c < Side
    requires extent > 0.0
    ensures ToGrid(origin + ((c as real) + 0.5) * extent / (Side as real), origin, extent) == c
  {
    var pos := origin + ((c as real) + 0.5) * extent / (Side as real);
    var t := (pos - origin) / extent;
    assert pos - origin == ((c as real) + 0.5) / (Side as real) * extent;
    assert t == ((c as real) + 0.5) / (Side as real);
    assert t * (Side as real) == (c as real) + 0.5;
  }
}
