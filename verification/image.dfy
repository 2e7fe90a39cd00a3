/**
 The drawing surface: a `Uint8Array` of 28 * 28 * 4 bytes, painted one cell at
 a time and read back as a 784-value grayscale image for the classifier.
 */
module Image {
  import opened Grid

  /** A value an unsigned 8-bit array element can hold. */
  predicate IsByte(v: int) {
    0 <= v <= 255
  }

  /** The pixel buffer: exactly `Size` bytes, never resized. */
  predicate ValidBuffer(buf: seq<int>) {
    |buf| == Size && forall k :: 0 <= k < |buf| ==> IsByte(buf[k])
  }

  /** A freshly allocated `Uint8Array`: every byte is zero (a blank canvas). */
  function Blank(): (buf: seq<int>)
    ensures ValidBuffer(buf)
    ensures forall k :: 0 <= k < |buf| ==> buf[k] == 0
  {
    seq(Size, _ => 0)
  }

  /**
   Typed-array `set`: copy `values` into `buf` starting at `offset`. A
   `Uint8Array` stores each value modulo 256 (ToUint8). The host throws a
   RangeError when the values do not fit; callers here always check the cell
   first, so fitting is a precondition.
   */
  function SetAt(buf: seq<int>, values: seq<int>, offset: int): (r: seq<int>)
    requires 0 <= offset && offset + |values| <= |buf|
    ensures |r| == |buf|
    ensures forall k :: 0 <= k < |buf| && (k < offset || offset + |values| <= k) ==> r[k] == buf[k]
    ensures forall j :: 0 <= j < |values| ==> r[offset + j] == values[j] % 256
  {
    buf[..offset] + seq(|values|, j requires 0 <= j < |values| => values[j] % 256) + buf[offset + |values|..]
  }

  /** The three intensity channels of cell (row, col) are at full intensity. */
  predicate Painted(buf: seq<int>, row: int, col: int)
    requires |buf| == Size && InGrid(row, col)
  {
    var i := RowColToIndex(row, col, Side, Channels);
    buf[i] == 255 && buf[i + 1] == 255 && buf[i + 2] == 255
  }

  /** Byte k is one of the three intensity bytes of on-grid cell (row y, column x). */
  predicate Covers(x: int, y: int, k: int) {
    InGrid(y, x) && 0 <= k < Size && SlotOf(k).row == y && SlotOf(k).col == x && SlotOf(k).channel < 3
  }

  /**
   One pen-down paint at grid column x and row y: if the cell is on the grid,
   write [255, 255, 255] at its offset, leaving the fourth channel alone;
   otherwise leave the buffer as it is.
   */
  function Paint(buf: seq<int>, x: int, y: int): (r: seq<int>)
    requires ValidBuffer(buf)
    ensures ValidBuffer(r)
    ensures InGrid(y, x) ==> Painted(r, y, x)
    ensures forall k :: 0 <= k < Size ==> r[k] == (if Covers(x, y, k) then 255 else buf[k])
    ensures !InGrid(y, x) ==> r == buf
  {
    if x >= 0 && x < Side && y >= 0 && y < Side then
      var i := RowColToIndex(y, x, Side, Channels);
      IndexInBounds(y, x);
      var r := SetAt(buf, [255, 255, 255], i);
      forall k | 0 <= k < Size
        ensures (i <= k < i + 3) == Covers(x, y, k)
      {
        SlotIntensity(y, x, k);
      }
      r
    else
      buf
  }

  /** Painting changes exactly the three intensity bytes of the painted cell. */
  lemma PaintFrame(buf: seq<int>, x: int, y: int, k: int)
    requires ValidBuffer(buf) && InGrid(y, x) && 0 <= k < Size
    ensures Paint(buf, x, y)[k] != buf[k] ==>
      RowColToIndex(y, x, Side, Channels) <= k < RowColToIndex(y, x, Side, Channels) + 3
    ensures Paint(buf, x, y)[RowColToIndex(y, x, Side, Channels) + 3] == buf[RowColToIndex(y, x, Side, Channels) + 3]
  {
    IndexInBounds(y, x);
    var s := SlotOf(k);
    SlotsDisjoint(s.row, s.col, s.channel, y, x, s.channel);
    var a := RowColToIndex(y, x, Side, Channels) + 3;
    SlotsDisjoint(SlotOf(a).row, SlotOf(a).col, SlotOf(a).channel, y, x, 3);
  }

  /** Painting the same cell twice leaves the buffer as painting it once. */
  lemma PaintIdempotent(buf: seq<int>, x: int, y: int)
    requires ValidBuffer(buf)
    ensures Paint(Paint(buf, x, y), x, y) == Paint(buf, x, y)
  {
    var once := Paint(buf, x, y);
    var twice := Paint(once, x, y);
    if InGrid(y, x) {
      assert forall k :: 0 <= k < Size ==> twice[k] == once[k];
    }
  }

  /** Painting two cells gives the same buffer in either order. */
  lemma PaintCommutes(buf: seq<int>, x1: int, y1: int, x2: int, y2: int)
    requires ValidBuffer(buf)
    ensures Paint(Paint(buf, x1, y1), x2, y2) == Paint(Paint(buf, x2, y2), x1, y1)
  {
    var p1 := Paint(buf, x1, y1);
    var p2 := Paint(buf, x2, y2);
    var a := Paint(p1, x2, y2);
    var b := Paint(p2, x1, y1);
    forall k | 0 <= k < Size
      ensures a[k] == b[k]
    {
      assert a[k] == (if Covers(x2, y2, k) || Covers(x1, y1, k) then 255 else buf[k]);
    }
  }

  /** Painting never darkens a byte and never clears a painted cell. */
  lemma PaintMonotone(buf: seq<int>, x: int, y: int, row: int, col: int)
    requires ValidBuffer(buf) && InGrid(row, col)
    ensures forall k :: 0 <= k < Size ==> buf[k] <= Paint(buf, x, y)[k]
    ensures Painted(buf, row, col) ==> Painted(Paint(buf, x, y), row, col)
  {
  }

  /** The grayscale value of one byte: the byte divided by 255. */
  function Normalize(b: int): real {
    (b as real) / 255.0
  }

  /**
   The first `n` grayscale values: value i is the first channel of the i-th
   cell, `buf[i * 4]`, divided by 255. This is the capture loop after n
   iterations.
   */
  function CaptureFrom(buf: seq<int>, n: int): (gray: seq<real>)
    requires ValidBuffer(buf) && 0 <= n <= Cells
    ensures |gray| == n
    ensures forall i :: 0 <= i < n ==> gray[i] == Normalize(buf[i * Channels])
    ensures forall i :: 0 <= i < n ==> 0.0 <= gray[i] <= 1.0
    decreases n
  {
    if n == 0 then []
    else CaptureFrom(buf, n - 1) + [Normalize(buf[(n - 1) * Channels])]
  }

  /**
   The grayscale image handed to the classifier: one value per cell in
   row-major order, taken from the cell's first channel and scaled into [0, 1].
   */
  function Capture(buf: seq<int>): (gray: seq<real>)
    requires ValidBuffer(buf)
    ensures |gray| == Cells
    ensures forall i :: 0 <= i < Cells ==>
      gray[i] == Normalize(buf[RowColToIndex(i / Side, i % Side, Side, Channels)])
    ensures forall i :: 0 <= i < Cells ==> 0.0 <= gray[i] <= 1.0
  {
    var gray := CaptureFrom(buf, Cells);
    assert forall i :: 0 <= i < Cells ==>
      gray[i] == Normalize(buf[RowColToIndex(i / Side, i % Side, Side, Channels)]) by {
      forall i | 0 <= i < Cells
        ensures gray[i] == Normalize(buf[RowColToIndex(i / Side, i % Side, Side, Channels)])
      {
        RowMajorOffset(i);
      }
    }
    gray
  }

  /**
   Capture loses nothing of the first channel: multiplying a captured value
   by 255 gives back the byte of that cell.
   */
  lemma CaptureRecoversFirstChannel(buf: seq<int>, row: int, col: int)
    requires ValidBuffer(buf) && InGrid(row, col)
    ensures row * Side + col < Cells
    ensures Capture(buf)[row * Side + col] * 255.0 == buf[RowColToIndex(row, col, Side, Channels)] as real
  {
    var i := row * Side + col;
    assert i / Side == row && i % Side == col;
  }

  /**
   Capture depends on the first channel alone: two buffers that agree on
   every cell's first byte capture to the same image.
   */
  lemma CaptureReadsOnlyFirstChannel(a: seq<int>, b: seq<int>)
    requires ValidBuffer(a) && ValidBuffer(b)
    requires forall k :: 0 <= k < Size && k % Channels == 0 ==> a[k] == b[k]
    ensures Capture(a) == Capture(b)
  {
    var ga := Capture(a);
    var gb := Capture(b);
    forall i | 0 <= i < Cells
      ensures ga[i] == gb[i]
    {
      RowMajorOffset(i);
      assert (i * Channels) % Channels == 0;
    }
  }
}
