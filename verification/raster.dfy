/**
 * The pixel buffers `drawImageOrMask` fills before handing them to the PNG
 * writer: a 1-bit image read byte by byte from the image stream, a colour
 * image read pixel by pixel, both laid out so that a picture printed
 * mirrored on the page comes out the right way round, and, for a 1-bit
 * image mirrored horizontally, the in-place bit reversal of every byte and
 * the shift of the whole buffer that re-aligns the rows.
 *
 * Bytes are `bv8`: the `unsigned char` arithmetic of the source keeps the
 * low eight bits of each intermediate result, which is what `bv8`
 * operations do. Shift counts below eight are `bv8` values as well.
 */
module Raster {
  import Numbers
  import Numeric

  // ------------------------------------------------------------ bits of bytes

  /** The mask of pixel `j` of a byte of a 1-bit image row: the most significant bit holds the leftmost pixel. */
  function BitMask(j: int): bv8
    requires 0 <= j < 8
  {
    if j == 0 then 0x80 else if j == 1 then 0x40 else if j == 2 then 0x20 else if j == 3 then 0x10
    else if j == 4 then 0x08 else if j == 5 then 0x04 else if j == 6 then 0x02 else 0x01
  }

  /** Pixel `j` of a byte, counted from the most significant bit. */
  function BitOf(b: bv8, j: int): bool
    requires 0 <= j < 8
  {
    b & BitMask(j) != 0
  }

  /** A shift count below eight as a number. */
  function Count(cs: bv8): (n: int)
    requires cs < 8
    ensures 0 <= n < 8
  {
    if cs == 0 then 0 else if cs == 1 then 1 else if cs == 2 then 2 else if cs == 3 then 3
    else if cs == 4 then 4 else if cs == 5 then 5 else if cs == 6 then 6 else 7
  }

  /**
   * Bit `p` of a byte buffer read as one stream, most significant bit of
   * each byte first; past either end the stream reads as zero.
   */
  function StreamBit(s: seq<bv8>, p: int): bool
  {
    if 0 <= p < 8 * |s| then BitOf(s[p / 8], p % 8) else false
  }

  /** Pixel `c` of row `r` of a 1-bit image whose rows take `stride` bytes each. */
  function RowBit(s: seq<bv8>, stride: nat, r: int, c: int): bool
  {
    if 0 <= r && 0 <= c < 8 * stride then StreamBit(s, 8 * stride * r + c) else false
  }

  /**
   * The bit reversal of one byte: swap the nibbles, then the bit pairs,
   * then neighbouring bits.
   */
  function ReverseBits(a: bv8): (r: bv8)
  {
    var a1 := (a >> 4) + (a << 4);
    var a2 := ((a1 & 0xCC) >> 2) + ((a1 & 0x33) << 2);
    ((a2 & 0xAA) >> 1) + ((a2 & 0x55) << 1)
  }

  /** Reversing the bits of a byte mirrors its pixels. */
  lemma ReverseBitsMirror(a: bv8, j: int)
    requires 0 <= j < 8
    ensures BitOf(ReverseBits(a), j) == BitOf(a, 7 - j)
  {
  }

  /** Reversing twice gives the byte back. */
  lemma ReverseBitsInvolution(a: bv8)
    ensures ReverseBits(ReverseBits(a)) == a
  {
  }

  /**
   * One step of the buffer shift: the low `cs` bits of a byte move to its
   * top and the top `8 - cs` bits of the following byte fill the rest.
   */
  function Carried(a: bv8, next: bv8, cs: bv8): bv8
    requires 0 < cs < 8
  {
    (a << (8 - cs)) | ((next & (0xFF << cs)) >> cs)
  }

  /**
   * Pixel `j` of a carried byte: the pixels the byte keeps come from `gap`
   * = `8 - cs` places further on in it, the others from the top of the
   * following byte.
   */
  lemma CarriedBit(a: bv8, next: bv8, cs: bv8, gap: int, j: int)
    requires 0 < cs < 8 && gap == 8 - Count(cs) && 0 <= j < 8
    ensures BitOf(Carried(a, next, cs), j) == if j + gap < 8 then BitOf(a, j + gap) else BitOf(next, j + gap - 8)
  {
    if cs == 1 {
    } else if cs == 2 {
    } else if cs == 3 {
    } else if cs == 4 {
    } else if cs == 5 {
    } else if cs == 6 {
    }
  }

  lemma ZeroBits(j: int)
    requires 0 <= j < 8
    ensures !BitOf(0, j)
  {
  }

  // ------------------------------------------------------------ the stream

  /**
   * The byte `(unsigned char) str->getChar()` yields at position `i` of the
   * image stream: past the end getChar returns EOF, -1, which becomes 0xFF.
   */
  function StreamByte(src: seq<bv8>, i: int): bv8
  {
    if 0 <= i < |src| then src[i] else 0xFF
  }

  /** Cell `i` of a buffer, or zero outside it. */
  function Cell(s: seq<bv8>, i: int): bv8
  {
    if 0 <= i < |s| then s[i] else 0
  }

  /** The first `n` bytes read from the stream. */
  function StreamBytes(src: seq<bv8>, n: nat): (s: seq<bv8>)
    ensures |s| == n
    ensures forall i :: 0 <= i < n ==> s[i] == StreamByte(src, i)
  {
    seq(n, i => StreamByte(src, i))
  }

  /** Bytes per row of a 1-bit image: `(width + 7) >> 3`. */
  function Stride(width: nat): (stride: nat)
    ensures width <= 8 * stride < width + 8
  {
    (width + 7) / 8
  }

  /**
   * The number of padding bits at the end of a 1-bit row, which the
   * horizontal mirror moves to the front of the row.
   */
  function Gap(width: nat): (g: nat)
    ensures g == 8 * Stride(width) - width
    ensures g < 8 && (g == 0 <==> width % 8 == 0)
  {
    if width % 8 == 0 then 0 else 8 - width % 8
  }

  // ------------------------------------------------------------ buffer layout

  /** Index `i` of `count` counted from the other end when `flip` is set. */
  function Mirror(flip: bool, count: int, i: int): int
  {
    if flip then count - 1 - i else i
  }

  /**
   * The buffer cell that the traversal fills with cell (y, x) of the image
   * as read, for images of `rows` rows of `cols` cells: the row and the
   * column are mirrored when the picture is printed flipped.
   */
  function Target(flipX: bool, flipY: bool, cols: int, rows: int, y: int, x: int): int
  {
    Mirror(flipY, rows, y) * cols + Mirror(flipX, cols, x)
  }

  lemma MirrorInvolution(flip: bool, count: int, i: int)
    ensures Mirror(flip, count, Mirror(flip, count, i)) == i
    ensures 0 <= i < count ==> 0 <= Mirror(flip, count, i) < count
  {
  }

  /** Every cell of the image lands inside the buffer. */
  lemma TargetInRange(flipX: bool, flipY: bool, cols: nat, rows: nat, y: int, x: int)
    requires 0 <= y < rows && 0 <= x < cols
    ensures 0 <= Target(flipX, flipY, cols, rows, y, x) < cols * rows
  {
    var r, c := Mirror(flipY, rows, y), Mirror(flipX, cols, x);
    MirrorInvolution(flipY, rows, y);
    MirrorInvolution(flipX, cols, x);
    assert r * cols + c < (r + 1) * cols;
    assert (r + 1) * cols <= rows * cols by {
      Numbers.MulMonotone(r + 1, rows, cols);
    }
  }

  lemma TargetsInRange(flipX: bool, flipY: bool, cols: nat, rows: nat)
    ensures forall y, x :: 0 <= y < rows && 0 <= x < cols ==> 0 <= Target(flipX, flipY, cols, rows, y, x) < cols * rows
  {
    forall y, x | 0 <= y < rows && 0 <= x < cols
      ensures 0 <= Target(flipX, flipY, cols, rows, y, x) < cols * rows
    {
      TargetInRange(flipX, flipY, cols, rows, y, x);
    }
  }

  /** Different cells land in different places: no cell of the buffer is written twice. */
  lemma TargetInjective(flipX: bool, flipY: bool, cols: nat, rows: nat, y: int, x: int, y': int, x': int)
    requires 0 <= y < rows && 0 <= x < cols && 0 <= y' < rows && 0 <= x' < cols
    requires Target(flipX, flipY, cols, rows, y, x) == Target(flipX, flipY, cols, rows, y', x')
    ensures y == y' && x == x'
  {
    MirrorInvolution(flipY, rows, y);
    MirrorInvolution(flipX, cols, x);
    MirrorInvolution(flipY, rows, y');
    MirrorInvolution(flipX, cols, x');
    var n := Target(flipX, flipY, cols, rows, y, x);
    Numbers.ModUnique(n, cols, Mirror(flipY, rows, y), Mirror(flipX, cols, x));
    Numbers.ModUnique(n, cols, Mirror(flipY, rows, y'), Mirror(flipX, cols, x'));
  }

  /** Every cell of the buffer is the place of some cell of the image. */
  lemma TargetOnto(flipX: bool, flipY: bool, cols: nat, rows: nat, i: int)
    requires 0 <= i < cols * rows
    ensures var y, x := Mirror(flipY, rows, i / cols), Mirror(flipX, cols, i % cols);
      0 <= y < rows && 0 <= x < cols && Target(flipX, flipY, cols, rows, y, x) == i
  {
    var q := i / cols;
    assert q < rows by {
      if q >= rows {
        Numbers.MulMonotone(rows, q, cols);
      }
    }
    MirrorInvolution(flipY, rows, q);
    MirrorInvolution(flipX, cols, i % cols);
  }

  /** The traversal position moves one cell along the row. */
  lemma NextCell(flipX: bool, flipY: bool, cols: int, rows: int, y: int, x: int)
    ensures Target(flipX, flipY, cols, rows, y, x + 1) == Target(flipX, flipY, cols, rows, y, x) + (if flipX then -1 else 1)
  {
  }

  /**
   * After a row the position has reached the cell past the row's end, and
   * the source's row increment takes it to the start of the next row.
   */
  lemma NextRow(flipX: bool, flipY: bool, cols: int, rows: int, y: int, increment: int)
    requires increment == if flipX == flipY then 0 else if flipX then 2 * cols else -2 * cols
    ensures Target(flipX, flipY, cols, rows, y, cols) + increment == Target(flipX, flipY, cols, rows, y + 1, 0)
  {
    if flipY {
      assert (rows - 1 - y) * cols == (rows - 1 - (y + 1)) * cols + cols;
    } else {
      assert (y + 1) * cols == y * cols + cols;
    }
  }

  /** Where the traversal starts: the place of cell (0, 0). */
  lemma FirstCell(flipX: bool, flipY: bool, cols: int, rows: int, start: int)
    requires start == if flipX then (if flipY then rows * cols - 1 else cols - 1)
                      else (if flipY then (rows - 1) * cols else 0)
    ensures start == Target(flipX, flipY, cols, rows, 0, 0)
  {
    if flipY {
      assert rows * cols == (rows - 1) * cols + cols;
    }
  }

  // ------------------------------------------------------------ 1-bit images

  /**
   * The read loop of a 1-bit image: `stride * height` bytes taken from the
   * stream in order, byte (y, x) stored at the position `k` that starts at
   * the place of the first byte and moves by `x_increment` per byte and by
   * `y_increment` more per row.
   */
  method ReadMonochrome(src: seq<bv8>, width: nat, height: nat, flipX: bool, flipY: bool) returns (data: array<bv8>)
    ensures fresh(data) && data.Length == Stride(width) * height
    ensures forall y, x :: 0 <= y < height && 0 <= x < Stride(width) ==>
      Cell(data[..], Target(flipX, flipY, Stride(width), height, y, x)) == StreamByte(src, y * Stride(width) + x)
  {
    var stride := (width + 7) / 8;
    data := new bv8[stride * height];
    var k, xIncrement, yIncrement;
    if flipX {
      if flipY {
        k, xIncrement, yIncrement := height * stride - 1, -1, 0;
      } else {
        k, xIncrement, yIncrement := stride - 1, -1, 2 * stride;
      }
    } else {
      if flipY {
        k, xIncrement, yIncrement := (height - 1) * stride, 1, -2 * stride;
      } else {
        k, xIncrement, yIncrement := 0, 1, 0;
      }
    }
    FirstCell(flipX, flipY, stride, height, k);
    var position := 0;
    for y := 0 to height
      invariant k == Target(flipX, flipY, stride, height, y, 0)
      invariant position == y * stride
      invariant Filled(data[..], src, flipX, flipY, stride, height, y, 0)
    {
      k, position := ReadRow(src, data, flipX, flipY, stride, height, y, k, xIncrement, position);
      NextRow(flipX, flipY, stride, height, y, yIncrement);
      k := k + yIncrement;
      RowStart(y, stride);
    }
  }

  /**
   * The inner loop of the 1-bit read: the `stride` bytes of row `y`, from
   * stream position `position` on, stored at `k`, `k + xIncrement`, ...
   */
  method ReadRow(src: seq<bv8>, data: array<bv8>, flipX: bool, flipY: bool, stride: nat, height: nat, y: nat,
                 k0: int, xIncrement: int, position0: int) returns (k: int, position: int)
    requires y < height && data.Length == stride * height
    requires k0 == Target(flipX, flipY, stride, height, y, 0) && xIncrement == (if flipX then -1 else 1)
    requires position0 == y * stride
    requires Filled(data[..], src, flipX, flipY, stride, height, y, 0)
    modifies data
    ensures k == Target(flipX, flipY, stride, height, y, stride) && position == y * stride + stride
    ensures Filled(data[..], src, flipX, flipY, stride, height, y, stride)
  {
    k, position := k0, position0;
    for x := 0 to stride
      invariant k == Target(flipX, flipY, stride, height, y, x)
      invariant position == y * stride + x
      invariant Filled(data[..], src, flipX, flipY, stride, height, y, x)
    {
      ghost var before := data[..];
      FilledStep(before, src, flipX, flipY, stride, height, y, x);
      data[k] := StreamByte(src, position);
      assert data[..] == before[k := StreamByte(src, position)];
      position := position + 1;
      NextCell(flipX, flipY, stride, height, y, x);
      k := k + xIncrement;
    }
  }

  lemma RowStart(y: int, cols: int)
    ensures y * cols + cols == (y + 1) * cols
  {
  }

  /**
   * The cells read before cell (y, x), in row order, hold the bytes read
   * for them.
   */
  ghost predicate Filled(d: seq<bv8>, src: seq<bv8>, flipX: bool, flipY: bool, cols: nat, rows: nat, y: int, x: int)
  {
    forall r, c :: 0 <= r < rows && 0 <= c < cols && (r < y || (r == y && c < x)) ==>
      Cell(d, Target(flipX, flipY, cols, rows, r, c)) == StreamByte(src, r * cols + c)
  }

  /** Storing the byte read for cell (y, x) at its place extends what is filled by one cell. */
  lemma FilledStep(d: seq<bv8>, src: seq<bv8>, flipX: bool, flipY: bool, cols: nat, rows: nat, y: int, x: int)
    requires 0 <= y < rows && 0 <= x < cols && |d| == cols * rows
    requires Filled(d, src, flipX, flipY, cols, rows, y, x)
    ensures 0 <= Target(flipX, flipY, cols, rows, y, x) < |d|
    ensures Filled(d[Target(flipX, flipY, cols, rows, y, x) := StreamByte(src, y * cols + x)], src, flipX, flipY, cols, rows, y, x + 1)
  {
    TargetInRange(flipX, flipY, cols, rows, y, x);
    Written(flipX, flipY, cols, rows, y, x);
  }

  /** The place of cell (y, x) differs from the places of the cells read before it. */
  lemma Written(flipX: bool, flipY: bool, cols: nat, rows: nat, y: int, x: int)
    requires 0 <= y < rows && 0 <= x < cols
    ensures forall r, c :: 0 <= r < rows && 0 <= c < cols && (r < y || (r == y && c < x)) ==>
      Target(flipX, flipY, cols, rows, r, c) != Target(flipX, flipY, cols, rows, y, x)
  {
    forall r, c | 0 <= r < rows && 0 <= c < cols && (r < y || (r == y && c < x))
      ensures Target(flipX, flipY, cols, rows, r, c) != Target(flipX, flipY, cols, rows, y, x)
    {
      if Target(flipX, flipY, cols, rows, r, c) == Target(flipX, flipY, cols, rows, y, x) {
        TargetInjective(flipX, flipY, cols, rows, r, c, y, x);
      }
    }
  }

  /**
   * The bit reversal of every byte, in place: with the bytes of each row
   * already in reverse order this mirrors the whole row, padding included.
   */
  method ReverseBytes(data: array<bv8>)
    modifies data
    ensures data[..] == ReversedBytes(old(data[..]))
  {
    for k := 0 to data.Length
      invariant forall i :: 0 <= i < k ==> data[i] == ReverseBits(old(data[i]))
      invariant forall i :: k <= i < data.Length ==> data[i] == old(data[i])
    {
      var a := data[k];
      a := (a >> 4) + (a << 4);
      a := ((a & 0xCC) >> 2) + ((a & 0x33) << 2);
      data[k] := ((a & 0xAA) >> 1) + ((a & 0x55) << 1);
    }
  }
  /** Every byte of a buffer with its bits reversed. */
  function ReversedBytes(s: seq<bv8>): (r: seq<bv8>)
    ensures |r| == |s|
  {
    seq(|s|, i requires 0 <= i < |s| => ReverseBits(s[i]))
  }

  /** Bit `8 * t + (7 - j)` of the reversed buffer is bit `j` of byte `t`. */
  lemma ReversedBit(d: seq<bv8>, t: int, j: int)
    requires 0 <= t < |d| && 0 <= j < 8
    ensures StreamBit(ReversedBytes(d), 8 * t + (7 - j)) == BitOf(d[t], j)
  {
    Numbers.ModUnique(8 * t + (7 - j), 8, t, 7 - j);
    ReverseBitsMirror(d[t], 7 - j);
  }


  /** The byte after byte `i` of a buffer, zero past the end. */
  function Following(s: seq<bv8>, i: int): bv8
  {
    if 0 <= i + 1 < |s| then s[i + 1] else 0
  }

  /**
   * The bit stream of `t` is the bit stream of `s` moved `gap` places
   * towards its start: bit `p` of `t` is bit `p + gap` of `s`, and bits
   * past the end of `s` read as zero.
   */
  ghost predicate ShiftedBy(t: seq<bv8>, s: seq<bv8>, gap: int)
  {
    forall p :: 0 <= p < 8 * |t| ==> StreamBit(t, p) == StreamBit(s, p + gap)
  }

  /** Every byte of `t` is the carry of the byte of `s` at its place and the one after it. */
  ghost predicate CarriedFrom(t: seq<bv8>, s: seq<bv8>, cs: bv8, from: int)
    requires 0 < cs < 8 && |t| == |s|
  {
    forall i :: from <= i < |s| && 0 <= i ==> t[i] == Carried(s[i], Following(s, i), cs)
  }

  /**
   * The re-alignment after a horizontal mirror: unless the width is a
   * multiple of eight, the whole buffer, read as one bit stream, moves
   * towards its start by the row's padding, zero bits coming in at the end.
   */
  method AlignRows(data: array<bv8>, width: nat)
    modifies data
    ensures ShiftedBy(data[..], old(data[..]), Gap(width))
  {
    var complementaryShift := width % 8;
    if complementaryShift != 0 {
      var cs := complementaryShift as bv8;
      ShiftCount(width, cs);
      ghost var original := data[..];
      ShiftBuffer(data, cs);
      ShiftedStream(original, data[..], cs, Gap(width));
    }
  }

  /** The top `8 - cs` bits of a byte, moved down by `cs`: what it gives to the byte before it. */
  function Remainder(a: bv8, cs: bv8): bv8
    requires 0 < cs < 8
  {
    (a & (0xFF << cs)) >> cs
  }

  /**
   * The carry loop of the re-alignment, for `cs` = `width & 7` not zero:
   * the loop walks down from the last byte; each byte keeps its low `cs`
   * bits, moved to the top, and takes the top `8 - cs` bits of the byte
   * after it, which the loop carries in `remainder`.
   */
  method ShiftBuffer(data: array<bv8>, cs: bv8)
    requires 0 < cs < 8
    modifies data
    ensures CarriedFrom(data[..], old(data[..]), cs, 0)
  {
    ghost var original := data[..];
    var remainder: bv8 := 0;
    var k := data.Length - 1;
    while k >= 0
      invariant -1 <= k < data.Length && |original| == data.Length
      invariant CarriedFrom(data[..], original, cs, k + 1)
      invariant data[..k + 1] == original[..k + 1]
      invariant remainder == Remainder(Following(original, k), cs)
    {
      assert data[k] == original[k] by {
        assert data[..k + 1][k] == original[..k + 1][k];
      }
      ghost var before := data[..];
      remainder := CarryByte(data, k, cs, remainder, Following(original, k));
      CarriedStep(before, data[..], original, cs, k, data[k]);
      k := k - 1;
    }
  }

  /**
   * The body of the carry loop at byte `k`: the byte becomes the carry of
   * itself and its successor `next`, whose top bits come in `remainder`,
   * and the bits it gives up are returned for the byte before it.
   */
  method CarryByte(data: array<bv8>, k: int, cs: bv8, remainder: bv8, ghost next: bv8) returns (b: bv8)
    requires 0 < cs < 8 && 0 <= k < data.Length && remainder == Remainder(next, cs)
    modifies data
    ensures data[..] == old(data[..])[k := Carried(old(data[k]), next, cs)]
    ensures b == Remainder(old(data[k]), cs)
  {
    var shift := 8 - cs;
    var mask: bv8 := 0xFF << cs;
    var a := data[k];
    b := (a & mask) >> cs;
    data[k] := (a << shift) | remainder;
  }

  /** Storing the carried byte at `k` extends the carried part down to `k`. */
  lemma CarriedStep(before: seq<bv8>, after: seq<bv8>, s: seq<bv8>, cs: bv8, k: int, carried: bv8)
    requires 0 < cs < 8 && |before| == |s| && 0 <= k < |s|
    requires CarriedFrom(before, s, cs, k + 1) && before[..k + 1] == s[..k + 1]
    requires carried == Carried(s[k], Following(s, k), cs) && after == before[k := carried]
    ensures CarriedFrom(after, s, cs, k) && after[..k] == s[..k]
  {
  }

  /** A shift count `width & 7` that is not zero, as a byte-sized value, and the padding it leaves. */
  lemma ShiftCount(width: nat, cs: bv8)
    requires width % 8 != 0 && cs == (width % 8) as bv8
    ensures 0 < cs < 8 && Count(cs) == width % 8 && Gap(width) == 8 - Count(cs)
  {
  }

  /** The bytes computed by the carry loop hold the original stream moved by `8 - cs` bits. */
  lemma ShiftedStream(s: seq<bv8>, t: seq<bv8>, cs: bv8, gap: int)
    requires 0 < cs < 8 && |t| == |s| && gap == 8 - Count(cs)
    requires CarriedFrom(t, s, cs, 0)
    ensures ShiftedBy(t, s, gap)
  {
    forall p | 0 <= p < 8 * |t|
      ensures StreamBit(t, p) == StreamBit(s, p + gap)
    {
      ShiftedBit(s, t, cs, gap, p);
    }
  }

  /** One bit of the shifted stream is the bit `8 - cs` places further on in the original. */
  lemma ShiftedBit(s: seq<bv8>, t: seq<bv8>, cs: bv8, gap: int, p: int)
    requires 0 < cs < 8 && |t| == |s| && gap == 8 - Count(cs)
    requires CarriedFrom(t, s, cs, 0)
    requires 0 <= p < 8 * |s|
    ensures StreamBit(t, p) == StreamBit(s, p + gap)
  {
    var k, j := p / 8, p % 8;
    assert StreamBit(t, p) == BitOf(Carried(s[k], Following(s, k), cs), j);
    CarriedBit(s[k], Following(s, k), cs, gap, j);
    if j + gap < 8 {
      KeptBit(s, gap, p);
    } else {
      CarriedInBit(s, gap, p);
    }
  }

  /** A bit that stays in its byte: it comes from `gap` places further on in the same byte. */
  lemma KeptBit(s: seq<bv8>, gap: int, p: int)
    requires 0 < gap < 8 && 0 <= p < 8 * |s| && p % 8 + gap < 8
    ensures StreamBit(s, p + gap) == BitOf(s[p / 8], p % 8 + gap)
  {
    Numbers.ModUnique(p + gap, 8, p / 8, p % 8 + gap);
  }

  /** A bit carried in: it comes from the top of the following byte, or is zero past the end. */
  lemma CarriedInBit(s: seq<bv8>, gap: int, p: int)
    requires 0 < gap < 8 && 0 <= p < 8 * |s| && p % 8 + gap >= 8
    ensures StreamBit(s, p + gap) == BitOf(Following(s, p / 8), p % 8 + gap - 8)
  {
    Numbers.ModUnique(p + gap, 8, p / 8 + 1, p % 8 + gap - 8);
    if p / 8 + 1 == |s| {
      ZeroBits(p % 8 + gap - 8);
    }
  }

  // ------------------------------------------------------------ the 1-bit picture

  /**
   * The 1-bit buffer handed to the PNG writer: the bytes read in mirrored
   * order, and for a horizontal mirror the bits of every byte reversed and
   * the buffer re-aligned. Pixel (y, x) of the image as the stream holds it
   * ends up at row `Mirror(flipY, height, y)` and column
   * `Mirror(flipX, width, x)` of the buffer.
   */
  method MonochromeImage(src: seq<bv8>, width: nat, height: nat, flipX: bool, flipY: bool) returns (data: array<bv8>)
    ensures fresh(data) && data.Length == Stride(width) * height
    ensures forall y, x :: 0 <= y < height && 0 <= x < width ==>
      RowBit(data[..], Stride(width), Mirror(flipY, height, y), Mirror(flipX, width, x))
        == BitOf(StreamByte(src, y * Stride(width) + x / 8), x % 8)
  {
    data := ReadMonochrome(src, width, height, flipX, flipY);
    ghost var read := data[..];
    if flipX {
      ReverseBytes(data);
      ghost var reversed := data[..];
      AlignRows(data, width);
      PixelsMirrored(read, reversed, data[..], src, width, height, flipY);
    } else {
      PixelsPlain(read, src, width, height, flipY);
    }
  }

  /** Without a horizontal mirror, every pixel of the read buffer is at its row's place, in its own column. */
  lemma PixelsPlain(d: seq<bv8>, src: seq<bv8>, width: nat, height: nat, flipY: bool)
    requires |d| == Stride(width) * height
    requires forall y, x :: 0 <= y < height && 0 <= x < Stride(width) ==>
      Cell(d, Target(false, flipY, Stride(width), height, y, x)) == StreamByte(src, y * Stride(width) + x)
    ensures forall y, x :: 0 <= y < height && 0 <= x < width ==>
      RowBit(d, Stride(width), Mirror(flipY, height, y), Mirror(false, width, x)) == BitOf(StreamByte(src, y * Stride(width) + x / 8), x % 8)
  {
    forall y, x | 0 <= y < height && 0 <= x < width
      ensures RowBit(d, Stride(width), Mirror(flipY, height, y), Mirror(false, width, x)) == BitOf(StreamByte(src, y * Stride(width) + x / 8), x % 8)
    {
      PixelPlain(d, src, Stride(width), height, flipY, y, x);
    }
  }

  /** With a horizontal mirror, every pixel of the final buffer is at its row's place, in the mirrored column. */
  lemma PixelsMirrored(d: seq<bv8>, reversed: seq<bv8>, aligned: seq<bv8>, src: seq<bv8>, width: nat, height: nat, flipY: bool)
    requires |d| == Stride(width) * height
    requires forall y, x :: 0 <= y < height && 0 <= x < Stride(width) ==>
      Cell(d, Target(true, flipY, Stride(width), height, y, x)) == StreamByte(src, y * Stride(width) + x)
    requires reversed == ReversedBytes(d)
    requires |aligned| == |d| && ShiftedBy(aligned, reversed, Gap(width))
    ensures forall y, x :: 0 <= y < height && 0 <= x < width ==>
      RowBit(aligned, Stride(width), Mirror(flipY, height, y), Mirror(true, width, x)) == BitOf(StreamByte(src, y * Stride(width) + x / 8), x % 8)
  {
    forall y, x | 0 <= y < height && 0 <= x < width
      ensures RowBit(aligned, Stride(width), Mirror(flipY, height, y), Mirror(true, width, x)) == BitOf(StreamByte(src, y * Stride(width) + x / 8), x % 8)
    {
      PixelMirrored(d, reversed, aligned, src, width, height, flipY, y, x);
    }
  }

  /** Without a horizontal mirror, pixel x of a row is bit x % 8 of byte x / 8 of the row's place. */
  lemma PixelPlain(d: seq<bv8>, src: seq<bv8>, stride: nat, height: nat, flipY: bool, y: int, x: int)
    requires 0 <= y < height && 0 <= x < 8 * stride && |d| == stride * height
    requires Cell(d, Target(false, flipY, stride, height, y, x / 8)) == StreamByte(src, y * stride + x / 8)
    ensures RowBit(d, stride, Mirror(flipY, height, y), x) == BitOf(StreamByte(src, y * stride + x / 8), x % 8)
  {
    var r := Mirror(flipY, height, y);
    var t := Target(false, flipY, stride, height, y, x / 8);
    TargetInRange(false, flipY, stride, height, y, x / 8);
    MirrorInvolution(flipY, height, y);
    BitPlace(stride, r, x);
  }

  /** Bit `x` of row `r` is bit `x % 8` of byte `x / 8` of the row. */
  lemma BitPlace(stride: int, r: int, x: int)
    requires 0 <= x
    ensures (8 * stride * r + x) / 8 == r * stride + x / 8 && (8 * stride * r + x) % 8 == x % 8
  {
    assert 8 * stride * r + x == (r * stride + x / 8) * 8 + x % 8;
    Numbers.ModUnique(8 * stride * r + x, 8, r * stride + x / 8, x % 8);
  }

  /**
   * With a horizontal mirror, pixel x of a row lands at column
   * `width - 1 - x`: the read put its byte at the mirrored byte place,
   * the bit reversal at the mirrored bit, and the re-alignment removed the
   * padding that the mirror had moved to the front of the row.
   */
  lemma PixelMirrored(d: seq<bv8>, reversed: seq<bv8>, aligned: seq<bv8>, src: seq<bv8>,
                      width: nat, height: nat, flipY: bool, y: int, x: int)
    requires 0 <= y < height && 0 <= x < width && |d| == Stride(width) * height
    requires Cell(d, Target(true, flipY, Stride(width), height, y, x / 8)) == StreamByte(src, y * Stride(width) + x / 8)
    requires reversed == ReversedBytes(d)
    requires |aligned| == |d| && ShiftedBy(aligned, reversed, Gap(width))
    ensures RowBit(aligned, Stride(width), Mirror(flipY, height, y), width - 1 - x)
      == BitOf(StreamByte(src, y * Stride(width) + x / 8), x % 8)
  {
    var stride := Stride(width);
    var r := Mirror(flipY, height, y);
    var t := Target(true, flipY, stride, height, y, x / 8);
    TargetInRange(true, flipY, stride, height, y, x / 8);
    MirrorInvolution(flipY, height, y);
    Numbers.MulMonotone(r + 1, height, stride);
    MirroredStream(reversed, aligned, width, r, x, t);
    ReversedBit(d, t, x % 8);
  }

  /**
   * In the re-aligned buffer, bit `width - 1 - x` of row `r` is bit
   * `7 - x % 8` of the mirrored byte of the row before the re-alignment.
   */
  lemma MirroredStream(reversed: seq<bv8>, aligned: seq<bv8>, width: nat, r: int, x: int, t: int)
    requires 0 <= x < width && 0 <= r && (r + 1) * Stride(width) <= |aligned| == |reversed|
    requires t == r * Stride(width) + (Stride(width) - 1 - x / 8)
    requires ShiftedBy(aligned, reversed, Gap(width))
    ensures RowBit(aligned, Stride(width), r, width - 1 - x) == StreamBit(reversed, 8 * t + (7 - x % 8))
  {
    var stride := Stride(width);
    var q := 8 * stride * r + (width - 1 - x);
    MirroredPosition(width, r, x, t, |aligned|);
    assert RowBit(aligned, stride, r, width - 1 - x) == StreamBit(aligned, q);
    ShiftedAt(aligned, reversed, Gap(width), q);
  }

  /** Where column `width - 1 - x` of row `r` sits in the stream, before and after the re-alignment. */
  lemma MirroredPosition(width: nat, r: int, x: int, t: int, n: int)
    requires 0 <= x < width && 0 <= r && (r + 1) * Stride(width) <= n
    requires t == r * Stride(width) + (Stride(width) - 1 - x / 8)
    ensures var q := 8 * Stride(width) * r + (width - 1 - x);
      0 <= width - 1 - x < 8 * Stride(width) && 0 <= q < 8 * n && q + Gap(width) == 8 * t + (7 - x % 8)
  {
    var stride := Stride(width);
    MirroredBitPlace(width, stride, r, x);
    assert (r + 1) * stride == r * stride + stride;
  }

  /** One bit of a shifted stream. */
  lemma ShiftedAt(t: seq<bv8>, s: seq<bv8>, gap: int, p: int)
    requires ShiftedBy(t, s, gap) && 0 <= p < 8 * |t|
    ensures StreamBit(t, p) == StreamBit(s, p + gap)
  {
  }

  /**
   * Bit `width - 1 - x` of row `r`, moved on by the padding, is bit
   * `7 - x % 8` of the mirrored byte `stride - 1 - x / 8` of the row.
   */
  lemma MirroredBitPlace(width: nat, stride: int, r: int, x: int)
    requires 0 <= x < width && stride == Stride(width)
    ensures var p := 8 * stride * r + (width - 1 - x) + Gap(width);
      p == 8 * (r * stride + (stride - 1 - x / 8)) + (7 - x % 8) &&
      p / 8 == r * stride + (stride - 1 - x / 8) && p % 8 == 7 - x % 8
  {
    var p := 8 * stride * r + (width - 1 - x) + Gap(width);
    assert p == (r * stride + (stride - 1 - x / 8)) * 8 + (7 - x % 8);
    Numbers.ModUnique(p, 8, r * stride + (stride - 1 - x / 8), 7 - x % 8);
  }

  // ------------------------------------------------------------ colour images

  /** The colour of pixel `i` in reading order as the colour map gives it; black past the end. */
  function PixelColor(pixels: seq<Numeric.Rgb>, i: int): Numeric.Rgb
  {
    if 0 <= i < |pixels| then pixels[i] else Numeric.Rgb(0, 0, 0)
  }

  /** Byte `ch` of a pixel in the RGB buffer: `clamp(rgb.r >> 8)`, then green, then blue. */
  function Channel(rgb: Numeric.Rgb, ch: int): bv8
  {
    (if ch == 0 then Numeric.ComponentByte(rgb.r)
     else if ch == 1 then Numeric.ComponentByte(rgb.g)
     else Numeric.ComponentByte(rgb.b)) as bv8
  }

  /** The three bytes of pixel place `t` of an RGB buffer hold the colour. */
  ghost predicate HoldsPixel(d: seq<bv8>, t: int, rgb: Numeric.Rgb)
  {
    Cell(d, 3 * t) == Channel(rgb, 0) && Cell(d, 3 * t + 1) == Channel(rgb, 1) && Cell(d, 3 * t + 2) == Channel(rgb, 2)
  }

  /** The pixels read before pixel (y, x), in row order, are at their places. */
  ghost predicate PixelsFilled(d: seq<bv8>, pixels: seq<Numeric.Rgb>, flipX: bool, flipY: bool, cols: nat, rows: nat, y: int, x: int)
  {
    forall r, c :: 0 <= r < rows && 0 <= c < cols && (r < y || (r == y && c < x)) ==>
      HoldsPixel(d, Target(flipX, flipY, cols, rows, r, c), PixelColor(pixels, r * cols + c))
  }

  /**
   * The read loop of a colour image: one line of pixels per row, each
   * pixel's red, green and blue bytes stored at `k`, `k + 1`, `k + 2`; `k`
   * starts at the place of the first pixel and moves by `3 + x_increment`
   * per pixel and by `y_increment` more per row, so that pixel (y, x) lands
   * at the mirrored pixel place.
   */
  method ReadRgb(pixels: seq<Numeric.Rgb>, width: nat, height: nat, flipX: bool, flipY: bool) returns (data: array<bv8>)
    ensures fresh(data) && data.Length == width * height * 3
    ensures forall y, x :: 0 <= y < height && 0 <= x < width ==>
      HoldsPixel(data[..], Target(flipX, flipY, width, height, y, x), PixelColor(pixels, y * width + x))
  {
    data := new bv8[width * height * 3];
    var k, xIncrement, yIncrement;
    if flipX {
      if flipY {
        k, xIncrement, yIncrement := 3 * height * width - 3, -6, 0;
      } else {
        k, xIncrement, yIncrement := 3 * (width - 1), -6, 6 * width;
      }
    } else {
      if flipY {
        k, xIncrement, yIncrement := 3 * (height - 1) * width, 0, -6 * width;
      } else {
        k, xIncrement, yIncrement := 0, 0, 0;
      }
    }
    ghost var first := if flipX then (if flipY then height * width - 1 else width - 1)
                       else (if flipY then (height - 1) * width else 0);
    ghost var rowStep := if flipX == flipY then 0 else if flipX then 2 * width else -2 * width;
    assert k == 3 * first && yIncrement == 3 * rowStep by {
      assert 3 * height * width == 3 * (height * width);
      assert 3 * (height - 1) * width == 3 * ((height - 1) * width);
    }
    FirstCell(flipX, flipY, width, height, first);
    var position := 0;
    for y := 0 to height
      invariant k == 3 * Target(flipX, flipY, width, height, y, 0)
      invariant position == y * width
      invariant PixelsFilled(data[..], pixels, flipX, flipY, width, height, y, 0)
    {
      k, position := ReadRgbRow(pixels, data, flipX, flipY, width, height, y, k, xIncrement, position);
      NextRow(flipX, flipY, width, height, y, rowStep);
      k := k + yIncrement;
      RowStart(y, width);
    }
  }

  /** The inner loop of the colour read: the `width` pixels of row `y`. */
  method ReadRgbRow(pixels: seq<Numeric.Rgb>, data: array<bv8>, flipX: bool, flipY: bool, width: nat, height: nat, y: nat,
                    k0: int, xIncrement: int, position0: int) returns (k: int, position: int)
    requires y < height && data.Length == width * height * 3
    requires k0 == 3 * Target(flipX, flipY, width, height, y, 0) && xIncrement == (if flipX then -6 else 0)
    requires position0 == y * width
    requires PixelsFilled(data[..], pixels, flipX, flipY, width, height, y, 0)
    modifies data
    ensures k == 3 * Target(flipX, flipY, width, height, y, width) && position == y * width + width
    ensures PixelsFilled(data[..], pixels, flipX, flipY, width, height, y, width)
  {
    k, position := k0, position0;
    for x := 0 to width
      invariant k == 3 * Target(flipX, flipY, width, height, y, x)
      invariant position == y * width + x
      invariant PixelsFilled(data[..], pixels, flipX, flipY, width, height, y, x)
    {
      var rgb := PixelColor(pixels, position);
      ghost var t := Target(flipX, flipY, width, height, y, x);
      PixelStep(data[..], pixels, flipX, flipY, width, height, y, x, t, rgb);
      k := StorePixel(data, k, rgb, t);
      k := k + xIncrement;
      position := position + 1;
      NextCell(flipX, flipY, width, height, y, x);
    }
  }

  /** The buffer with the three bytes of pixel place `t` set to the colour. */
  function PutPixel(d: seq<bv8>, t: int, rgb: Numeric.Rgb): seq<bv8>
    requires 0 <= 3 * t && 3 * t + 2 < |d|
  {
    d[3 * t := Channel(rgb, 0)][3 * t + 1 := Channel(rgb, 1)][3 * t + 2 := Channel(rgb, 2)]
  }

  /** The three stores `data[k++] = ...` of one pixel's red, green and blue bytes. */
  method StorePixel(data: array<bv8>, k: int, rgb: Numeric.Rgb, ghost t: int) returns (next: int)
    requires k == 3 * t && 0 <= k && k + 2 < data.Length
    modifies data
    ensures next == k + 3
    ensures data[..] == PutPixel(old(data[..]), t, rgb)
  {
    next := k;
    data[next] := Channel(rgb, 0);
    next := next + 1;
    data[next] := Channel(rgb, 1);
    next := next + 1;
    data[next] := Channel(rgb, 2);
    next := next + 1;
  }

  /** Setting a pixel place gives it the colour and leaves every other pixel place as it was. */
  lemma PutPixelEffect(d: seq<bv8>, t: int, rgb: Numeric.Rgb, u: int, old_rgb: Numeric.Rgb)
    requires 0 <= 3 * t && 3 * t + 2 < |d|
    ensures HoldsPixel(PutPixel(d, t, rgb), t, rgb)
    ensures u != t ==> (HoldsPixel(PutPixel(d, t, rgb), u, old_rgb) <==> HoldsPixel(d, u, old_rgb))
  {
    if u < t {
      assert 3 * u + 2 < 3 * t;
    } else if u > t {
      assert 3 * u > 3 * t + 2;
    }
  }

  /** Storing the three bytes of pixel (y, x) at its place extends what is filled by one pixel. */
  lemma PixelStep(d: seq<bv8>, pixels: seq<Numeric.Rgb>, flipX: bool, flipY: bool, cols: nat, rows: nat, y: int, x: int,
                  t: int, rgb: Numeric.Rgb)
    requires 0 <= y < rows && 0 <= x < cols && |d| == cols * rows * 3
    requires t == Target(flipX, flipY, cols, rows, y, x) && rgb == PixelColor(pixels, y * cols + x)
    requires PixelsFilled(d, pixels, flipX, flipY, cols, rows, y, x)
    ensures 0 <= 3 * t && 3 * t + 2 < |d|
    ensures PixelsFilled(PutPixel(d, t, rgb), pixels, flipX, flipY, cols, rows, y, x + 1)
  {
    TargetInRange(flipX, flipY, cols, rows, y, x);
    var d' := PutPixel(d, t, rgb);
    forall r, c | 0 <= r < rows && 0 <= c < cols && (r < y || (r == y && c < x + 1))
      ensures HoldsPixel(d', Target(flipX, flipY, cols, rows, r, c), PixelColor(pixels, r * cols + c))
    {
      var u := Target(flipX, flipY, cols, rows, r, c);
      PutPixelEffect(d, t, rgb, u, PixelColor(pixels, r * cols + c));
      if u == t {
        TargetInjective(flipX, flipY, cols, rows, r, c, y, x);
      }
    }
  }
}
