/**
  Row and frame encoding of the HT16K33 backpack: how one 8x8 bitmap of
  LEDs becomes the register writes the controller expects.

  A row of eight 0/1 values is copied, reversed, and its last element moved
  to the front; the result, read as a binary numeral with the most
  significant bit first, is the byte written to display register
  `index * 2 & 0xFF`.
 */
module Codec {

  /** One LED: 0 (off) or 1 (on). */
  type Bit = b: int | 0 <= b <= 1

  /** One byte on the I2C bus. */
  type Byte = b: int | 0 <= b < 0x100

  /** One row of LEDs, left to right as authored. */
  type Row = seq<Bit>

  /** Rows top to bottom; a display bitmap has eight rows of eight columns. */
  type Bitmap = seq<Row>

  /** Every row has the eight columns the row encoding needs. */
  predicate RowsOfEight(bitmap: Bitmap)
  {
    forall i :: 0 <= i < |bitmap| ==> |bitmap[i]| == 8
  }

  /** An 8x8 bitmap, the shape of one display frame. */
  predicate IsBitmap(bitmap: Bitmap)
  {
    |bitmap| == 8 && RowsOfEight(bitmap)
  }

  function Pow2(n: nat): (p: nat)
    ensures p >= 1
  {
    if n == 0 then 1 else 2 * Pow2(n - 1)
  }

  // ---------------------------------------------------------------------
  // Bit order

  /** `Array.prototype.reverse`, as a value. */
  function Reverse<T>(s: seq<T>): (r: seq<T>)
    ensures |r| == |s|
    ensures forall i :: 0 <= i < |s| ==> r[i] == s[|s| - 1 - i]
  {
    if s == [] then [] else Reverse(s[1..]) + [s[0]]
  }

  /** `buf.unshift(buf.pop())`: the last element moves to the front. */
  function LastToFront<T>(s: seq<T>): (r: seq<T>)
    requires |s| > 0
    ensures |r| == |s|
    ensures r[0] == s[|s| - 1]
    ensures forall j :: 1 <= j < |s| ==> r[j] == s[j - 1]
  {
    [s[|s| - 1]] + s[..|s| - 1]
  }

  /**
    The wiring compensation applied to a row before it is packed: reverse,
    then move the last element to the front. Column 0 stays in front and
    every other column j lands at position |row| - j.
   */
  function Reorder(row: Row): (r: Row)
    requires |row| > 0
    ensures |r| == |row|
    ensures r[0] == row[0]
    ensures forall j :: 1 <= j < |row| ==> r[j] == row[|row| - j]
  {
    LastToFront(Reverse(row))
  }

  /** Applying the reordering twice gives the row back, so it is its own inverse. */
  lemma ReorderInvolution(row: Row)
    requires |row| > 0
    ensures Reorder(Reorder(row)) == row
  {
    var r := Reorder(Reorder(row));
    forall j | 0 <= j < |row|
      ensures r[j] == row[j]
    {
      if j > 0 {
        assert r[j] == Reorder(row)[|row| - j];
      }
    }
  }

  // ---------------------------------------------------------------------
  // Binary numerals

  /** `parseInt(bits.join(""), 2)`: the bits read as a numeral, most significant first. */
  function BinaryValue(bits: seq<Bit>): (v: nat)
    ensures v < Pow2(|bits|)
  {
    if bits == [] then 0 else 2 * BinaryValue(bits[..|bits| - 1]) + bits[|bits| - 1]
  }

  /** The n-digit binary numeral of v, most significant digit first. */
  function Digits(v: nat, n: nat): (bits: seq<Bit>)
    ensures |bits| == n
  {
    if n == 0 then [] else Digits(v / 2, n - 1) + [v % 2]
  }

  lemma {:induction false} DigitsOfValue(bits: seq<Bit>)
    ensures Digits(BinaryValue(bits), |bits|) == bits
  {
    if bits != [] {
      var init := bits[..|bits| - 1];
      DigitsOfValue(init);
      assert BinaryValue(bits) / 2 == BinaryValue(init);
      assert init + [bits[|bits| - 1]] == bits;
    }
  }

  lemma {:induction false} ValueOfDigits(v: nat, n: nat)
    requires v < Pow2(n)
    ensures BinaryValue(Digits(v, n)) == v
  {
    if n > 0 {
      ValueOfDigits(v / 2, n - 1);
      var d := Digits(v, n);
      assert d[..n - 1] == Digits(v / 2, n - 1);
    }
  }

  // ---------------------------------------------------------------------
  // Row encoding

  /**
    The byte written for one row of eight LEDs. In closed form: column 0
    drives bit 7 and column k, for k = 1..7, drives bit k - 1.
   */
  function EncodeRow(row: Row): (b: Byte)
    requires |row| == 8
    ensures b == 128 * (row[0] as int) + row[1] + 2 * (row[2] as int)
                 + 4 * (row[3] as int) + 8 * (row[4] as int) + 16 * (row[5] as int)
                 + 32 * (row[6] as int) + 64 * (row[7] as int)
  {
    BinaryValueOfEight(Reorder(row));
    BinaryValue(Reorder(row))
  }

  /** The row a register byte displays: the inverse of EncodeRow. */
  function DecodeRow(b: Byte): (row: Row)
    ensures |row| == 8
  {
    Reorder(Digits(b, 8))
  }

  lemma DecodeEncodeRow(row: Row)
    requires |row| == 8
    ensures DecodeRow(EncodeRow(row)) == row
  {
    DigitsOfValue(Reorder(row));
    ReorderInvolution(row);
  }

  lemma EncodeDecodeRow(b: Byte)
    ensures EncodeRow(DecodeRow(b)) == b
  {
    var d := Digits(b, 8);
    ReorderInvolution(d);
    assert Pow2(8) == 256;
    ValueOfDigits(b, 8);
  }

  /** Distinct rows are sent as distinct bytes, and equal rows as equal bytes. */
  lemma EncodeRowInjective(r1: Row, r2: Row)
    requires |r1| == 8 && |r2| == 8
    ensures EncodeRow(r1) == EncodeRow(r2) <==> r1 == r2
  {
    if EncodeRow(r1) == EncodeRow(r2) {
      DecodeEncodeRow(r1);
      DecodeEncodeRow(r2);
    }
  }

  lemma BinaryValueOfEight(t: seq<Bit>)
    requires |t| == 8
    ensures BinaryValue(t) == 128 * (t[0] as int) + 64 * (t[1] as int) + 32 * (t[2] as int)
                              + 16 * (t[3] as int) + 8 * (t[4] as int) + 4 * (t[5] as int)
                              + 2 * (t[6] as int) + t[7]
  {
    assert t[..7][..6] == t[..6];
    assert t[..6][..5] == t[..5];
    assert t[..5][..4] == t[..4];
    assert t[..4][..3] == t[..3];
    assert t[..3][..2] == t[..2];
    assert t[..2][..1] == t[..1];
    assert t[..1][..0] == [];
  }

  /** The row with only column k lit. */
  function OneHot(k: nat): (row: Row)
    requires k < 8
  {
    seq(8, j => if j == k then 1 else 0)
  }

  /** A single lit LED in column k gives bit 7 for column 0 and bit k - 1 otherwise. */
  lemma EncodeRowSingleColumn(k: nat)
    requires k < 8
    ensures EncodeRow(OneHot(k)) == if k == 0 then 128 else Pow2(k - 1)
  {
  }

  lemma EncodeRowAllOff()
    ensures EncodeRow([0, 0, 0, 0, 0, 0, 0, 0]) == 0
  {
  }

  lemma EncodeRowAllOn()
    ensures EncodeRow([1, 1, 1, 1, 1, 1, 1, 1]) == 255
  {
  }

  /**
    The row loop body of `writeBitmap`: copy the row (`slice`), reverse the
    copy in place, move its last element to the front (`pop` then
    `unshift`), and parse the digits as a binary numeral.
   */
  method RowByte(row: Row) returns (value: Byte)
    requires |row| == 8
    ensures value == EncodeRow(row)
  {
    var rowBuffer := new Bit[|row|](i requires 0 <= i < |row| => row[i]);
    assert rowBuffer[..] == row;
    ReverseInPlace(rowBuffer);
    LastToFrontInPlace(rowBuffer);
    var v := ParseBinary(rowBuffer);
    assert Pow2(8) == 256;
    value := v;
  }

  /** `rowBuffer.reverse()`: swaps from both ends towards the middle. */
  method ReverseInPlace(a: array<Bit>)
    modifies a
    ensures a[..] == Reverse(old(a[..]))
  {
    var lo, hi := 0, a.Length;
    while lo + 1 < hi
      invariant 0 <= lo <= hi <= a.Length && lo + hi == a.Length
      invariant forall k :: 0 <= k < lo || hi <= k < a.Length ==> a[k] == old(a[a.Length - 1 - k])
      invariant forall k :: lo <= k < hi ==> a[k] == old(a[k])
    {
      a[lo], a[hi - 1] := a[hi - 1], a[lo];
      lo, hi := lo + 1, hi - 1;
    }
  }

  /** `rowBuffer.unshift(rowBuffer.pop())`, on the fixed-size buffer. */
  method LastToFrontInPlace(a: array<Bit>)
    requires a.Length > 0
    modifies a
    ensures a[..] == LastToFront(old(a[..]))
  {
    var last := a[a.Length - 1];
    var i := a.Length - 1;
    while i > 0
      invariant 0 <= i <= a.Length - 1
      invariant forall k :: 0 <= k <= i ==> a[k] == old(a[k])
      invariant forall k :: i < k < a.Length ==> a[k] == old(a[k - 1])
    {
      a[i] := a[i - 1];
      i := i - 1;
    }
    a[0] := last;
  }

  /** `parseInt(rowBuffer.join(""), 2)`: digits accumulated left to right. */
  method ParseBinary(a: array<Bit>) returns (v: nat)
    ensures v == BinaryValue(a[..])
  {
    v := 0;
    var i := 0;
    while i < a.Length
      invariant 0 <= i <= a.Length
      invariant v == BinaryValue(a[..i])
    {
      assert a[..i + 1][..i] == a[..i];
      v := 2 * v + a[i];
      i := i + 1;
    }
    assert a[..a.Length] == a[..];
  }

  // ---------------------------------------------------------------------
  // Frame encoding

  /** `index * 2 & 0xFF`: the display register of row `index`. */
  function RowAddress(index: nat): (a: Byte)
    ensures a % 2 == 0
    ensures index < 0x80 ==> a == 2 * index
  {
    (index * 2) % 0x100
  }

  /** The buffers `writeBitmap` sends, one `[address, byte]` pair per row, in row order. */
  function EncodeFrame(bitmap: Bitmap): (sends: seq<seq<Byte>>)
    requires RowsOfEight(bitmap)
    ensures |sends| == |bitmap| && IsRowSends(sends)
    ensures forall i :: 0 <= i < |sends| ==> sends[i][0] % 2 == 0
  {
    seq(|bitmap|, i requires 0 <= i < |bitmap| => [RowAddress(i), EncodeRow(bitmap[i])])
  }

  /** Rows 0..7 of a display frame go to the even registers 0, 2, ..., 14, two bytes per send. */
  lemma FrameAddresses(bitmap: Bitmap)
    requires IsBitmap(bitmap)
    ensures |EncodeFrame(bitmap)| == 8
    ensures forall i :: 0 <= i < 8 ==> |EncodeFrame(bitmap)[i]| == 2
    ensures seq(8, i requires 0 <= i < 8 => EncodeFrame(bitmap)[i][0]) == [0, 2, 4, 6, 8, 10, 12, 14]
  {
  }

  predicate IsRowSends(sends: seq<seq<Byte>>)
  {
    forall i :: 0 <= i < |sends| ==> |sends[i]| == 2
  }

  /** The bitmap a sequence of row sends displays, read back from the data bytes. */
  function DecodeFrame(sends: seq<seq<Byte>>): (bitmap: Bitmap)
    requires IsRowSends(sends)
    ensures RowsOfEight(bitmap)
  {
    seq(|sends|, i requires 0 <= i < |sends| => DecodeRow(sends[i][1]))
  }

  /** Reading the frame back recovers the bitmap exactly. */
  lemma DecodeEncodeFrame(bitmap: Bitmap)
    requires RowsOfEight(bitmap)
    ensures IsRowSends(EncodeFrame(bitmap))
    ensures DecodeFrame(EncodeFrame(bitmap)) == bitmap
  {
    var f := EncodeFrame(bitmap);
    forall i | 0 <= i < |bitmap|
      ensures DecodeFrame(f)[i] == bitmap[i]
    {
      DecodeEncodeRow(bitmap[i]);
    }
  }

  /** The all-zero bitmap written by `clear`. */
  const ClearBitmap: Bitmap := seq(8, _ => [0, 0, 0, 0, 0, 0, 0, 0])

  /** `clear` writes byte 0 to each of the eight row registers. */
  lemma ClearFrame()
    ensures IsBitmap(ClearBitmap)
    ensures EncodeFrame(ClearBitmap)
            == [[0, 0], [2, 0], [4, 0], [6, 0], [8, 0], [10, 0], [12, 0], [14, 0]]
  {
    EncodeRowAllOff();
  }

  // ---------------------------------------------------------------------
  // Sequences of frames

  predicate AllRowsOfEight(frames: seq<Bitmap>)
  {
    forall k :: 0 <= k < |frames| ==> RowsOfEight(frames[k])
  }

  predicate AllBitmaps(frames: seq<Bitmap>)
  {
    forall k :: 0 <= k < |frames| ==> IsBitmap(frames[k])
  }

  /** Every send of `writeBitmap(f)` for each frame f in turn. */
  function FramesLog(frames: seq<Bitmap>): (sends: seq<seq<Byte>>)
    requires AllRowsOfEight(frames)
  {
    if frames == [] then []
    else FramesLog(frames[..|frames| - 1]) + EncodeFrame(frames[|frames| - 1])
  }

  /** One more frame appends its eight-row frame encoding. */
  lemma FramesLogSnoc(frames: seq<Bitmap>, frame: Bitmap)
    requires AllRowsOfEight(frames) && RowsOfEight(frame)
    ensures AllRowsOfEight(frames + [frame])
    ensures FramesLog(frames + [frame]) == FramesLog(frames) + EncodeFrame(frame)
  {
    assert (frames + [frame])[..|frames|] == frames;
  }

  /** Writing one sequence of frames and then another logs the two in turn. */
  lemma {:induction false} FramesLogAppend(a: seq<Bitmap>, b: seq<Bitmap>)
    requires AllRowsOfEight(a) && AllRowsOfEight(b)
    ensures AllRowsOfEight(a + b)
    ensures FramesLog(a + b) == FramesLog(a) + FramesLog(b)
  {
    if b == [] {
      assert a + b == a;
    } else {
      var b' := b[..|b| - 1];
      assert (a + b)[..|a + b| - 1] == a + b';
      FramesLogAppend(a, b');
    }
  }

  /** Display frames are written eight sends each, frame k at sends 8k..8k+7. */
  lemma {:induction false} FramesLogAt(frames: seq<Bitmap>, k: nat)
    requires AllBitmaps(frames)
    requires k < |frames|
    ensures |FramesLog(frames)| == 8 * |frames|
    ensures FramesLog(frames)[8 * k .. 8 * k + 8] == EncodeFrame(frames[k])
  {
    var init := frames[..|frames| - 1];
    if k < |frames| - 1 {
      FramesLogAt(init, k);
    } else if init != [] {
      FramesLogAt(init, 0);
    }
  }
}
