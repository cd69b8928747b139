/**
  The scroller's view of a strip: every row is padded with eight blank
  columns on both ends, and tick k shows columns k..k+7 of the padded rows,
  so the display starts blank, the content slides in from the right and
  out to the left, and the display ends blank.
 */
module Viewport {
  import opened Codec

  /** A strip the scroller accepts: at least one row, all rows as wide as the first. */
  predicate IsStrip(strip: seq<Row>)
  {
    |strip| > 0 && forall i :: 0 <= i < |strip| ==> |strip[i]| == |strip[0]|
  }

  function Zeros(n: nat): (z: Row)
    ensures |z| == n && forall i :: 0 <= i < n ==> z[i] == 0
  {
    seq(n, _ => 0)
  }

  /** Eight blank columns, the row, eight blank columns. */
  function PadRow(row: Row): (padded: Row)
    ensures |padded| == |row| + 16
    ensures forall c :: 0 <= c < |padded| ==>
              padded[c] == if 8 <= c < |row| + 8 then row[c - 8] else 0
  {
    Zeros(8) + row + Zeros(8)
  }

  function Pad(strip: seq<Row>): (padded: seq<Row>)
    ensures |padded| == |strip|
  {
    seq(|strip|, i requires 0 <= i < |strip| => PadRow(strip[i]))
  }

  /** Padded column c is strip column c - 8 inside the content and blank in the padding. */
  lemma PadColumns(strip: seq<Row>, i: nat, c: nat)
    requires IsStrip(strip) && i < |strip| && c < |strip[0]| + 16
    ensures |Pad(strip)[i]| == |strip[0]| + 16
    ensures Pad(strip)[i][c] == if 8 <= c < |strip[0]| + 8 then strip[i][c - 8] else 0
  {
  }

  /** Every row of the buffer has at least k + 8 columns. */
  predicate Shows(buffer: seq<Row>, k: nat)
  {
    forall i :: 0 <= i < |buffer| ==> k + 8 <= |buffer[i]|
  }

  /** The frame of tick k: columns k..k+7 of every row. */
  function Window(buffer: seq<Row>, k: nat): (frame: Bitmap)
    requires Shows(buffer, k)
    ensures |frame| == |buffer| && RowsOfEight(frame)
  {
    seq(|buffer|, i requires 0 <= i < |buffer| => buffer[i][k..k + 8])
  }

  /** The frames of ticks lo..hi-1. */
  function Windows(buffer: seq<Row>, lo: nat, hi: nat): (frames: seq<Bitmap>)
    requires lo <= hi && (hi == lo || Shows(buffer, hi - 1))
    ensures |frames| == hi - lo && AllRowsOfEight(frames)
  {
    var frames := seq(hi - lo, j requires 0 <= j < hi - lo => Window(buffer, lo + j));
    assert forall j :: 0 <= j < hi - lo ==> frames[j] == Window(buffer, lo + j);
    frames
  }

  /** One more tick appends one more window. */
  lemma WindowsSnoc(buffer: seq<Row>, lo: nat, hi: nat)
    requires lo <= hi && Shows(buffer, hi)
    ensures Windows(buffer, lo, hi + 1) == Windows(buffer, lo, hi) + [Window(buffer, hi)]
  {
  }

  function Blank(rows: nat): (frame: Bitmap)
    ensures RowsOfEight(frame)
  {
    seq(rows, _ => Zeros(8))
  }

  /**
    Every tick up to the last one, k = |strip[0]| + 8, sees a full 8-column
    window whose column j is strip column k + j - 8, or blank padding.
   */
  lemma WindowColumns(strip: seq<Row>, k: nat)
    requires IsStrip(strip) && k <= |strip[0]| + 8
    ensures Shows(Pad(strip), k)
    ensures forall i, j :: 0 <= i < |strip| && 0 <= j < 8 ==>
              Window(Pad(strip), k)[i][j]
                == if 8 <= k + j < |strip[0]| + 8 then strip[i][k + j - 8] else 0
  {
    forall i, j | 0 <= i < |strip| && 0 <= j < 8
      ensures Window(Pad(strip), k)[i][j]
                == if 8 <= k + j < |strip[0]| + 8 then strip[i][k + j - 8] else 0
    {
      PadColumns(strip, i, k + j);
    }
  }

  /** A window that lies wholly in the padding is blank. */
  lemma PaddingWindowBlank(strip: seq<Row>, k: nat)
    requires IsStrip(strip) && (k == 0 || k == |strip[0]| + 8)
    ensures Shows(Pad(strip), k)
    ensures Window(Pad(strip), k) == Blank(|strip|)
  {
    WindowColumns(strip, k);
    var w := Window(Pad(strip), k);
    forall i | 0 <= i < |strip|
      ensures w[i] == Zeros(8)
    {
      assert forall j :: 0 <= j < 8 ==> w[i][j] == 0;
    }
  }

  /** The first window shows only left padding and the last only right padding. */
  lemma FirstAndLastWindowsBlank(strip: seq<Row>)
    requires IsStrip(strip)
    ensures Shows(Pad(strip), |strip[0]| + 8)
    ensures Window(Pad(strip), 0) == Blank(|strip|)
    ensures Window(Pad(strip), |strip[0]| + 8) == Blank(|strip|)
  {
    PaddingWindowBlank(strip, 0);
    PaddingWindowBlank(strip, |strip[0]| + 8);
  }

  /** Content column c passes through every viewport column j, at tick c + 8 - j. */
  lemma ColumnCrossesViewport(strip: seq<Row>, i: nat, c: nat, j: nat)
    requires IsStrip(strip) && i < |strip| && c < |strip[0]| && j < 8
    ensures Shows(Pad(strip), c + 8 - j)
    ensures Window(Pad(strip), c + 8 - j)[i][j] == strip[i][c]
  {
    WindowColumns(strip, c + 8 - j);
  }

  /** A strip without columns scrolls as nine blank frames. */
  lemma EmptyStripScrollsBlank(strip: seq<Row>)
    requires IsStrip(strip) && |strip[0]| == 0
    ensures Shows(Pad(strip), 8)
    ensures forall k :: 0 <= k < 9 ==> Window(Pad(strip), k) == Blank(|strip|)
  {
    forall k | 0 <= k < 9
      ensures Window(Pad(strip), k) == Blank(|strip|)
    {
      WindowColumns(strip, k);
      var w := Window(Pad(strip), k);
      forall i | 0 <= i < |strip|
        ensures w[i] == Zeros(8)
      {
        assert forall j :: 0 <= j < 8 ==> w[i][j] == 0;
      }
    }
  }
}
