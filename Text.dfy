/**
  Text rendering of the backpack: each character of the text is looked up
  in the glyph table, and the glyphs are laid side by side, row by row,
  with one blank column after every glyph, into one wide strip for the
  scroller. The glyph table is a parameter of the model.
 */
module Text {
  import opened Codec

  /** Every looked-up glyph has the eight rows the strip is built from. */
  predicate AllEightRows(frames: seq<Bitmap>)
  {
    forall k :: 0 <= k < |frames| ==> |frames[k]| == 8
  }

  /** `_prepareText`: one glyph per character, in text order. */
  function PrepareText(glyph: char -> Bitmap, text: string): (frames: seq<Bitmap>)
    ensures |frames| == |text|
    ensures forall i :: 0 <= i < |text| ==> frames[i] == glyph(text[i])
  {
    seq(|text|, i requires 0 <= i < |text| => glyph(text[i]))
  }

  /** Lookups carry no state from one character to the next. */
  lemma PrepareTextConcat(glyph: char -> Bitmap, a: string, b: string)
    ensures PrepareText(glyph, a + b) == PrepareText(glyph, a) + PrepareText(glyph, b)
  {
  }

  /** The sum over the glyphs of their row `line` width plus the gap column. */
  function StripWidth(frames: seq<Bitmap>, line: nat): nat
    requires AllEightRows(frames) && line < 8
  {
    if frames == [] then 0
    else StripWidth(frames[..|frames| - 1], line) + |frames[|frames| - 1][line]| + 1
  }

  /**
    Row `line` of the strip: each glyph's row followed by one zero gap
    column, so it is as wide as the glyphs' rows plus one column each.
   */
  function StripRow(frames: seq<Bitmap>, line: nat): (row: Row)
    requires AllEightRows(frames) && line < 8
    ensures |row| == StripWidth(frames, line)
    ensures |frames| > 0 ==> row[|row| - 1] == 0
  {
    if frames == [] then []
    else StripRow(frames[..|frames| - 1], line) + frames[|frames| - 1][line] + [0]
  }

  /** The eight rows of the strip `scrollText` hands to `scroll`. */
  function Strip(frames: seq<Bitmap>): (strip: seq<Row>)
    requires AllEightRows(frames)
    ensures |strip| == 8
  {
    seq(8, line requires 0 <= line < 8 => StripRow(frames, line))
  }

  /** Glyphs laid out one after the other: the strip of a concatenation is the concatenation of strips. */
  lemma {:induction false} StripRowAppend(a: seq<Bitmap>, b: seq<Bitmap>, line: nat)
    requires AllEightRows(a) && AllEightRows(b) && line < 8
    ensures AllEightRows(a + b)
    ensures StripRow(a + b, line) == StripRow(a, line) + StripRow(b, line)
  {
    if b != [] {
      var b' := b[..|b| - 1];
      assert (a + b)[..|a + b| - 1] == a + b';
      StripRowAppend(a, b', line);
    } else {
      assert a + b == a;
    }
  }

  /** With 8x8 glyphs, every strip row is nine columns per character. */
  lemma {:induction false} StripRowWidthOfGlyphs(frames: seq<Bitmap>, line: nat)
    requires AllBitmaps(frames) && line < 8
    ensures AllEightRows(frames)
    ensures |StripRow(frames, line)| == 9 * |frames|
  {
    if frames != [] {
      StripRowWidthOfGlyphs(frames[..|frames| - 1], line);
    }
  }

  /**
    With 8x8 glyphs, columns 9k..9k+7 of every strip row are row `line` of
    glyph k and column 9k+8 is the blank gap.
   */
  lemma {:induction false} StripRowAt(frames: seq<Bitmap>, line: nat, k: nat, j: nat)
    requires AllBitmaps(frames) && line < 8
    requires k < |frames| && j < 9
    ensures AllEightRows(frames)
    ensures 9 * k + j < |StripRow(frames, line)|
    ensures StripRow(frames, line)[9 * k + j] == if j < 8 then frames[k][line][j] else 0
  {
    var init := frames[..|frames| - 1];
    StripRowWidthOfGlyphs(frames, line);
    StripRowWidthOfGlyphs(init, line);
    if k < |frames| - 1 {
      StripRowAt(init, line, k, j);
    }
  }

  /** No text gives eight empty rows. */
  lemma StripOfNothing()
    ensures Strip([]) == [[], [], [], [], [], [], [], []]
  {
  }

  /**
    The strip construction of `scrollText`: eight empty rows, then for each
    glyph in turn and each of its rows, that row appended followed by one
    zero column.
   */
  method BuildStrip(frames: seq<Bitmap>) returns (strip: seq<Row>)
    requires AllEightRows(frames)
    ensures strip == Strip(frames)
  {
    strip := [[], [], [], [], [], [], [], []];
    var index := 0;
    while index < |frames|
      invariant 0 <= index <= |frames|
      invariant strip == Strip(frames[..index])
    {
      assert frames[..index + 1][..index] == frames[..index];
      var line := 0;
      while line < |frames[index]|
        invariant 0 <= line <= 8 && |strip| == 8
        invariant forall l :: 0 <= l < line ==> strip[l] == StripRow(frames[..index + 1], l)
        invariant forall l :: line <= l < 8 ==> strip[l] == StripRow(frames[..index], l)
      {
        strip := strip[line := strip[line] + frames[index][line]];
        strip := strip[line := strip[line] + [0]];
        line := line + 1;
      }
      index := index + 1;
    }
    assert frames[..|frames|] == frames;
  }
}
