/**
  The HT16K33 backpack driver: device set-up, immediate drawing, and the
  two timed effects (frame animation and horizontal scrolling).

  The I2C transport is modelled by the `sent` log of a Backpack: every
  buffer the driver hands to `i2c.send` is appended to it, in order. The
  timers of the effects are modelled by job objects whose `Tick` method
  is the timer callback; time itself is not modelled.
 */
module Driver {
  import opened Codec
  import opened Text
  import opened Viewport

  datatype Option<T> = None | Some(value: T)

  const I2CAddress: Byte := 0x70
  const TurnOn: Byte := 0x21
  const BlinkCmd: Byte := 0x80
  const BlinkDisplayOn: Byte := 0x01
  const BlinkOff: Byte := 0x00
  const CmdBrightness: Byte := 0xE0
  const BrightnessLevel: Byte := 15

  /** Bitwise or of two bytes. */
  function Or(a: Byte, b: Byte): (r: Byte)
  {
    ((a as bv8) | (b as bv8)) as int
  }

  /** The failure sentinel a transport reports to the error handler. */
  const TransportFailure: int := 1

  /** The 'error' events a transport result code should raise. */
  function ErrorSignals(code: int): (events: seq<int>)
    ensures |events| <= 1
    ensures events != [] <==> code == TransportFailure
    ensures forall k :: 0 <= k < |events| ==> events[k] == code
  {
    if code == TransportFailure then [code] else []
  }

  /** What calling the source's error handler does. */
  datatype HandlerOutcome = Returned(events: seq<int>) | ThrewReferenceError

  /**
    The error handler as written: on the failure sentinel it calls `emit`
    on a name `self` that is not bound inside that function, which throws
    instead of raising the 'error' event.
   */
  function ErrorCallbackAsWritten(code: int): (outcome: HandlerOutcome)
    ensures outcome.ThrewReferenceError? <==> code == TransportFailure
    ensures outcome.Returned? ==> outcome.events == []
  {
    if code == TransportFailure then ThrewReferenceError else Returned([])
  }

  /** As written, the handler never raises an 'error' event; on the sentinel, where one is due, it throws. */
  lemma ErrorCallbackAsWrittenLosesFailure(code: int)
    ensures ErrorCallbackAsWritten(code) != Returned(ErrorSignals(code)) <==> code == TransportFailure
    ensures ErrorCallbackAsWritten(TransportFailure).ThrewReferenceError?
    ensures ErrorSignals(TransportFailure) == [TransportFailure]
  {
  }

  /** The arguments of the constructor's optional callback. */
  datatype Reply = Reply(error: Option<int>, device: Backpack)

  class Backpack {
    /** The bus address the I2C port is opened on. */
    const address: Byte
    /** Every buffer handed to `i2c.send`, oldest first. */
    var sent: seq<seq<Byte>>
    /** The codes of the 'error' events raised so far. */
    var errors: seq<int>

    /**
      Opens the port and configures the controller: oscillator on, then
      display on with blinking off and full brightness.
     */
    constructor ()
      ensures address == 0x70
      ensures sent == [[0x21], [0x81, 0xEF]]
      ensures errors == []
    {
      address := I2CAddress;
      sent := [[TurnOn]];
      sent := sent + [[Or(Or(BlinkCmd, BlinkDisplayOn), BlinkOff), Or(CmdBrightness, BrightnessLevel)]];
      errors := [];
    }

    /** The error handler, with the 'error' event raised on the instance itself. */
    method OnSendResult(code: int)
      modifies this
      ensures errors == old(errors) + ErrorSignals(code)
      ensures sent == old(sent)
    {
      errors := errors + ErrorSignals(code);
    }

    /** One `[address, byte]` send per row, rows in order. */
    method WriteBitmap(bitmap: Bitmap)
      requires RowsOfEight(bitmap)
      modifies this
      ensures sent == old(sent) + EncodeFrame(bitmap)
      ensures errors == old(errors)
    {
      var index := 0;
      while index < |bitmap|
        invariant 0 <= index <= |bitmap|
        invariant sent == old(sent) + EncodeFrame(bitmap[..index])
        invariant errors == old(errors)
      {
        var rowValue := RowByte(bitmap[index]);
        assert EncodeFrame(bitmap[..index + 1])
               == EncodeFrame(bitmap[..index]) + [[RowAddress(index), rowValue]];
        sent := sent + [[RowAddress(index), rowValue]];
        index := index + 1;
      }
      assert bitmap[..index] == bitmap;
    }

    /** Writes the all-zero bitmap: byte 0 to each of the eight row registers. */
    method Clear()
      modifies this
      ensures sent == old(sent) + [[0, 0], [2, 0], [4, 0], [6, 0], [8, 0], [10, 0], [12, 0], [14, 0]]
      ensures errors == old(errors)
    {
      ClearFrame();
      WriteBitmap(ClearBitmap);
    }

    /**
      `animate(frames)`: writes the first frame now and returns the frames
      the armed timer will pass back to `animate`; with no frames, writes
      nothing and arms no timer.
     */
    method Animate(frames: seq<Bitmap>) returns (next: Option<seq<Bitmap>>)
      requires AllRowsOfEight(frames)
      modifies this
      ensures frames == [] ==> sent == old(sent) && next == None
      ensures frames != [] ==> sent == old(sent) + EncodeFrame(frames[0]) && next == Some(frames[1..])
      ensures errors == old(errors)
    {
      if |frames| > 0 {
        WriteBitmap(frames[0]);
        next := Some(frames[1..]);
      } else {
        next := None;
      }
    }

    /** `scroll(bitmap)`: pads the rows and arms the first tick; nothing is written yet. */
    method Scroll(bitmap: seq<Row>) returns (job: ScrollJob)
      requires IsStrip(bitmap)
      ensures fresh(job) && job.Valid() && job.display == this
      ensures job.padded == Pad(bitmap) && job.length == |bitmap[0]|
      ensures job.n == 0 && job.armed
    {
      job := new ScrollJob(this, bitmap);
    }

    /** `scrollText(text)`: the strip of the text's glyphs, scrolled. */
    method ScrollText(glyph: char -> Bitmap, text: string) returns (job: ScrollJob)
      requires AllBitmaps(PrepareText(glyph, text))
      ensures fresh(job) && job.Valid() && job.display == this
      ensures job.padded == Pad(Strip(PrepareText(glyph, text)))
      ensures job.length == 9 * |text|
      ensures job.n == 0 && job.armed
    {
      var frames := PrepareText(glyph, text);
      var strip := BuildStrip(frames);
      forall line | 0 <= line < 8
        ensures |strip[line]| == 9 * |text|
      {
        StripRowWidthOfGlyphs(frames, line);
      }
      job := Scroll(strip);
    }
  }

  /** `use(hardware, callback)`: a new driver, and the arguments its callback receives, if one is given. */
  method Use(withCallback: bool) returns (device: Backpack, reply: Option<Reply>)
    ensures fresh(device)
    ensures device.sent == [[0x21], [0x81, 0xEF]] && device.errors == []
    ensures reply == if withCallback then Some(Reply(None, device)) else None
  {
    device := new Backpack();
    reply := if withCallback then Some(Reply(None, device)) else None;
  }

  /** A running animation: the chain of `animate` calls on the tail of the frames. */
  class AnimationJob {
    const display: Backpack
    /** The frames the armed timer will pass to `animate`; None once no timer is armed. */
    var pending: Option<seq<Bitmap>>
    /** The frames the animation was started with. */
    ghost const frames: seq<Bitmap>
    /** How many of them have been written. */
    ghost var played: nat

    ghost predicate Valid()
      reads this
    {
      && AllRowsOfEight(frames)
      && played <= |frames|
      && (pending.Some? ==> 1 <= played && pending.value == frames[played..])
      && (pending.None? ==> played == |frames|)
    }

    /** How many timer callbacks are still to come. */
    ghost function TicksLeft(): nat
      reads this
      requires Valid()
    {
      |frames| - played + (if pending.Some? then 1 else 0)
    }

    /** `animate(frames)`: the first frame is written at once, before any timer. */
    constructor Start(display: Backpack, frames: seq<Bitmap>)
      requires AllRowsOfEight(frames)
      modifies display
      ensures Valid() && this.display == display && this.frames == frames
      ensures played == if frames == [] then 0 else 1
      ensures display.sent == old(display.sent) + FramesLog(frames[..played])
      ensures TicksLeft() == |frames|
      ensures display.errors == old(display.errors)
    {
      this.display := display;
      this.frames := frames;
      new;
      pending := display.Animate(frames);
      played := if frames == [] then 0 else 1;
      if frames != [] {
        assert frames[..1][..0] == [];
      }
    }

    /** One timer callback: `animate` on the remaining frames. */
    method Tick()
      requires Valid() && pending.Some?
      modifies this, display
      ensures Valid() && TicksLeft() == old(TicksLeft()) - 1
      ensures old(played) < |frames| ==>
                played == old(played) + 1
                && display.sent == old(display.sent) + EncodeFrame(frames[old(played)])
      ensures old(played) == |frames| ==> pending.None? && display.sent == old(display.sent)
      ensures display.errors == old(display.errors)
    {
      pending := display.Animate(pending.value);
      if played < |frames| {
        played := played + 1;
      }
    }

    /** Lets every armed timer fire, in turn, until the chain ends. */
    method RunToEnd() returns (ticks: nat)
      requires Valid()
      modifies this, display
      ensures Valid() && pending.None? && played == |frames|
      ensures ticks == old(TicksLeft())
      ensures display.sent == old(display.sent) + FramesLog(frames[old(played)..])
      ensures display.errors == old(display.errors)
    {
      ticks := 0;
      ghost var start, log0 := played, display.sent;
      while pending.Some?
        invariant Valid() && start <= played
        invariant ticks + TicksLeft() == old(TicksLeft())
        invariant display.sent == log0 + FramesLog(frames[start..played])
        invariant display.errors == old(display.errors)
        decreases TicksLeft()
      {
        ghost var k, before := played, display.sent;
        Tick();
        if k < played {
          AnimationLogStep(frames, start, k, log0, before, display.sent);
        }
        ticks := ticks + 1;
      }
      assert frames[start..played] == frames[start..];
    }
  }

  /** Writing frame k after frames start..k-1 logs frames start..k. */
  lemma AnimationLogStep(frames: seq<Bitmap>, start: nat, k: nat,
                         base: seq<seq<Byte>>, before: seq<seq<Byte>>, after: seq<seq<Byte>>)
    requires AllRowsOfEight(frames) && start <= k < |frames|
    requires before == base + FramesLog(frames[start..k])
    requires after == before + EncodeFrame(frames[k])
    ensures after == base + FramesLog(frames[start..k + 1])
  {
    var done := frames[start..k];
    calc {
      after;
      (base + FramesLog(done)) + EncodeFrame(frames[k]);
      { AppendAssociative(base, FramesLog(done), EncodeFrame(frames[k])); }
      base + (FramesLog(done) + EncodeFrame(frames[k]));
      { FramesLogSnoc(done, frames[k]); }
      base + FramesLog(done + [frames[k]]);
      { assert done + [frames[k]] == frames[start..k + 1]; }
      base + FramesLog(frames[start..k + 1]);
    }
  }

  /** The first frames, then the rest, log all the frames. */
  lemma AnimationLogSplit(frames: seq<Bitmap>, first: nat,
                          base: seq<seq<Byte>>, middle: seq<seq<Byte>>, after: seq<seq<Byte>>)
    requires AllRowsOfEight(frames) && first <= |frames|
    requires middle == base + FramesLog(frames[..first])
    requires after == middle + FramesLog(frames[first..])
    ensures after == base + FramesLog(frames)
  {
    var init, rest := frames[..first], frames[first..];
    calc {
      after;
      (base + FramesLog(init)) + FramesLog(rest);
      { AppendAssociative(base, FramesLog(init), FramesLog(rest)); }
      base + (FramesLog(init) + FramesLog(rest));
      { FramesLogAppend(init, rest); }
      base + FramesLog(init + rest);
      { assert init + rest == frames; }
      base + FramesLog(frames);
    }
  }

  lemma AppendAssociative<T>(a: seq<T>, b: seq<T>, c: seq<T>)
    ensures (a + b) + c == a + (b + c)
  {
  }

  /**
    A whole animation: N frames take N timer callbacks after the first
    write, and the frames are written in order, one display frame each.
   */
  method PlayAnimation(display: Backpack, frames: seq<Bitmap>) returns (ticks: nat)
    requires AllRowsOfEight(frames)
    modifies display
    ensures ticks == |frames|
    ensures display.sent == old(display.sent) + FramesLog(frames)
    ensures display.errors == old(display.errors)
  {
    ghost var s0 := display.sent;
    var job := new AnimationJob.Start(display, frames);
    ghost var first, s1 := job.played, display.sent;
    ticks := job.RunToEnd();
    AnimationLogSplit(frames, first, s0, s1, display.sent);
  }

  /** A running scroll: the padded row buffer, shifted one column per tick. */
  class ScrollJob {
    const display: Backpack
    /** Columns of the strip before padding (`bitmap[0].length`). */
    const length: nat
    /** The rows as first padded. */
    ghost const padded: seq<Row>
    /** The padded rows, each shifted left by the ticks taken so far. */
    var buffer: seq<Row>
    /** Ticks taken so far. */
    var n: nat
    /** Whether a `writeScroll` timer is armed. */
    var armed: bool

    ghost predicate Valid()
      reads this
    {
      && |padded| > 0
      && (forall i :: 0 <= i < |padded| ==> |padded[i]| == length + 16)
      && n <= length + 9
      && armed == (n <= length + 8)
      && |buffer| == |padded|
      && (forall i :: 0 <= i < |padded| ==> buffer[i] == padded[i][n..])
    }

    /** Pads every row with eight zeros on both ends and arms the first timer. */
    constructor (display: Backpack, bitmap: seq<Row>)
      requires IsStrip(bitmap)
      ensures Valid() && this.display == display
      ensures padded == Pad(bitmap) && buffer == padded && length == |bitmap[0]|
      ensures n == 0 && armed
    {
      var rows: seq<Row> := [];
      var index := 0;
      while index < |bitmap|
        invariant 0 <= index <= |bitmap|
        invariant rows == Pad(bitmap)[..index]
      {
        var row := bitmap[index];
        row := row + Zeros(8);
        row := Zeros(8) + row;
        assert row == PadRow(bitmap[index]);
        assert Pad(bitmap)[..index + 1] == Pad(bitmap)[..index] + [row];
        rows := rows + [row];
        index := index + 1;
      }
      this.display := display;
      length := |bitmap[0]|;
      padded := Pad(bitmap);
      buffer := rows;
      n := 0;
      armed := true;
    }

    /**
      One `writeScroll` callback: writes the leftmost eight columns of every
      row, drops each row's first column, and re-arms while n <= length + 8.
     */
    method Tick()
      requires Valid() && armed
      modifies this, display
      ensures Valid() && n == old(n) + 1
      ensures Shows(padded, old(n))
      ensures display.sent == old(display.sent) + EncodeFrame(Window(padded, old(n)))
      ensures display.errors == old(display.errors)
    {
      var rows := buffer;
      var currentBitmap: seq<Row> := [];
      var index := 0;
      while index < |rows|
        invariant 0 <= index <= |rows| == |padded|
        invariant |currentBitmap| == index
        invariant forall i :: 0 <= i < index ==> currentBitmap[i] == padded[i][n..n + 8]
        invariant forall i :: 0 <= i < index ==> rows[i] == padded[i][n + 1..]
        invariant forall i :: index <= i < |rows| ==> rows[i] == padded[i][n..]
      {
        currentBitmap := currentBitmap + [rows[index][..8]];
        rows := rows[index := rows[index][1..]];
        index := index + 1;
      }
      assert currentBitmap == Window(padded, n);
      display.WriteBitmap(currentBitmap);
      buffer := rows;
      n := n + 1;
      armed := n <= length + 8;
    }

    /** Lets every armed timer fire until the scroll stops re-arming. */
    method RunToEnd() returns (ticks: nat)
      requires Valid()
      modifies this, display
      ensures Valid() && !armed && n == length + 9
      ensures ticks == length + 9 - old(n)
      ensures Shows(padded, length + 8)
      ensures display.sent == old(display.sent) + FramesLog(Windows(padded, old(n), length + 9))
      ensures display.errors == old(display.errors)
    {
      ticks := 0;
      ghost var start, log0 := n, display.sent;
      while armed
        invariant Valid() && n == start + ticks
        invariant Shows(padded, length + 8)
        invariant display.sent == log0 + FramesLog(Windows(padded, start, n))
        invariant display.errors == old(display.errors)
        decreases length + 9 - n
      {
        ghost var k, before := n, display.sent;
        Tick();
        ScrollLogStep(padded, start, k, log0, before, display.sent);
        ticks := ticks + 1;
      }
    }
  }

  /** Writing window k after windows start..k-1 logs windows start..k. */
  lemma ScrollLogStep(padded: seq<Row>, start: nat, k: nat,
                      base: seq<seq<Byte>>, before: seq<seq<Byte>>, after: seq<seq<Byte>>)
    requires start <= k && Shows(padded, k)
    requires before == base + FramesLog(Windows(padded, start, k))
    requires after == before + EncodeFrame(Window(padded, k))
    ensures after == base + FramesLog(Windows(padded, start, k + 1))
  {
    var done := Windows(padded, start, k);
    calc {
      after;
      (base + FramesLog(done)) + EncodeFrame(Window(padded, k));
      { AppendAssociative(base, FramesLog(done), EncodeFrame(Window(padded, k))); }
      base + (FramesLog(done) + EncodeFrame(Window(padded, k)));
      { FramesLogSnoc(done, Window(padded, k)); }
      base + FramesLog(done + [Window(padded, k)]);
      { WindowsSnoc(padded, start, k); }
      base + FramesLog(Windows(padded, start, k + 1));
    }
  }

  /**
    A whole scroll of a strip with L columns: L + 9 ticks, none written
    before the first timer fires, tick k showing columns k..k+7 of the
    padded rows; the first and the last frame are blank.
   */
  method PlayScroll(display: Backpack, bitmap: seq<Row>) returns (ticks: nat)
    requires IsStrip(bitmap)
    modifies display
    ensures ticks == |bitmap[0]| + 9
    ensures Shows(Pad(bitmap), |bitmap[0]| + 8)
    ensures display.sent == old(display.sent) + FramesLog(Windows(Pad(bitmap), 0, |bitmap[0]| + 9))
    ensures Windows(Pad(bitmap), 0, |bitmap[0]| + 9)[0] == Blank(|bitmap|)
    ensures Windows(Pad(bitmap), 0, |bitmap[0]| + 9)[|bitmap[0]| + 8] == Blank(|bitmap|)
    ensures display.errors == old(display.errors)
  {
    var job := display.Scroll(bitmap);
    assert display.sent == old(display.sent);
    ticks := job.RunToEnd();
    FirstAndLastWindowsBlank(bitmap);
  }

  /** Scrolling the empty text shows nine blank frames. */
  lemma EmptyTextScrollsNineBlankFrames(glyph: char -> Bitmap)
    ensures IsStrip(Strip(PrepareText(glyph, "")))
    ensures |Strip(PrepareText(glyph, ""))[0]| == 0
    ensures Shows(Pad(Strip(PrepareText(glyph, ""))), 8)
    ensures forall k :: 0 <= k < 9 ==> Window(Pad(Strip(PrepareText(glyph, ""))), k) == Blank(8)
  {
    var strip := Strip(PrepareText(glyph, ""));
    assert PrepareText(glyph, "") == [];
    StripOfNothing();
    EmptyStripScrollsBlank(strip);
  }
}
