# HT16K33 8x8 LED backpack driver, modelled in Dafny

This project models the driver for an 8x8 LED matrix behind an HT16K33
controller on an I2C bus (`index.js`). The model covers:

- the set-up writes the constructor sends;
- how a bitmap is encoded into row-register writes (`writeBitmap`, `clear`);
- how text is turned into one wide strip of glyphs (`_prepareText`, `scrollText`);
- the two timed effects: frame animation (`animate`) and horizontal scrolling (`scroll`).

Modules:

- `Codec` (`Codec.dfy`) covers bits, bytes, rows and bitmaps. It defines the row
  reordering and binary packing, the frame encoding, and decode functions that
  prove the encoding loses nothing. It also holds the array-based row loop of
  `writeBitmap`: copy, reverse in place, `pop`/`unshift`, `parseInt`.
- `Text` (`Text.dfy`) covers glyph lookup per character and the strip that
  `scrollText` builds with its nested loops.
- `Viewport` (`Viewport.dfy`) covers the scroller's padding and the 8-column
  window shown at each tick.
- `Driver` (`Driver.dfy`) holds the `Backpack` class. Its `sent` field records
  every buffer handed to `i2c.send`, in order. `AnimationJob` and `ScrollJob`
  keep the state of the timer chains, and their `Tick` methods stand for the
  timer callbacks.

## Model

| member | source | states |
|---|---|---|
| `Codec.Reverse` | index.js:95 | the reversed row has the same length and holds element `\|s\|-1-i` at position i |
| `Codec.LastToFront` | index.js:96 | `unshift(pop())`: the result is as long as the input, holds the last element at position 0 and element j-1 at every later position j |
| `Codec.Reorder` | index.js:95-96 | reversing and then moving the last element to the front keeps column 0 first and puts column j at position `\|row\|-j` |
| `Codec.ReorderInvolution` | index.js:95-96 | reordering a row twice gives the row back |
| `Codec.BinaryValue` | index.js:97 | a binary numeral of n digits read most significant digit first is below 2^n |
| `Codec.DigitsOfValue` | index.js:97 | writing out the value of a bit string in as many digits gives the bit string back |
| `Codec.ValueOfDigits` | index.js:97 | every value below 2^n is the value of its n-digit numeral |
| `Codec.EncodeRow` | index.js:95-97 | the byte sent for an 8-column row is 128·r0 + Σ_{k=1..7} r_k·2^(k-1): column 0 drives bit 7 and column k drives bit k-1 |
| `Codec.DecodeEncodeRow` | index.js:95-97 | the row byte determines the row: decoding it gives the row back |
| `Codec.EncodeDecodeRow` | index.js:95-97 | every byte 0..255 is the byte of exactly the row it decodes to |
| `Codec.EncodeRowInjective` | index.js:95-97 | two 8-column rows get the same byte if and only if they are equal |
| `Codec.EncodeRowSingleColumn` | index.js:95-97 | a single lit column k gives 128 for k = 0 and 2^(k-1) otherwise |
| `Codec.EncodeRowAllOff` | index.js:95-97 | an all-zero row is sent as byte 0 |
| `Codec.EncodeRowAllOn` | index.js:95-97 | an all-one row is sent as byte 255 |
| `Codec.ReverseInPlace` | index.js:95 | reversing the copied row buffer in place leaves the reversed contents |
| `Codec.LastToFrontInPlace` | index.js:96 | `unshift(pop())` on the buffer moves its last element to the front |
| `Codec.ParseBinary` | index.js:97 | accumulating the digits left to right gives the binary value of the buffer |
| `Codec.RowByte` | index.js:95-97 | the copy, reverse, pop/unshift and parse of one row give exactly the row's byte |
| `Codec.RowAddress` | index.js:98 | the register of row `index` (`index*2 & 0xFF`) is always even, and is exactly 2·index for the rows below 128 |
| `Codec.EncodeFrame` | index.js:94-98 | a bitmap gives one two-byte send per row, each addressed to an even register; `Codec.DecodeEncodeFrame` shows the data bytes give the bitmap back |
| `Codec.FrameAddresses` | index.js:94-98 | an 8x8 bitmap gives eight two-byte sends addressed to registers 0, 2, ..., 14, in row order |
| `Codec.DecodeEncodeFrame` | index.js:94-98 | the data bytes of a frame's sends, decoded in order, give the bitmap back |
| `Codec.ClearFrame` | index.js:22-31 | the clear bitmap is 8x8 and its sends write byte 0 to registers 0, 2, ..., 14 |
| `Codec.FramesLogAt` | index.js:94-98 | writing a sequence of 8x8 frames produces 8 sends per frame, and frame k occupies sends 8k..8k+7 |
| `Text.PrepareTextConcat` | index.js:66-75 | looking up the glyphs of a concatenated text gives the glyphs of each part in turn, because no state carries over from one character to the next |
| `Text.PrepareText` | index.js:66-75 | one glyph per character: as many glyphs as characters, glyph i being the table's glyph for character i |
| `Text.StripRow` | index.js:79-86 | strip row i is as wide as the sum over the glyphs of their row i width plus one gap column each, and ends with the zero gap column when there is any glyph |
| `Text.Strip` | index.js:79-86 | the strip handed to `scroll` always has eight rows; `Text.StripRowAt` gives every column of it |
| `Text.StripRowAppend` | index.js:81-86 | the strip of glyphs a then b is a's strip followed by b's strip, row by row |
| `Text.StripRowWidthOfGlyphs` | index.js:79-86 | with 8x8 glyphs every strip row has 9 columns per character |
| `Text.StripRowAt` | index.js:79-86 | with 8x8 glyphs, columns 9k..9k+7 of strip row i are row i of glyph k, and column 9k+8 is 0 |
| `Text.StripOfNothing` | index.js:79 | no glyphs give eight empty rows |
| `Text.BuildStrip` | index.js:79-86 | the nested loops over glyphs and their rows build exactly the strip: each glyph's row followed by one zero column |
| `Viewport.PadRow` | index.js:126-128 | a padded row has 16 more columns: column c is row column c-8 inside the content and 0 in the eight columns on either side |
| `Viewport.Pad` | index.js:125-129 | padding keeps the number of rows; `Viewport.PadColumns` gives every column |
| `Viewport.PadColumns` | index.js:123-129 | a padded row has L+16 columns; column c is strip column c-8 inside the content and 0 in the eight columns on either side |
| `Viewport.WindowColumns` | index.js:131-138 | at every tick k ≤ L+8 the window has 8 full columns; column j is strip column k+j-8, or 0 in the padding |
| `Viewport.Window` | index.js:135-137 | the frame of a tick has one row per buffer row, each of exactly 8 columns; `Viewport.WindowColumns` gives every column |
| `Viewport.Windows` | index.js:132-144 | the frames of ticks lo..hi-1 are hi-lo frames of 8-column rows; `Viewport.WindowsSnoc` shows one more tick appends that tick's window |
| `Viewport.WindowsSnoc` | index.js:132-144 | the frames up to tick hi+1 are the frames up to tick hi followed by window hi |
| `Viewport.PaddingWindowBlank` | index.js:123-138 | the windows at tick 0 and at tick L+8 lie wholly in the padding and are blank |
| `Viewport.FirstAndLastWindowsBlank` | index.js:121-146 | the first and last frames of a scroll are blank |
| `Viewport.ColumnCrossesViewport` | index.js:131-146 | every content column appears in every viewport column j, at tick c+8-j |
| `Viewport.EmptyStripScrollsBlank` | index.js:121-146 | a strip without columns scrolls as nine blank frames |
| `Driver.ErrorSignals` | index.js:53-57 | a send result raises one 'error' event, carrying its code, if and only if the code is the failure sentinel 1, and none otherwise |
| `Driver.ErrorCallbackAsWritten` | index.js:53-57 | the handler as written throws a ReferenceError exactly on code 1 and otherwise returns without raising any event |
| `Driver.ErrorCallbackAsWrittenLosesFailure` | index.js:53-57 | the handler as written departs from the intended events exactly on code 1, where it throws instead |
| `Driver.Backpack.constructor` | index.js:33-47 | the bus port is opened at address 0x70; the sends are `[0x21]` and then `[0x81, 0xEF]`; no error has been raised (the optional callback of index.js:48-50 is modelled by `Driver.Use`) |
| `Driver.Use` | index.js:149-151 | `use` returns a freshly set-up driver; a given callback receives a null error and that driver, as the constructor does at index.js:48-50 |
| `Driver.Backpack.OnSendResult` | index.js:53-57 | a send result appends the error events it should raise and sends nothing |
| `Driver.Backpack.WriteBitmap` | index.js:91-100 | one `[index*2 & 0xFF, row byte]` send per row, in row order, appended to the log |
| `Driver.Backpack.Clear` | index.js:61-64 | byte 0 is sent to each of the eight row registers 0, 2, ..., 14 |
| `Driver.Backpack.Animate` | index.js:102-109 | with no frames nothing is written and no timer is armed; otherwise frame 0 is written at once and the timer is armed with the remaining frames |
| `Driver.Backpack.Scroll` | index.js:118-146 | the job starts with rows padded by eight zeros on both ends, n = 0 and the first timer armed, and nothing is sent |
| `Driver.Backpack.ScrollText` | index.js:77-89 | the scroll job runs over the padded strip of the text's glyphs, 9 columns per character |
| `Driver.AnimationJob.Start` | index.js:102-109 | starting an animation writes frame 0 before any timer fires (nothing for no frames); exactly \|frames\| timer callbacks remain |
| `Driver.AnimationJob.Tick` | index.js:107-116 | each callback writes the next unwritten frame and re-arms; once every frame is written, a callback writes nothing and the chain ends |
| `Driver.AnimationJob.RunToEnd` | index.js:102-116 | firing every timer ends the chain after the remaining callbacks, having written the remaining frames in order |
| `Driver.PlayAnimation` | index.js:102-116 | N frames take exactly N timer callbacks after the call and are written once each, in order |
| `Driver.ScrollJob.constructor` | index.js:121-131 | every row is copied and padded with eight zeros on both ends; n = 0 and the first timer is armed |
| `Driver.ScrollJob.Tick` | index.js:132-144 | a tick sends the 8-column window at column n, drops each row's first column, increments n and re-arms while n ≤ L+8 |
| `Driver.ScrollJob.RunToEnd` | index.js:132-146 | firing every timer stops after tick L+8, having sent the windows of the remaining ticks in order |
| `Driver.PlayScroll` | index.js:118-146 | a scroll of a strip with L columns sends exactly L+9 frames: windows 0..L+8 of the padded rows in order, the first and last blank |
| `Driver.EmptyTextScrollsNineBlankFrames` | index.js:77-88 | scrolling the empty text shows nine blank frames |

## Left out

- The I2C transport (`hardware.I2C`, `i2c.send`, `Buffer`) is not modelled. Each send is recorded as one entry of `Backpack.sent`, and the port's address is kept as a field.
- Send results arrive asynchronously. `Backpack.OnSendResult` models what one result should do, but it is not tied to a particular send.
- The `EventEmitter` machinery and the 'ready' event emitted through `setImmediate` are not modelled.
- The `interval` argument and wall-clock spacing are not modelled. Timer callbacks are explicit `Tick` calls.
- Interleaving of animations and scrolls started at the same time is not modelled. Each job's contracts describe its own writes only.
- The glyph table (`./chars`) is not part of this model. `scrollText` takes the table as a function parameter. Whatever that function returns for an unsupported character is used.
- Malformed input is excluded by preconditions rather than modelled:
  - rows that do not have 8 columns;
  - values other than 0 and 1 (the `Bit` type);
  - a scroll bitmap with no rows or with rows of unequal length;
  - glyphs that are not 8x8.
- Rows are passed as values. So `writeBitmap` and `scroll` cannot change the caller's bitmap, and the `slice()` copies that ensure this in the source hold by construction. The row byte is still computed on a fresh array copy.
- `text.split('')` splits into UTF-16 code units. The model splits a Dafny string into its characters.
- The `callback` parameters of `clear` and `writeBitmap` are never called by the source, so they are not modelled.
- The display-on/blink byte 0x81 and the brightness byte 0xEF go out together as one two-byte send (index.js:42), and the model records them that way.
- Driver.AnimationJob: the frames are passed as values and fixed when `animate` is called. In the source, `frames.slice(1, frames.length)` (index.js:107) is a shallow copy, so the armed timer keeps references to the caller's bitmaps and rows, and each later tick reads `frames[0]` only when it fires (index.js:106, 114). A caller that changes frame k, or one of its rows, before tick k changes what tick k sends; the model does not capture this aliasing. `scroll` is not affected, because it copies every row when it is called (index.js:126).

## Findings

| source | as written | input that shows it | evidently intended | confidence | as-written member | corrected member |
|---|---|---|---|---|---|---|
| index.js:53-57 | the error handler calls `self.emit`, but `self` is a local of the constructor and is not bound inside the handler, so calling it throws a ReferenceError | a send whose result code is 1 | the driver raises the 'error' event with code 1 | medium (a host that defines a global `self` would behave differently); not executed | `Driver.ErrorCallbackAsWritten`, shown by `Driver.ErrorCallbackAsWrittenLosesFailure` | `Driver.ErrorSignals`, used by `Driver.Backpack.OnSendResult` |
