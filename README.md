# DotStar LEDs through an I2C/SPI bridge

A model of the FTC driver `DotStarBridgedLED`, which drives a DotStar LED strip through an
I2C/SPI bridge. The driver holds a strip of pixels. Each pixel has a red, a green and a blue
channel. On `update()` it builds a frame for the whole strip and writes it to the bridge:

- a header word of four zero bytes;
- one `{0xFF, blue, green, red}` word per pixel;
- `(N + 15) / 16` end-frame bytes. The driver writes these as `0x00`, not the `0xFF` of the
  DotStar convention, so that unused LEDs at the end of the strip stay dark.

Before framing, the driver estimates the strip's current. Each pixel draws
`(red + green + blue) / 255 * 0.02` A. When the total is above the controller's budget
`maxOutputAmps`, every channel is multiplied by the one common factor `budget / total` and
rounded down. The frame then goes to the bridge's write register in chunks of at most
`i2cMaxBuffer - 1` bytes, because the register takes one byte of the bridge buffer. When
`i2cMaxBuffer` is 1 or less, the frame goes one byte at a time.

Files:

- `bytes.dfy` (module `Bytes`): the `byte` type and the Java `(byte)` cast.
- `frame.dfy` (module `Frame`): the frame and the current budget as functions of the strip's
  colours, with the layout, length and budget lemmas.
- `chunking.dfy` (module `Chunking`): how a buffer is cut into chunks, the log entries
  the bridge sees, and the lemmas about both.
- `dotstar_bridged_led.dfy` (module `DotStar`): the driver itself. `Parameters` and
  `Controller` are here. `Pixel` is a class whose fields callers may assign. `Transport` is a
  class that stands for the I2C device client and keeps a log of the writes issued to it.
  `DotStarBridgedLED` is a class that holds the pixel array and the parameters, with
  `Clear`, `Update` and `Write` as methods that change state.

`Update` is one method in the source. Here it calls three methods, one for each of its
phases: `CollectColors` is the loop that sums the current and gathers the channels in
blue, green, red order, `ScaleColors` is the dimming loop, and `FillFrame` is the loop that
fills the buffer with the counters `i` and `j`. Each keeps the source's loop and is proved
against the `Frame` functions. `Update` then proves that the writes it issues are
`Transfers(Encode(strip, maxOutputAmps), i2cMaxBuffer, writeRegister)`.

Pixel channels are unbounded integers. The `Pixel` constructor clips them to 0..255, but the
fields are public and callers assign them directly, so a channel may hold any value when
`update()` runs. The byte sent for a channel `c` is `c mod 256`, which is the bit pattern
Java's `(byte) c` keeps. A `byte` here is that bit pattern read as unsigned, so Java's
`(byte) 0xff` is 255. When every pixel is in range, the bytes equal the dimmed channel values
(`Frame.InRangeChannelsEncodeExactly`).

Current and scale are exact reals. A worked example sometimes quoted for this driver says
30 white pixels draw 18 A under a 0.2 A budget and come out as channel value 2. That
assumes 0.6 A per white pixel. The code estimates 3 * 0.02 = 0.06 A per white pixel, so the
strip draws 1.8 A and each channel becomes `floor(255 * 0.2 / 1.8) = 28`. The model follows
the code (`Frame.WhiteStripAtDefaultBudget`).

## Model

| member | source | states |
|---|---|---|
| `DotStar.Pixel.Bound` | LEDs/DotStarBridgedLED.java:362-370 | the result lies in 0..255, and a value already in 0..255 is returned unchanged |
| `DotStar.BoundIsNearest` | LEDs/DotStarBridgedLED.java:362-370 | the clipped value is the nearest value in 0..255 to the input, and clipping twice gives the same as clipping once |
| `DotStar.Pixel.constructor` | LEDs/DotStarBridgedLED.java:327-331 | a new pixel holds each given channel clipped to 0..255, so all its channels are in range |
| `DotStar.Pixel.Current` | LEDs/DotStarBridgedLED.java:338-345 | for an in-range pixel the estimate lies between 0 and 3 * 0.02 A, and it is 0 exactly when the pixel is off |
| `DotStar.Pixel.Reset` | LEDs/DotStarBridgedLED.java:351-355 | afterwards the pixel is (0, 0, 0) |
| `Frame.Current` | LEDs/DotStarBridgedLED.java:343-345 | the per-pixel estimate `(red + green + blue) / 255 * 0.02`: between 0 and 0.06 A for an in-range pixel, and 0 exactly for an off pixel |
| `DotStar.ParametersFor` | LEDs/DotStarBridgedLED.java:245-283 | a REV Expansion Hub gets a 100-byte bridge buffer and a 1.5 A budget; every other controller keeps 27 bytes and 0.2 A; no other field depends on the controller and all other fields have the defaults (address 0x50, 30 pixels, logging off, tag "DotStarBridgedLED", register 0x01) |
| `DotStar.DotStarBridgedLED.constructor` | LEDs/DotStarBridgedLED.java:55-68 | the device keeps the given parameters and client, and has `params.length` fresh, pairwise distinct pixels, all (0, 0, 0) |
| `DotStar.DotStarBridgedLED.Initialize` | LEDs/DotStarBridgedLED.java:82-87 | the device adopts the new parameters and reports success; the pixel array is not replaced, so its length does not follow the new `length` |
| `DotStar.DotStarBridgedLED.Clear` | LEDs/DotStarBridgedLED.java:95-99 | every pixel of the strip is (0, 0, 0) afterwards; the array and the pixel objects in it are the same as before |
| `DotStar.DotStarBridgedLED.Update` | LEDs/DotStarBridgedLED.java:102-168 | the pixels are unchanged, and the writes appended to the bridge's log are exactly the transfers of the encoded frame of the strip, under the budget, for the configured bridge buffer and write register |
| `DotStar.DotStarBridgedLED.CollectColors` | LEDs/DotStarBridgedLED.java:113-127 | given the pixel array and the colours it holds, returns a fresh array with those channels in blue, green, red order, and the strip's total estimated current |
| `DotStar.DotStarBridgedLED.ScaleColors` | LEDs/DotStarBridgedLED.java:129-137 | every channel of the array is replaced by itself times the one given scale, rounded down |
| `DotStar.DotStarBridgedLED.FillFrame` | LEDs/DotStarBridgedLED.java:103-164 | returns a fresh buffer equal to the frame: header, one word per three channels, end frame |
| `DotStar.DotStarBridgedLED.Write` | LEDs/DotStarBridgedLED.java:186-214 | the writes appended to the log are the buffer's chunks as block writes when `i2cMaxBuffer > 1`, otherwise one single-byte write per byte in buffer order, all to the write register |
| `DotStar.Transport.Write` | LEDs/DotStarBridgedLED.java:197-201 | a block write to a register is appended to the log |
| `DotStar.Transport.Write8` | LEDs/DotStarBridgedLED.java:209-212 | a single-byte write to a register is appended to the log |
| `DotStar.FillStep` | LEDs/DotStarBridgedLED.java:140-164 | at every position of the fill loop, each branch of the source writes the frame's byte and moves the colour counter `j` to where the next byte needs it |
| `DotStar.PrefixStep` | LEDs/DotStarBridgedLED.java:119-127 | each pixel adds its own estimate to the running current and its blue, green and red to the end of the channel list |
| `Bytes.LowByte` | LEDs/DotStarBridgedLED.java:162 | the byte agrees with the int modulo 256 and equals it when the int is in 0..255 |
| `Frame.FrameLength` | LEDs/DotStarBridgedLED.java:103-107 | the frame for N pixels has the 4-byte header, 4N pixel bytes and the least number of end-frame bytes that gives one byte per 16 pixels, i.e. `ceil(N / 16)` |
| `Frame.EncodeLength` | LEDs/DotStarBridgedLED.java:103-110 | the encoded frame is `4 + 4N + (N + 15) / 16` bytes long; with no pixels it is exactly four zero bytes |
| `Frame.FrameLayout` | LEDs/DotStarBridgedLED.java:139-164 | byte by byte: bytes 0..3 are 0; byte 4 + 4k is 0xFF and bytes 4 + 4k + 1..3 are the low bytes of channels 3k..3k + 2; every byte after the last pixel word is 0 |
| `Frame.WordsAt` | LEDs/DotStarBridgedLED.java:155-163 | the pixel words, one per three channels, hold 0xFF followed by the three channels' low bytes |
| `Frame.PixelWord` | LEDs/DotStarBridgedLED.java:119-127 | the word of pixel k is 0xFF, then its dimmed blue, green and red, in that order |
| `Frame.BgrAt` | LEDs/DotStarBridgedLED.java:123-126 | channels 3k, 3k + 1, 3k + 2 of the list are pixel k's blue, green and red |
| `Frame.TotalCurrentOfChannels` | LEDs/DotStarBridgedLED.java:115-121 | the sum of the per-pixel estimates equals the estimate of the sum of all channels |
| `Frame.ScaledSum` | LEDs/DotStarBridgedLED.java:133-136 | scaling every channel by one non-negative factor and rounding down never gives a sum above the factor times the original sum |
| `Frame.DimmedWithinBudget` | LEDs/DotStarBridgedLED.java:129-137 | the current estimated from the channels that are encoded never exceeds the budget |
| `Frame.DimmedChannel` | LEDs/DotStarBridgedLED.java:129-137 | within budget every encoded channel is the pixel's own value; over budget it is `floor(value * budget / total)`, one common factor for all channels, and lies between 0 and the value for a non-negative value |
| `Frame.ScaleReduces` | LEDs/DotStarBridgedLED.java:133-136 | a non-negative channel scaled by a factor in [0, 1) and rounded down stays between 0 and its value |
| `Frame.InRangeChannelsEncodeExactly` | LEDs/DotStarBridgedLED.java:129-162 | when every pixel is in range, every dimmed channel is in 0..255 and the byte sent is that value |
| `Frame.WhiteStripAtDefaultBudget` | LEDs/DotStarBridgedLED.java:129-137 | 30 white pixels draw an estimated 1.8 A; under a 0.2 A budget every pixel goes out as `{0xFF, 28, 28, 28}` |
| `Frame.DimRedPixelFrame` | LEDs/DotStarBridgedLED.java:104-164 | a strip of one pixel (10, 0, 0) is encoded as `00 00 00 00 FF 00 00 0A 00` |
| `Chunking.ChunksConcatenate` | LEDs/DotStarBridgedLED.java:190-204 | the chunks, concatenated in order, are the buffer |
| `Chunking.ChunksBounded` | LEDs/DotStarBridgedLED.java:193-199 | every chunk is non-empty and at most the chunk size long |
| `Chunking.ChunksCount` | LEDs/DotStarBridgedLED.java:190-204 | there are `ceil(L / size)` chunks for a buffer of L bytes |
| `Chunking.TransfersCarryBuffer` | LEDs/DotStarBridgedLED.java:186-214 | every write goes to the write register and the data of the writes, concatenated, is the buffer; with `i2cMaxBuffer = C > 1` there are `ceil(L / (C - 1))` block writes of 1 to C - 1 bytes; otherwise exactly L single-byte writes in buffer order |

## Left out

- The one-argument constructor `DotStarBridgedLED(deviceClient)` is not modelled separately: it is the two-argument constructor applied to the default parameters, `DotStar.DefaultParameters`.
- The field `colors` that the constructor allocates is never read, because `update()` declares a local array of the same name; it is not modelled.
- Calls into the FTC SDK other than the two writes are not modelled: `setLogging`, `setLoggingTag`, `registerArmingStateCallback`, `engage`, `setI2cAddress`, `getDeviceName`, `getManufacturer`. The completion wait after `write8` and the `WRITTEN` wait mode of block writes are part of what a `Single` and a `Block` log entry stand for. A failed write is not modelled: the log only records writes that were issued.
- `Parameters.clone` is not modelled: parameters are values here, so the device always holds its own copy.
- DotStar.DotStarBridgedLED.Update: requires a non-negative `maxOutputAmps`. With a negative budget, the Java code can divide by a zero estimate and obtain infinite or NaN scales, which exact reals do not capture.
- Java `double` rounding in the current estimate and the scale is not modelled: both are exact reals, so a channel that lands on an integer boundary may round differently in the source.
- Java `int` overflow is not modelled: channel sums, the buffer length `4 + 4N + (N + 15) / 16`, `N * 3` and `left + i2cMaxBuffer - 1` are unbounded integers. They only overflow for channel values or strip lengths far beyond any real strip.
- DotStar.DotStarBridgedLED.constructor: requires `params.length >= 0`; the Java code throws when asked for an array of negative length.
- The pattern runner (`DotStarPatternRunner`, a background thread with `wait`/`notify` and shared flags) and the pattern interface `IDotStarPattern` are not part of this model: the first is concurrency, the second has no behaviour of its own.
- The OpModes (`DotStarPatternTester`, `DotStarRainbow`, `DotStarColorMatcher`, the Blinkin OpModes, the driving OpModes and the colour-sensor calibration) are not part of this model: they are gamepad, telemetry and servo glue around the driver.
