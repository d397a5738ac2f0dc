/**
 * A DotStar LED strip plugged in through an I2C/SPI bridge: its parameters, its pixels, and
 * the update that frames the pixels under the current budget and writes them to the bridge.
 */
module DotStar {
  import opened Bytes
  import opened Frame
  import opened Chunking

  /** Known controllers; the choice sets the bridge buffer size and the current budget. */
  datatype Controller = ModernRoboticsDIM | RevExpansionHub | Other

  /** Device parameters. The driver keeps its own copy of them, so they are a value here. */
  datatype Parameters = Parameters(
    i2cAddr: int,         // 8-bit write address of the bridge
    i2cMaxBuffer: int,    // bytes the bridge buffer holds, the register byte included
    length: int,          // number of pixels in the strip
    loggingEnabled: bool,
    loggingTag: string,
    maxOutputAmps: real,  // current budget of the controller's output
    writeRegister: int)   // bridge register ("buffer prefix") the frame goes to

  /** The defaults: a Modern Robotics Core DIM, the lowest limits known. */
  const DefaultParameters := Parameters(0x50, 27, 30, false, "DotStarBridgedLED", 0.2, 0x01)

  /** The parameters for a given controller: only the buffer size and the budget depend on it. */
  function ParametersFor(controller: Controller): (p: Parameters)
    ensures controller == RevExpansionHub ==> p.i2cMaxBuffer == 100 && p.maxOutputAmps == 1.5
    ensures controller != RevExpansionHub ==> p.i2cMaxBuffer == 27 && p.maxOutputAmps == 0.2
    ensures p.(i2cMaxBuffer := 27, maxOutputAmps := 0.2) == DefaultParameters
  {
    match controller
    case RevExpansionHub => DefaultParameters.(i2cMaxBuffer := 100, maxOutputAmps := 1.5)
    case _ => DefaultParameters
  }

  /** The I2C device client, seen only through the writes issued to it. */
  class Transport {
    var log: seq<Transfer>

    constructor ()
      ensures log == []
    {
      log := [];
    }

    /** Write a block of bytes to a register and wait until it is written. */
    method Write(register: int, data: seq<byte>)
      modifies this
      ensures log == old(log) + [Block(register, data)]
    {
      log := log + [Block(register, data)];
    }

    /** Write one byte to a register; the driver then waits for the write to complete. */
    method Write8(register: int, value: byte)
      modifies this
      ensures log == old(log) + [Single(register, value)]
    {
      log := log + [Single(register, value)];
    }
  }

  /** One pixel group of the strip. Its fields are public: callers may store any int in them. */
  class Pixel {
    var red: int
    var blue: int
    var green: int

    /** A pixel with each channel clipped into 0..255. */
    constructor (red: int, green: int, blue: int)
      ensures Value().InRange()
      ensures Value() == Color(Bound(red), Bound(green), Bound(blue))
    {
      this.red := Bound(red);
      this.blue := Bound(blue);
      this.green := Bound(green);
    }

    function Value(): Color
      reads this
    {
      Color(red, green, blue)
    }

    /** Estimated current (amps) needed to display the pixel. */
    function Current(): (a: real)
      reads this
      ensures Value().InRange() ==> 0.0 <= a <= 3.0 * AmpsDrawn
      ensures Value().InRange() ==> (a == 0.0 <==> Value() == Off)
    {
      Frame.Current(Value())
    }

    /** Turn the pixel off. */
    method Reset()
      modifies this
      ensures Value() == Off
    {
      red := 0;
      blue := 0;
      green := 0;
    }

    /** The value clipped to the range 0..255. */
    static function Bound(value: int): (r: int)
      ensures 0 <= r <= 255
      ensures 0 <= value <= 255 ==> r == value
    {
      if value < 0 then 0 else if value > 255 then 255 else value
    }
  }

  /** Clipping gives the nearest value in 0..255, so clipping twice changes nothing. */
  lemma BoundIsNearest(value: int, v: int)
    requires 0 <= v <= 255
    ensures Dist(value, Pixel.Bound(value)) <= Dist(value, v)
    ensures Pixel.Bound(Pixel.Bound(value)) == Pixel.Bound(value)
  {
  }

  function Dist(a: int, b: int): nat
  {
    if a < b then b - a else a - b
  }

  /** Colours of a sequence of pixels, in order. */
  function Values(ps: seq<Pixel>): (cs: seq<Color>)
    reads ps
    ensures |cs| == |ps|
    ensures forall i :: 0 <= i < |ps| ==> cs[i] == ps[i].Value()
  {
    seq(|ps|, i requires 0 <= i < |ps| reads ps => ps[i].Value())
  }

  /**
   * Where the fill loop of Update stands in the channel list when it is about to write byte i
   * of the frame for n pixels.
   */
  ghost function Cursor(i: int, n: nat): int
  {
    if i <= 4 then 0
    else if i >= 4 + 4 * n then 3 * n
    else 3 * ((i - 4) / 4) + (if (i - 4) % 4 == 0 then 0 else (i - 4) % 4 - 1)
  }

  /** The block writes still due from `left` on: the one for the next chunk, then the rest. */
  /** One step of the chunk loop of Write: sending the next chunk keeps the log on course. */
  lemma BlockStep(log: seq<Transfer>, target: seq<Transfer>, buffer: seq<byte>, size: nat, left: int, register: int)
    requires size > 0
    requires 0 <= left < |buffer|
    requires log + Blocks(register, Chunks(buffer[left..], size)) == target
    ensures var right := Min(left + size, |buffer|);
      (log + [Block(register, buffer[left..right])]) + Blocks(register, Chunks(buffer[right..], size)) == target
  {
    ChunksFrom(buffer, size, left);
  }

  /**
   * One step of the fill loop of Update: each branch writes the frame's byte i and moves the
   * cursor to where byte i + 1 needs it.
   */
  lemma FillStep(ch: seq<int>, n: nat, i: int)
    requires |ch| == 3 * n
    requires 0 <= i < FrameLength(n)
    ensures |FrameOf(ch, n)| == FrameLength(n)
    ensures var j, f := Cursor(i, n), FrameOf(ch, n);
      && 0 <= j <= 3 * n
      && (i < 4 ==> f[i] == 0 && Cursor(i + 1, n) == j)
      && (i >= 4 && j >= 3 * n ==> f[i] == 0 && Cursor(i + 1, n) == j)
      && (i >= 4 && j < 3 * n && i % 4 == 0 ==> f[i] == 0xFF && Cursor(i + 1, n) == j)
      && (i >= 4 && j < 3 * n && i % 4 != 0 ==> f[i] == LowByte(ch[j]) && Cursor(i + 1, n) == j + 1)
  {
    FrameLayout(ch, n, i);
    if 4 <= i < 4 + 4 * n {
      var q, m := (i - 4) / 4, (i - 4) % 4;
      assert i - 4 == 4 * q + m && 0 <= q < n;
      assert i % 4 == m;
      if m < 3 {
        assert (i + 1 - 4) / 4 == q && (i + 1 - 4) % 4 == m + 1;
      } else {
        assert (i + 1 - 4) / 4 == q + 1 && (i + 1 - 4) % 4 == 0;
      }
    }
  }

  /** What one more pixel adds to the running current and to the channel list. */
  lemma PrefixStep(strip: seq<Color>, i: int)
    requires 0 <= i < |strip|
    ensures TotalCurrent(strip[..i + 1]) == TotalCurrent(strip[..i]) + Frame.Current(strip[i])
    ensures Bgr(strip[..i + 1]) == Bgr(strip[..i]) + [strip[i].blue, strip[i].green, strip[i].red]
  {
    assert strip[..i + 1][..i] == strip[..i];
  }

  /** Writing byte k singly extends the single-byte writes of the bytes before it. */
  lemma SinglesStep(register: int, buffer: seq<byte>, k: int)
    requires 0 <= k < |buffer|
    ensures Singles(register, buffer[..k + 1]) == Singles(register, buffer[..k]) + [Single(register, buffer[k])]
  {
  }

  class DotStarBridgedLED {
    var pixels: array<Pixel>
    var parameters: Parameters
    const deviceClient: Transport

    /** The colours the strip holds now. */
    function Strip(): (s: seq<Color>)
      reads this, pixels, pixels[..]
      ensures |s| == pixels.Length
    {
      Values(pixels[..])
    }

    /** A strip of `params.length` fresh, distinct pixels, all off. */
    constructor (params: Parameters, deviceClient: Transport)
      requires params.length >= 0
      ensures parameters == params && this.deviceClient == deviceClient
      ensures fresh(pixels) && pixels.Length == params.length
      ensures forall i :: 0 <= i < pixels.Length ==> fresh(pixels[i])
      ensures forall i, j :: 0 <= i < j < pixels.Length ==> pixels[i] != pixels[j]
      ensures forall i :: 0 <= i < pixels.Length ==> Strip()[i] == Off
    {
      var strip: seq<Pixel> := [];
      for i := 0 to params.length
        invariant |strip| == i
        invariant forall k :: 0 <= k < i ==> fresh(strip[k]) && strip[k].Value() == Off
        invariant forall k, l :: 0 <= k < l < i ==> strip[k] != strip[l]
      {
        var p := new Pixel(0, 0, 0);
        strip := strip + [p];
      }
      pixels := new Pixel[params.length](i requires 0 <= i < |strip| => strip[i]);
      parameters := params;
      this.deviceClient := deviceClient;
    }

    /** Adopt a copy of new parameters. The strip keeps its length. */
    method Initialize(params: Parameters) returns (ok: bool)
      modifies this
      ensures parameters == params && pixels == old(pixels) && ok
    {
      parameters := params;
      ok := true;
    }

    /** Turn every pixel off, in place. */
    method Clear()
      modifies pixels[..]
      ensures pixels == old(pixels) && pixels[..] == old(pixels[..])
      ensures forall i :: 0 <= i < pixels.Length ==> Strip()[i] == Off
    {
      for i := 0 to pixels.Length
        invariant forall k :: 0 <= k < i ==> pixels[k].Value() == Off
      {
        pixels[i].Reset();
      }
    }

    /**
     * Frame the strip, dimmed to the current budget, and write the frame to the bridge.
     * The pixels are left as they were.
     */
    method Update()
      requires parameters.maxOutputAmps >= 0.0
      modifies deviceClient
      ensures Strip() == old(Strip())
      ensures deviceClient.log == old(deviceClient.log)
        + Transfers(Encode(Strip(), parameters.maxOutputAmps), parameters.i2cMaxBuffer, parameters.writeRegister)
    {
      var n := pixels.Length;
      ghost var strip := Strip();
      ghost var budget := parameters.maxOutputAmps;
      var colors, current := CollectColors(pixels, strip);

      // Over the budget: scale every channel down by one common factor.
      if current > parameters.maxOutputAmps {
        ScaleColors(colors, parameters.maxOutputAmps / current);
      }
      var buffer := FillFrame(colors, n);
      assert buffer[..] == FrameOf(colors[..], n);
      assert colors[..] == Dimmed(strip, budget);
      Write(buffer);
    }

    /**
     * The first step of Update: the channels of every pixel in blue, green, red order, and
     * the strip's estimated current.
     */
    static method CollectColors(pixels: array<Pixel>, ghost strip: seq<Color>) returns (colors: array<int>, current: real)
      requires strip == Values(pixels[..])
      ensures fresh(colors)
      ensures colors[..] == Bgr(strip) && current == TotalCurrent(strip)
    {
      var n := pixels.Length;
      colors := new int[n * 3];
      current := 0.0;
      for i := 0 to n
        invariant current == TotalCurrent(strip[..i])
        invariant colors[..3 * i] == Bgr(strip[..i])
      {
        var pixel := pixels[i];
        current := current + pixel.Current();
        colors[i * 3] := pixel.blue;
        colors[i * 3 + 1] := pixel.green;
        colors[i * 3 + 2] := pixel.red;
        PrefixStep(strip, i);
        assert colors[..3 * (i + 1)] == colors[..3 * i] + [pixel.blue, pixel.green, pixel.red];
      }
      assert strip[..n] == strip && colors[..] == colors[..3 * n];
    }

    /** Multiply every channel by the one common scale and round down, in place. */
    static method ScaleColors(colors: array<int>, scale: real)
      modifies colors
      ensures colors[..] == Scaled(old(colors[..]), scale)
    {
      for i := 0 to colors.Length
        invariant forall k :: 0 <= k < i ==> colors[k] == ScaleChannel(old(colors[k]), scale)
        invariant forall k :: i <= k < colors.Length ==> colors[k] == old(colors[k])
      {
        colors[i] := ScaleChannel(colors[i], scale);
      }
    }

    /**
     * The last step of Update: a buffer of `4 + 4n + (n + 15) / 16` bytes holding the header,
     * a `{0xFF, blue, green, red}` word for each three channels, and the end frame.
     */
    static method FillFrame(colors: array<int>, n: nat) returns (buffer: array<byte>)
      requires colors.Length == 3 * n
      ensures fresh(buffer)
      ensures buffer[..] == FrameOf(colors[..], n)
    {
      ghost var ch := colors[..];
      ghost var frame := FrameOf(ch, n);
      FrameLayout(ch, n, 0);
      var bufferLength := 4 + 4 * n + (n + 15) / 16;
      buffer := new byte[bufferLength];
      var j := 0;
      for i := 0 to bufferLength
        invariant j == Cursor(i, n)
        invariant forall k :: 0 <= k < i ==> buffer[k] == frame[k]
      {
        FillStep(ch, n, i);
        if i < 4 {
          buffer[i] := 0;
          continue;
        }
        if j >= colors.Length {
          buffer[i] := 0x00;
          continue;
        }
        if i % 4 == 0 {
          buffer[i] := 0xFF;
          continue;
        }
        buffer[i] := LowByte(colors[j]);
        j := j + 1;
      }
      assert buffer[..] == frame;
    }

    /**
     * Write the buffer to the bridge's write register: in chunks of at most
     * `i2cMaxBuffer - 1` bytes, or byte by byte when `i2cMaxBuffer` is 1 or less.
     */
    method Write(buffer: array<byte>)
      modifies deviceClient
      ensures deviceClient.log == old(deviceClient.log)
        + Transfers(buffer[..], parameters.i2cMaxBuffer, parameters.writeRegister)
    {
      var register := parameters.writeRegister;
      ghost var buf := buffer[..];
      if parameters.i2cMaxBuffer > 1 {
        ghost var size := parameters.i2cMaxBuffer - 1;
        ghost var target := old(deviceClient.log) + Blocks(register, Chunks(buf, size));
        var left := 0;
        while left < buffer.Length
          invariant 0 <= left <= buffer.Length
          invariant deviceClient.log + Blocks(register, Chunks(buf[left..], size)) == target
        {
          var right := Min(left + parameters.i2cMaxBuffer - 1, buffer.Length);
          BlockStep(deviceClient.log, target, buf, size, left, register);
          assert buffer[left..right] == buf[left..right];
          deviceClient.Write(register, buffer[left..right]);
          left := right;
        }
        assert buf[left..] == [];
      } else {
        for k := 0 to buffer.Length
          invariant deviceClient.log == old(deviceClient.log) + Singles(register, buf[..k])
        {
          deviceClient.Write8(register, buffer[k]);
          SinglesStep(register, buf, k);
        }
        assert buf[..buffer.Length] == buf;
      }
    }
  }
}
