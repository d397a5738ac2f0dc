/**
 * The DotStar frame that the bridged driver sends for a strip of pixels, and the current
 * budget that dims the pixels before they are framed.
 *
 * A frame is a header word of zeroes, one `{0xFF, blue, green, red}` word per pixel and
 * `(N + 15) / 16` end-frame bytes, which this driver writes as zeroes.
 */
module Frame {
  import opened Bytes

  /** Estimated amps drawn by one channel at full intensity. */
  const AmpsDrawn: real := 0.02

  /** The three channels of one pixel, as ints: callers may store any value in them. */
  datatype Color = Color(red: int, green: int, blue: int) {
    predicate InRange() {
      0 <= red <= 255 && 0 <= green <= 255 && 0 <= blue <= 255
    }
  }

  const Off := Color(0, 0, 0)

  /** Estimated current (amps) to display one pixel. */
  function Current(c: Color): (a: real)
    ensures c.InRange() ==> 0.0 <= a <= 3.0 * AmpsDrawn
    ensures c.InRange() ==> (a == 0.0 <==> c == Off)
  {
    (c.red + c.blue + c.green) as real / 255.0 * AmpsDrawn
  }

  /** Estimated current of the whole strip, summed from the first pixel on. */
  function TotalCurrent(cs: seq<Color>): real
  {
    if cs == [] then 0.0 else TotalCurrent(cs[..|cs| - 1]) + Current(cs[|cs| - 1])
  }

  function Sum(s: seq<int>): int
  {
    if s == [] then 0 else Sum(s[..|s| - 1]) + s[|s| - 1]
  }

  /** The estimate the driver would make for a flat list of channel values. */
  function ChannelCurrent(ch: seq<int>): real
  {
    Sum(ch) as real / 255.0 * AmpsDrawn
  }

  /** The channels of the strip, pixel by pixel, in blue, green, red order. */
  function Bgr(cs: seq<Color>): (ch: seq<int>)
    ensures |ch| == 3 * |cs|
  {
    if cs == [] then [] else
      var c := cs[|cs| - 1];
      Bgr(cs[..|cs| - 1]) + [c.blue, c.green, c.red]
  }

  /** One channel value multiplied by the scale and rounded down (`Math.floor`). */
  function ScaleChannel(c: int, scale: real): int
  {
    (c as real * scale).Floor
  }

  /** Every channel multiplied by one common scale and rounded down. */
  function Scaled(ch: seq<int>, scale: real): (r: seq<int>)
    ensures |r| == |ch|
  {
    seq(|ch|, k requires 0 <= k < |ch| => ScaleChannel(ch[k], scale))
  }

  /**
   * The channel values that are encoded: unchanged when the strip's estimated current is
   * within the budget, otherwise all scaled by `budget / current`.
   */
  function Dimmed(cs: seq<Color>, budget: real): (ch: seq<int>)
    requires budget >= 0.0
    ensures |ch| == 3 * |cs|
  {
    var total := TotalCurrent(cs);
    if total > budget then Scaled(Bgr(cs), budget / total) else Bgr(cs)
  }

  /** Number of bytes in the frame for `n` pixels. */
  function FrameLength(n: nat): (len: nat)
    ensures len >= 4 + 4 * n
    ensures 16 * (len - 4 - 4 * n) >= n > 16 * (len - 4 - 4 * n - 1)
  {
    4 + 4 * n + (n + 15) / 16
  }

  function Zeros(k: nat): (z: seq<byte>)
    ensures |z| == k && forall i :: 0 <= i < k ==> z[i] == 0
  {
    seq(k, _ => 0)
  }

  /** One `{0xFF, blue, green, red}` word for each consecutive three channel values. */
  function Words(ch: seq<int>): seq<byte>
    requires |ch| % 3 == 0
  {
    if ch == [] then []
    else [0xFF, LowByte(ch[0]), LowByte(ch[1]), LowByte(ch[2])] + Words(ch[3..])
  }

  /** Header word, pixel words, end frame, for `n` pixels whose channels are `ch`. */
  function FrameOf(ch: seq<int>, n: nat): seq<byte>
    requires |ch| == 3 * n
  {
    Zeros(4) + Words(ch) + Zeros((n + 15) / 16)
  }

  /** The bytes the driver sends for the strip `cs` under the current budget. */
  function Encode(cs: seq<Color>, budget: real): seq<byte>
    requires budget >= 0.0
  {
    FrameOf(Dimmed(cs, budget), |cs|)
  }

  //------------------------------------------------------------------------------------------
  // Layout of the frame
  //------------------------------------------------------------------------------------------

  lemma {:induction false} WordsAt(ch: seq<int>, i: int)
    requires |ch| % 3 == 0
    requires 0 <= i < 4 * (|ch| / 3)
    ensures |Words(ch)| == 4 * (|ch| / 3)
    ensures Words(ch)[i] == if i % 4 == 0 then 0xFF else LowByte(ch[3 * (i / 4) + i % 4 - 1])
  {
    if i < 4 {
      WordsLength(ch);
    } else {
      var rest := ch[3..];
      WordsAt(rest, i - 4);
      assert (i - 4) / 4 == i / 4 - 1 && (i - 4) % 4 == i % 4;
      if i % 4 != 0 {
        assert rest[3 * ((i - 4) / 4) + (i - 4) % 4 - 1] == ch[3 * (i / 4) + i % 4 - 1];
      }
    }
  }

  lemma {:induction false} WordsLength(ch: seq<int>)
    requires |ch| % 3 == 0
    ensures |Words(ch)| == 4 * (|ch| / 3)
  {
    if ch != [] {
      WordsLength(ch[3..]);
    }
  }

  /**
   * The frame, byte by byte: four zero bytes, then for pixel k the bytes
   * 0xFF, blue, green, red at 4 + 4k .. 4 + 4k + 3, then zero bytes to the end.
   */
  lemma FrameLayout(ch: seq<int>, n: nat, i: int)
    requires |ch| == 3 * n
    requires 0 <= i < FrameLength(n)
    ensures |FrameOf(ch, n)| == FrameLength(n)
    ensures FrameOf(ch, n)[i] ==
      if i < 4 then 0
      else if i < 4 + 4 * n then
        (if (i - 4) % 4 == 0 then 0xFF else LowByte(ch[3 * ((i - 4) / 4) + (i - 4) % 4 - 1]))
      else 0
  {
    WordsLength(ch);
    var w, tail := Words(ch), Zeros((n + 15) / 16);
    var f := Zeros(4) + w + tail;
    assert FrameOf(ch, n) == f;
    if i < 4 {
      assert f[i] == Zeros(4)[i];
    } else if i < 4 + 4 * n {
      assert f[i] == w[i - 4];
      WordsAt(ch, i - 4);
    } else {
      assert f[i] == tail[i - 4 - 4 * n];
    }
  }

  lemma WordAt(ch: seq<int>, n: nat, k: int, m: int)
    requires |ch| == 3 * n
    requires 0 <= k < n && 0 <= m < 4
    ensures |FrameOf(ch, n)| == FrameLength(n)
    ensures FrameOf(ch, n)[4 + 4 * k + m] == if m == 0 then 0xFF else LowByte(ch[3 * k + m - 1])
  {
    var i := 4 + 4 * k + m;
    assert (i - 4) / 4 == k && (i - 4) % 4 == m;
    FrameLayout(ch, n, i);
  }

  /** Every frame for N pixels is exactly `4 + 4N + (N + 15) / 16` bytes; with no pixels, the header. */
  lemma EncodeLength(cs: seq<Color>, budget: real)
    requires budget >= 0.0
    ensures |Encode(cs, budget)| == FrameLength(|cs|)
    ensures cs == [] ==> Encode(cs, budget) == [0, 0, 0, 0]
  {
    WordsLength(Dimmed(cs, budget));
  }

  /** The word of pixel k: the marker byte and the dimmed blue, green and red of that pixel. */
  lemma PixelWord(cs: seq<Color>, budget: real, k: int)
    requires budget >= 0.0
    requires 0 <= k < |cs|
    ensures |Encode(cs, budget)| == FrameLength(|cs|)
    ensures Encode(cs, budget)[4 + 4 * k] == 0xFF
    ensures Encode(cs, budget)[5 + 4 * k] == LowByte(Dimmed(cs, budget)[3 * k])
    ensures Encode(cs, budget)[6 + 4 * k] == LowByte(Dimmed(cs, budget)[3 * k + 1])
    ensures Encode(cs, budget)[7 + 4 * k] == LowByte(Dimmed(cs, budget)[3 * k + 2])
  {
    var ch, n := Dimmed(cs, budget), |cs|;
    assert Encode(cs, budget) == FrameOf(ch, n);
    WordAt(ch, n, k, 0);
    WordAt(ch, n, k, 1);
    WordAt(ch, n, k, 2);
    WordAt(ch, n, k, 3);
  }

  //------------------------------------------------------------------------------------------
  // Channel order and the current estimate
  //------------------------------------------------------------------------------------------

  lemma {:induction false} BgrAt(cs: seq<Color>, k: int)
    requires 0 <= k < |cs|
    ensures Bgr(cs)[3 * k] == cs[k].blue
    ensures Bgr(cs)[3 * k + 1] == cs[k].green
    ensures Bgr(cs)[3 * k + 2] == cs[k].red
  {
    if k < |cs| - 1 {
      BgrAt(cs[..|cs| - 1], k);
    }
  }

  lemma {:induction false} SumAppend(s: seq<int>, t: seq<int>)
    ensures Sum(s + t) == Sum(s) + Sum(t)
  {
    if t == [] {
      assert s + t == s;
    } else {
      var st := s + t;
      assert st[..|st| - 1] == s + t[..|t| - 1];
      assert st[|st| - 1] == t[|t| - 1];
      SumAppend(s, t[..|t| - 1]);
    }
  }

  lemma SumOfThree(a: int, b: int, c: int)
    ensures Sum([a, b, c]) == a + b + c
  {
    assert [a, b, c][..2] == [a, b];
    assert [a, b][..1] == [a];
    assert [a][..0] == [];
    assert Sum([a]) == a;
    assert Sum([a, b]) == a + b;
  }

  /** Summing per-pixel estimates equals the estimate of all channels together. */
  lemma {:induction false} TotalCurrentOfChannels(cs: seq<Color>)
    ensures TotalCurrent(cs) == ChannelCurrent(Bgr(cs))
  {
    if cs != [] {
      var init, c := cs[..|cs| - 1], cs[|cs| - 1];
      TotalCurrentOfChannels(init);
      SumAppend(Bgr(init), [c.blue, c.green, c.red]);
      SumOfThree(c.blue, c.green, c.red);
    }
  }

  //------------------------------------------------------------------------------------------
  // The current budget
  //------------------------------------------------------------------------------------------

  /** Rounding down after a common non-negative scale never adds to the sum. */
  lemma {:induction false} ScaledSum(ch: seq<int>, scale: real)
    requires scale >= 0.0
    ensures Sum(Scaled(ch, scale)) as real <= scale * Sum(ch) as real
  {
    if ch != [] {
      var init := ch[..|ch| - 1];
      forall k | 0 <= k < |init|
        ensures Scaled(ch, scale)[k] == Scaled(init, scale)[k]
      {
      }
      assert Scaled(ch, scale)[..|ch| - 1] == Scaled(init, scale);
      ScaledSum(init, scale);
      var last := ch[|ch| - 1];
      assert ScaleChannel(last, scale) as real <= last as real * scale;
      assert scale * Sum(ch) as real == scale * Sum(init) as real + last as real * scale;
    }
  }

  /** The dimmed channels never draw more than the budget. */
  lemma DimmedWithinBudget(cs: seq<Color>, budget: real)
    requires budget >= 0.0
    ensures ChannelCurrent(Dimmed(cs, budget)) <= budget
  {
    TotalCurrentOfChannels(cs);
    var total := TotalCurrent(cs);
    if total > budget {
      var scale := budget / total;
      ScaleBelowOne(budget, total);
      ScaledSum(Bgr(cs), scale);
      BudgetArithmetic(Sum(Bgr(cs)) as real, Sum(Scaled(Bgr(cs), scale)) as real, budget, total);
    }
  }

  lemma BudgetArithmetic(s: real, t: real, budget: real, total: real)
    requires 0.0 <= budget < total
    requires total == s / 255.0 * AmpsDrawn
    requires t <= budget / total * s
    ensures t / 255.0 * AmpsDrawn <= budget
  {
    var scale := budget / total;
    assert scale * total == budget;
    calc {
      t / 255.0 * AmpsDrawn;
    <= scale * s / 255.0 * AmpsDrawn;
    == scale * (s / 255.0 * AmpsDrawn);
    == budget;
    }
  }

  /**
   * Each encoded channel: the pixel's own value when the estimate is within the budget;
   * otherwise the value times the one common scale `budget / current`, rounded down,
   * which for an in-range channel lies between 0 and the value.
   */
  lemma DimmedChannel(cs: seq<Color>, budget: real, k: int)
    requires budget >= 0.0
    requires 0 <= k < 3 * |cs|
    ensures TotalCurrent(cs) <= budget ==> Dimmed(cs, budget)[k] == Bgr(cs)[k]
    ensures TotalCurrent(cs) > budget ==>
      Dimmed(cs, budget)[k] == ScaleChannel(Bgr(cs)[k], budget / TotalCurrent(cs))
    ensures TotalCurrent(cs) > budget && Bgr(cs)[k] >= 0 ==> 0 <= Dimmed(cs, budget)[k] <= Bgr(cs)[k]
  {
    var total, ch := TotalCurrent(cs), Bgr(cs);
    if total > budget {
      assert Dimmed(cs, budget) == Scaled(ch, budget / total);
      ScaledChannel(ch, k, budget, total);
    }
  }

  lemma ScaledChannel(ch: seq<int>, k: int, budget: real, total: real)
    requires 0.0 <= budget < total
    requires 0 <= k < |ch|
    ensures Scaled(ch, budget / total)[k] == ScaleChannel(ch[k], budget / total)
    ensures ch[k] >= 0 ==> 0 <= Scaled(ch, budget / total)[k] <= ch[k]
  {
    if ch[k] >= 0 {
      ScaleBelowOne(budget, total);
      ScaleReduces(ch[k], budget / total);
    }
  }

  lemma ScaleBelowOne(budget: real, total: real)
    requires 0.0 <= budget < total
    ensures 0.0 <= budget / total < 1.0
    ensures budget / total * total == budget
  {
  }

  lemma ScaleReduces(c: int, scale: real)
    requires 0.0 <= scale < 1.0
    requires c >= 0
    ensures 0 <= ScaleChannel(c, scale) <= c
  {
    assert 0.0 <= c as real * scale <= c as real;
  }

  /**
   * With every pixel in range, the dimmed channels stay in range, so the bytes on the wire
   * are exactly the dimmed channel values.
   */
  lemma InRangeChannelsEncodeExactly(cs: seq<Color>, budget: real, k: int)
    requires budget >= 0.0
    requires forall i :: 0 <= i < |cs| ==> cs[i].InRange()
    requires 0 <= k < 3 * |cs|
    ensures 0 <= Dimmed(cs, budget)[k] <= 255
    ensures LowByte(Dimmed(cs, budget)[k]) as int == Dimmed(cs, budget)[k]
  {
    BgrAt(cs, k / 3);
    assert 0 <= Bgr(cs)[k] <= 255 by {
      assert k == 3 * (k / 3) + k % 3;
    }
    DimmedChannel(cs, budget, k);
    TotalCurrentOfChannels(cs);
  }

  //------------------------------------------------------------------------------------------
  // Worked examples
  //------------------------------------------------------------------------------------------

  lemma {:induction false} UniformCurrent(cs: seq<Color>, c: Color)
    requires forall i :: 0 <= i < |cs| ==> cs[i] == c
    ensures TotalCurrent(cs) == |cs| as real * Current(c)
  {
    if cs != [] {
      UniformCurrent(cs[..|cs| - 1], c);
    }
  }

  /**
   * Thirty white pixels under the default 0.2 A budget: the strip is estimated at
   * 30 * 0.06 = 1.8 A, so every channel is scaled by 0.2 / 1.8 and 255 becomes 28.
   */
  lemma WhiteStripAtDefaultBudget(cs: seq<Color>, k: int)
    requires |cs| == 30
    requires forall i :: 0 <= i < |cs| ==> cs[i] == Color(255, 255, 255)
    requires 0 <= k < |cs|
    ensures TotalCurrent(cs) == 1.8
    ensures |Encode(cs, 0.2)| == FrameLength(30)
    ensures Encode(cs, 0.2)[4 + 4 * k] == 0xFF
    ensures Encode(cs, 0.2)[5 + 4 * k] == 28
    ensures Encode(cs, 0.2)[6 + 4 * k] == 28
    ensures Encode(cs, 0.2)[7 + 4 * k] == 28
  {
    UniformCurrent(cs, Color(255, 255, 255));
    assert ScaleChannel(255, 0.2 / 1.8) == 28;
    BgrAt(cs, k);
    DimmedChannel(cs, 0.2, 3 * k);
    DimmedChannel(cs, 0.2, 3 * k + 1);
    DimmedChannel(cs, 0.2, 3 * k + 2);
    PixelWord(cs, 0.2, k);
  }

  /** One pixel of red 10 is well within budget and goes out as `{0xFF, 0, 0, 10}`. */
  lemma DimRedPixelFrame()
    ensures Encode([Color(10, 0, 0)], 0.2) == [0, 0, 0, 0, 0xFF, 0, 0, 10, 0]
  {
    var cs := [Color(10, 0, 0)];
    assert cs[..0] == [];
    assert TotalCurrent(cs) <= 0.2;
    assert Bgr(cs) == [0, 0, 10];
    assert Words([0, 0, 10]) == [0xFF, 0, 0, 10] by {
      assert [0, 0, 10][3..] == [];
    }
  }
}
