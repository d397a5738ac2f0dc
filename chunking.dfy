/**
 * How a frame is pushed through the I2C/SPI bridge: in chunks of at most `maxBuffer - 1`
 * bytes (the register takes one byte of the bridge's buffer), or one byte at a time when the
 * bridge buffer is one byte or less.
 */
module Chunking {
  import opened Bytes

  /** One call into the I2C device client, as it appears in the transport's log. */
  datatype Transfer =
    | Block(register: int, data: seq<byte>)  // write(register, data, WRITTEN)
    | Single(register: int, value: byte)     // write8(register, value), then wait for completion

  function Min(a: int, b: int): int
  {
    if a <= b then a else b
  }

  /** Consecutive pieces of `s`, each `size` long except possibly the last. */
  function Chunks(s: seq<byte>, size: nat): seq<seq<byte>>
    requires size > 0
    decreases |s|
  {
    if s == [] then []
    else
      var right := Min(size, |s|);
      [s[..right]] + Chunks(s[right..], size)
  }

  function Flatten(ss: seq<seq<byte>>): seq<byte>
  {
    if ss == [] then [] else ss[0] + Flatten(ss[1..])
  }

  lemma {:induction false} ChunksConcatenate(s: seq<byte>, size: nat)
    requires size > 0
    ensures Flatten(Chunks(s, size)) == s
    decreases |s|
  {
    if s != [] {
      var right := Min(size, |s|);
      var cs := Chunks(s, size);
      ChunksConcatenate(s[right..], size);
      assert cs[0] == s[..right] && cs[1..] == Chunks(s[right..], size);
      assert s == s[..right] + s[right..];
    }
  }

  lemma {:induction false} ChunksBounded(s: seq<byte>, size: nat, k: int)
    requires size > 0
    requires 0 <= k < |Chunks(s, size)|
    ensures 0 < |Chunks(s, size)[k]| <= size
    decreases |s|
  {
    var right := Min(size, |s|);
    if k > 0 {
      ChunksBounded(s[right..], size, k - 1);
    }
  }

  /** There are `ceil(|s| / size)` chunks. */
  lemma {:induction false} ChunksCount(s: seq<byte>, size: nat)
    requires size > 0
    ensures |Chunks(s, size)| == (|s| + size - 1) / size
    decreases |s|
  {
    if s != [] {
      var right := Min(size, |s|);
      ChunksCount(s[right..], size);
      if |s| <= size {
        assert |s[right..]| == 0;
        assert (|s| + size - 1) / size == 1;
      } else {
        assert |s[right..]| + size - 1 == (|s| + size - 1) - size;
        DivStep(|s| + size - 1, size);
      }
    }
  }

  lemma DivStep(a: int, d: int)
    requires d > 0 && a >= d
    ensures (a - d) / d == a / d - 1
  {
    var q, r := a / d, a % d;
    assert a == q * d + r && 0 <= r < d;
    assert a - d == (q - 1) * d + r;
    DivUnique(a - d, d, q - 1, r);
  }

  lemma DivUnique(a: int, d: int, q: int, r: int)
    requires d > 0 && 0 <= r < d && a == q * d + r
    ensures a / d == q
  {
    var q', r' := a / d, a % d;
    assert a == q' * d + r' && 0 <= r' < d;
    assert (q - q') * d == r' - r;
    if q > q' {
      MulAtLeast(q - q', d);
    } else if q < q' {
      MulAtLeast(q' - q, d);
    }
  }

  lemma {:induction false} MulAtLeast(x: int, d: int)
    requires x >= 1 && d > 0
    ensures x * d >= d
    decreases x
  {
    if x > 1 {
      MulAtLeast(x - 1, d);
      assert x * d == (x - 1) * d + d;
    }
  }

  /** The first chunk of what is left from `left` on, and the chunks after it. */
  lemma ChunksFrom(s: seq<byte>, size: nat, left: int)
    requires size > 0
    requires 0 <= left < |s|
    ensures var right := Min(left + size, |s|);
      Chunks(s[left..], size) == [s[left..right]] + Chunks(s[right..], size)
  {
    var right := Min(left + size, |s|);
    var rest := s[left..];
    assert Min(size, |rest|) == right - left;
    assert rest[..right - left] == s[left..right];
    assert rest[right - left..] == s[right..];
  }

  /** One block write per chunk, all to the same register. */
  function Blocks(register: int, chunks: seq<seq<byte>>): seq<Transfer>
  {
    seq(|chunks|, k requires 0 <= k < |chunks| => Block(register, chunks[k]))
  }

  /** One single-byte write per byte, in buffer order, all to the same register. */
  function Singles(register: int, buffer: seq<byte>): seq<Transfer>
  {
    seq(|buffer|, k requires 0 <= k < |buffer| => Single(register, buffer[k]))
  }

  /** The transfers that push `buffer` through a bridge with a `maxBuffer`-byte buffer. */
  function Transfers(buffer: seq<byte>, maxBuffer: int, register: int): seq<Transfer>
  {
    if maxBuffer > 1 then Blocks(register, Chunks(buffer, maxBuffer - 1))
    else Singles(register, buffer)
  }

  /** The data carried by a log of transfers, in order. */
  function Payload(ts: seq<Transfer>): seq<byte>
  {
    if ts == [] then []
    else (match ts[0] case Block(_, data) => data case Single(_, b) => [b]) + Payload(ts[1..])
  }

  /**
   * Whatever the bridge buffer size: every transfer goes to the write register and the data
   * of the transfers, concatenated, is the buffer. With a buffer of more than one byte there
   * are `ceil(L / (maxBuffer - 1))` block writes of 1 to `maxBuffer - 1` bytes; otherwise
   * there are exactly L single-byte writes.
   */
  lemma TransfersCarryBuffer(buffer: seq<byte>, maxBuffer: int, register: int)
    ensures var ts := Transfers(buffer, maxBuffer, register);
      && Payload(ts) == buffer
      && (forall k :: 0 <= k < |ts| ==> ts[k].register == register)
      && (maxBuffer > 1 ==>
            && |ts| == (|buffer| + maxBuffer - 2) / (maxBuffer - 1)
            && forall k :: 0 <= k < |ts| ==> ts[k].Block? && 0 < |ts[k].data| <= maxBuffer - 1)
      && (maxBuffer <= 1 ==> |ts| == |buffer| && forall k :: 0 <= k < |ts| ==> ts[k] == Single(register, buffer[k]))
  {
    if maxBuffer > 1 {
      var chunks := Chunks(buffer, maxBuffer - 1);
      ChunksCount(buffer, maxBuffer - 1);
      ChunksConcatenate(buffer, maxBuffer - 1);
      forall k | 0 <= k < |chunks| ensures 0 < |chunks[k]| <= maxBuffer - 1 {
        ChunksBounded(buffer, maxBuffer - 1, k);
      }
      PayloadOfBlocks(register, chunks);
    } else {
      PayloadOfSingles(register, buffer);
    }
  }

  lemma {:induction false} PayloadOfBlocks(register: int, chunks: seq<seq<byte>>)
    ensures Payload(Blocks(register, chunks)) == Flatten(chunks)
  {
    if chunks != [] {
      PayloadOfBlocks(register, chunks[1..]);
      assert Blocks(register, chunks)[1..] == Blocks(register, chunks[1..]);
    }
  }

  lemma {:induction false} PayloadOfSingles(register: int, buffer: seq<byte>)
    ensures Payload(Singles(register, buffer)) == buffer
  {
    if buffer != [] {
      PayloadOfSingles(register, buffer[1..]);
      assert Singles(register, buffer)[1..] == Singles(register, buffer[1..]);
      assert buffer == [buffer[0]] + buffer[1..];
    }
  }
}
