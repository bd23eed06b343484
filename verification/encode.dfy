/** `write_f32_vec`: the raw binary layout of the dataset files. Each f32
    is written as the 4 little-endian bytes of its bit pattern, one value
    after another, with no header or separator. The bit pattern of an f32
    (`f32::to_bits`) is a parameter `bits`. */
module Encode {

  type Byte = b: int | 0 <= b < 256
  type Word = w: int | 0 <= w < 0x1_0000_0000

  /** `u32::to_le_bytes`: least significant byte first. */
  function LeBytes(w: Word): (r: seq<Byte>)
    ensures |r| == 4
  {
    [w % 256, w / 256 % 256, w / 256 / 256 % 256, w / 256 / 256 / 256]
  }

  /** `u32::from_le_bytes`. */
  function FromLeBytes(b: seq<Byte>): Word
    requires |b| == 4
  {
    b[0] as int + 256 * (b[1] as int + 256 * (b[2] as int + 256 * b[3] as int))
  }

  /** A low byte and the rest: division and remainder by 256 take them
      apart again. */
  lemma SplitByte(lo: int, hi: int)
    requires 0 <= lo < 256 && hi >= 0
    ensures (lo + 256 * hi) % 256 == lo && (lo + 256 * hi) / 256 == hi
  {
  }

  /** The four bytes of a word give the word back ... */
  lemma LeBytesRoundTrip(w: Word)
    ensures FromLeBytes(LeBytes(w)) == w
  {
  }

  /** ... and every four bytes are the bytes of exactly one word. */
  lemma FromLeBytesRoundTrip(b: seq<Byte>)
    requires |b| == 4
    ensures LeBytes(FromLeBytes(b)) == b
  {
    var h2 := b[2] as int + 256 * b[3] as int;
    var h1 := b[1] as int + 256 * h2;
    SplitByte(b[2], b[3]);
    SplitByte(b[1], h2);
    SplitByte(b[0], h1);
  }

  /** The bytes `write_f32_vec` emits for `v`. */
  function Encoded(v: seq<real>, bits: real -> Word): (r: seq<Byte>)
    ensures |r| == 4 * |v|
  {
    if |v| == 0 then [] else Encoded(v[..|v| - 1], bits) + LeBytes(bits(v[|v| - 1]))
  }

  /** Reading a file back: every 4 bytes one word. */
  function Decoded(b: seq<Byte>): (r: seq<Word>)
    requires |b| % 4 == 0
    ensures |r| == |b| / 4
    decreases |b|
  {
    if |b| == 0 then [] else Decoded(b[..|b| - 4]) + [FromLeBytes(b[|b| - 4..])]
  }

  /** Element i occupies bytes 4i .. 4i+3, as its little-endian bytes. */
  lemma {:induction false} EncodedAt(v: seq<real>, bits: real -> Word, i: int)
    requires 0 <= i < |v|
    ensures Encoded(v, bits)[4 * i .. 4 * i + 4] == LeBytes(bits(v[i]))
    decreases |v|
  {
    var init := v[..|v| - 1];
    var e0 := Encoded(init, bits);
    var last := LeBytes(bits(v[|v| - 1]));
    assert Encoded(v, bits) == e0 + last;
    if i < |v| - 1 {
      EncodedAt(init, bits, i);
      assert init[i] == v[i];
      assert (e0 + last)[4 * i .. 4 * i + 4] == e0[4 * i .. 4 * i + 4];
    } else {
      assert (e0 + last)[4 * i .. 4 * i + 4] == last;
    }
  }

  /** Decoding the file gives back the bit pattern of every value, in
      order. */
  lemma {:induction false} EncodedRoundTrip(v: seq<real>, bits: real -> Word)
    ensures Decoded(Encoded(v, bits)) == seq(|v|, i requires 0 <= i < |v| => bits(v[i]))
    decreases |v|
  {
    if |v| > 0 {
      var init := v[..|v| - 1];
      var last := LeBytes(bits(v[|v| - 1]));
      var e := Encoded(v, bits);
      assert e == Encoded(init, bits) + last;
      assert e[..|e| - 4] == Encoded(init, bits);
      assert e[|e| - 4..] == last;
      EncodedRoundTrip(init, bits);
      LeBytesRoundTrip(bits(v[|v| - 1]));
      var want := seq(|v|, i requires 0 <= i < |v| => bits(v[i]));
      assert want == seq(|init|, i requires 0 <= i < |init| => bits(init[i])) + [bits(v[|v| - 1])];
    }
  }

  /** Encoding a concatenation is concatenating the encodings, so values
      written one call after another form one stream. */
  lemma {:induction false} EncodedAppend(u: seq<real>, v: seq<real>, bits: real -> Word)
    ensures Encoded(u + v, bits) == Encoded(u, bits) + Encoded(v, bits)
    decreases |v|
  {
    if |v| > 0 {
      var init := v[..|v| - 1];
      assert (u + v)[..|u + v| - 1] == u + init;
      EncodedAppend(u, init, bits);
    } else {
      assert u + v == u;
    }
  }

  /** A byte stream a writer appends to. */
  class ByteSink {
    var bytes: seq<Byte>

    constructor ()
      ensures bytes == []
    {
      bytes := [];
    }

    /** `write_all`. */
    method WriteAll(b: seq<Byte>)
      modifies this
      ensures bytes == old(bytes) + b
    {
      bytes := bytes + b;
    }
  }

  /** `write_f32_vec`: each element's four little-endian bytes, in order. */
  method WriteF32Vec(w: ByteSink, v: seq<real>, bits: real -> Word)
    modifies w
    ensures w.bytes == old(w.bytes) + Encoded(v, bits)
  {
    for i := 0 to |v|
      invariant w.bytes == old(w.bytes) + Encoded(v[..i], bits)
    {
      assert v[..i + 1][..i] == v[..i];
      w.WriteAll(LeBytes(bits(v[i])));
    }
    assert v[..|v|] == v;
  }
}
