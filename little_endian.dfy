/** Fixed-width unsigned integers and their four-byte little-endian form.
    The grid file stores every `u32` by reinterpreting its memory, so its byte
    order is the host's. The model assumes a little-endian host and spells that
    layout out byte by byte. */
module LittleEndian {

  /** An 8-bit unsigned value (Rust `u8`). */
  type byte = b: int | 0 <= b < 0x100

  /** A 32-bit unsigned value (Rust `u32`). */
  type u32 = v: int | 0 <= v < 0x1_0000_0000

  /** The four bytes of `v`, least significant first. */
  function EncodeU32(v: u32): (r: seq<byte>)
    ensures |r| == 4
  {
    var q1 := v / 0x100;
    var q2 := q1 / 0x100;
    [v % 0x100, q1 % 0x100, q2 % 0x100, q2 / 0x100]
  }

  /** The `u32` whose little-endian bytes are `b`. */
  function DecodeU32(b: seq<byte>): (v: u32)
    requires |b| == 4
  {
    b[0] as int + 0x100 * (b[1] as int + 0x100 * (b[2] as int + 0x100 * b[3] as int))
  }

  /** Splitting a number into its low byte and the rest is undone by recombining them. */
  lemma LowByteSplit(v: int, lo: int, hi: int)
    requires 0 <= lo < 0x100 && v == lo + 0x100 * hi
    ensures v % 0x100 == lo && v / 0x100 == hi
  {
  }

  /** Decoding the encoding of a value gives the value back. */
  lemma DecodeEncode(v: u32)
    ensures DecodeU32(EncodeU32(v)) == v
  {
    var q1 := v / 0x100;
    var q2 := q1 / 0x100;
    assert v == v % 0x100 + 0x100 * q1;
    assert q1 == q1 % 0x100 + 0x100 * q2;
    assert q2 == q2 % 0x100 + 0x100 * (q2 / 0x100);
  }

  /** Encoding the decoded value of four bytes gives the same four bytes back. */
  lemma EncodeDecode(b: seq<byte>)
    requires |b| == 4
    ensures EncodeU32(DecodeU32(b)) == b
  {
    var v := DecodeU32(b);
    var q2: int := b[2] as int + 0x100 * b[3] as int;
    var q1: int := b[1] as int + 0x100 * q2;
    LowByteSplit(v, b[0], q1);
    LowByteSplit(q1, b[1], q2);
    LowByteSplit(q2, b[2], b[3]);
  }

  /** Two values share an encoding only if they are equal. */
  lemma EncodeInjective(v: u32, w: u32)
    requires EncodeU32(v) == EncodeU32(w)
    ensures v == w
  {
    DecodeEncode(v);
    DecodeEncode(w);
  }
}
