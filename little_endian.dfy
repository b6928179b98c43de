/**
 * Bytes and 32-bit words as the x86 host lays them out: least significant
 * byte first, signed words in two's complement.
 */
module LittleEndian {

  type Byte = b: int | 0 <= b < 0x100
  type U32 = n: int | 0 <= n < 0x1_0000_0000
  type I32 = n: int | -0x8000_0000 <= n < 0x8000_0000

  const U32Modulus: nat := 0x1_0000_0000

  /** The unsigned 32-bit value stored in s[at..at+4], least significant byte first. */
  function DecodeU32(s: seq<Byte>, at: nat): U32
    requires at + 4 <= |s|
  {
    s[at] as int + 0x100 * s[at + 1] as int + 0x1_0000 * s[at + 2] as int + 0x100_0000 * s[at + 3] as int
  }

  /** Splitting 0x100 * q + r by 0x100 gives back q and r. */
  lemma DivModByte(q: int, r: int)
    requires 0 <= r < 0x100
    ensures (0x100 * q + r) / 0x100 == q && (0x100 * q + r) % 0x100 == r
  {
  }

  /** The four bytes of v, least significant first. */
  function EncodeU32(v: U32): (s: seq<Byte>)
    ensures |s| == 4
  {
    var q1 := v / 0x100;
    var q2 := q1 / 0x100;
    [v % 0x100, q1 % 0x100, q2 % 0x100, q2 / 0x100]
  }

  /** Reading back what EncodeU32 wrote gives the value. */
  lemma DecodeEncode(v: U32)
    ensures DecodeU32(EncodeU32(v), 0) == v
  {
    var q1 := v / 0x100;
    var q2 := q1 / 0x100;
    var q3 := q2 / 0x100;
    assert v == 0x100 * q1 + v % 0x100;
    assert q1 == 0x100 * q2 + q1 % 0x100;
    assert q2 == 0x100 * q3 + q2 % 0x100;
    var s := EncodeU32(v);
    assert s[0] == v % 0x100 && s[1] == q1 % 0x100 && s[2] == q2 % 0x100 && s[3] == q3;
  }

  /** Every four bytes are the encoding of the value they decode to. */
  lemma EncodeDecode(s: seq<Byte>, at: nat)
    requires at + 4 <= |s|
    ensures EncodeU32(DecodeU32(s, at)) == s[at..at + 4]
  {
    var b0, b1, b2, b3 := s[at] as int, s[at + 1] as int, s[at + 2] as int, s[at + 3] as int;
    var v := DecodeU32(s, at);
    assert v == 0x100 * (0x100 * (0x100 * b3 + b2) + b1) + b0;
    DivModByte(0x100 * (0x100 * b3 + b2) + b1, b0);
    DivModByte(0x100 * b3 + b2, b1);
    DivModByte(b3, b2);
  }

  /** A word decodes the same inside any sequence that holds its four bytes at that place. */
  lemma DecodeLocal(s: seq<Byte>, at: nat, t: seq<Byte>, at': nat)
    requires at + 4 <= |s| && at' + 4 <= |t|
    requires s[at..at + 4] == t[at'..at' + 4]
    ensures DecodeU32(s, at) == DecodeU32(t, at')
  {
    assert s[at] == s[at..at + 4][0] && t[at'] == t[at'..at' + 4][0];
    assert s[at + 1] == s[at..at + 4][1] && t[at' + 1] == t[at'..at' + 4][1];
    assert s[at + 2] == s[at..at + 4][2] && t[at' + 2] == t[at'..at' + 4][2];
    assert s[at + 3] == s[at..at + 4][3] && t[at' + 3] == t[at'..at' + 4][3];
  }

  /** Word k of w + rest is the first word of w for k = 0, and word k - 1 of rest after it. */
  lemma DecodeAppended(w: seq<Byte>, rest: seq<Byte>, k: nat)
    requires |w| == 4 && 4 * k + 4 <= |w| + |rest|
    ensures k == 0 ==> DecodeU32(w + rest, 0) == DecodeU32(w, 0)
    ensures k > 0 ==> DecodeU32(w + rest, 4 * k) == DecodeU32(rest, 4 * (k - 1))
  {
    if k == 0 {
      DecodeLocal(w + rest, 0, w, 0);
    } else {
      DecodeLocal(w + rest, 4 * k, rest, 4 * (k - 1));
    }
  }

  /**
   * The int32_t that has the same bit pattern as v: the one value in the
   * signed range that is congruent to v modulo 2^32.
   */
  function AsI32(v: U32): (r: I32)
    ensures r % U32Modulus == v
    ensures r < 0 <==> v >= 0x8000_0000
  {
    if v < 0x8000_0000 then v else v - U32Modulus
  }

  /** The uint32_t that has the same bit pattern as r. */
  function AsU32(r: I32): (v: U32)
    ensures v % U32Modulus == r % U32Modulus
  {
    if r >= 0 then r else r + U32Modulus
  }

  /** The two reinterpretations undo each other. */
  lemma SignedRoundTrip(v: U32, r: I32)
    ensures AsU32(AsI32(v)) == v
    ensures AsI32(AsU32(r)) == r
  {
  }
}
