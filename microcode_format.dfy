/**
 * The on-disk layout of one Intel microcode update as main.c reads it:
 * the 48-byte update header (mc_hdr_t), the 20-byte extended header
 * (mc_ext_hdr_t), the date packing shown by print_header, and the test
 * parse uses to decide whether an extended header follows the payload.
 */
module MicrocodeFormat {
  import opened LittleEndian

  /** sizeof(mc_hdr_t): nine 4-byte fields and 12 reserved bytes. */
  const HeaderSize: nat := 48
  /** sizeof(mc_ext_hdr_t): two 4-byte fields and 12 reserved bytes. */
  const ExtHeaderSize: nat := 20
  /** The payload length a data_size of 0 stands for. */
  const LegacyDataSize: nat := 2000
  /** One signature, one flags word and one checksum per table entry. */
  const SignatureEntrySize: nat := 12
  /** The bytes of the header that carry fields; the rest is reserved. */
  const HeaderFieldBytes: nat := 36

  /** mc_hdr_t, reserved bytes dropped. */
  datatype Header = Header(
    version: U32,
    revision: I32,
    date: U32,
    signature: U32,
    checksum: U32,
    loaderRevision: U32,
    processorFlags: U32,
    dataSize: U32,
    totalSize: U32)

  /** mc_ext_hdr_t, reserved bytes dropped. */
  datatype ExtHeader = ExtHeader(signatureCount: U32, checksum: U32)

  /** The header that memcpy copies out of s[at..at+48]. */
  function DecodeHeader(s: seq<Byte>, at: nat): Header
    requires at + HeaderSize <= |s|
  {
    Header(
      DecodeU32(s, at),
      AsI32(DecodeU32(s, at + 4)),
      DecodeU32(s, at + 8),
      DecodeU32(s, at + 12),
      DecodeU32(s, at + 16),
      DecodeU32(s, at + 20),
      DecodeU32(s, at + 24),
      DecodeU32(s, at + 28),
      DecodeU32(s, at + 32))
  }

  /** The 36 field bytes of a header, fields in declaration order. */
  function EncodeHeader(h: Header): (s: seq<Byte>)
    ensures |s| == HeaderFieldBytes
  {
    EncodeU32(h.version) + EncodeU32(AsU32(h.revision)) + EncodeU32(h.date)
    + EncodeU32(h.signature) + EncodeU32(h.checksum) + EncodeU32(h.loaderRevision)
    + EncodeU32(h.processorFlags) + EncodeU32(h.dataSize) + EncodeU32(h.totalSize)
  }

  /** The extended header that memcpy copies out of s[at..at+20]. */
  function DecodeExtHeader(s: seq<Byte>, at: nat): ExtHeader
    requires at + ExtHeaderSize <= |s|
  {
    ExtHeader(DecodeU32(s, at), DecodeU32(s, at + 4))
  }

  /** Field k of a header laid out as by EncodeHeader sits at byte 4 * k. */
  lemma EncodedFieldAt(h: Header, rest: seq<Byte>, k: nat, v: U32)
    requires k < 9
    requires v == [h.version, AsU32(h.revision), h.date, h.signature, h.checksum,
                   h.loaderRevision, h.processorFlags, h.dataSize, h.totalSize][k]
    ensures DecodeU32(EncodeHeader(h) + rest, 4 * k) == v
  {
    var s := EncodeHeader(h) + rest;
    assert s[4 * k..4 * k + 4] == EncodeU32(v);
    DecodeLocal(s, 4 * k, EncodeU32(v), 0);
    DecodeEncode(v);
  }

  /**
   * Decoding the field bytes of a header, followed by any 12 reserved
   * bytes, gives the header back: nine little-endian words at offsets
   * 0, 4, ..., 32 in declaration order, the revision signed, the reserved
   * bytes ignored.
   */
  lemma HeaderRoundTrip(h: Header, reserved: seq<Byte>)
    requires |reserved| == HeaderSize - HeaderFieldBytes
    ensures DecodeHeader(EncodeHeader(h) + reserved, 0) == h
  {
    var s := EncodeHeader(h) + reserved;
    EncodedFieldAt(h, reserved, 0, h.version);
    EncodedFieldAt(h, reserved, 1, AsU32(h.revision));
    EncodedFieldAt(h, reserved, 2, h.date);
    EncodedFieldAt(h, reserved, 3, h.signature);
    EncodedFieldAt(h, reserved, 4, h.checksum);
    EncodedFieldAt(h, reserved, 5, h.loaderRevision);
    EncodedFieldAt(h, reserved, 6, h.processorFlags);
    EncodedFieldAt(h, reserved, 7, h.dataSize);
    EncodedFieldAt(h, reserved, 8, h.totalSize);
    SignedRoundTrip(0, h.revision);
  }

  lemma SliceSplit(s: seq<Byte>, a: nat, b: nat, c: nat)
    requires a <= b <= c <= |s|
    ensures s[a..c] == s[a..b] + s[b..c]
  {
  }

  /** The header's field bytes are exactly the first 36 bytes it was decoded from. */
  lemma HeaderFieldBytesRoundTrip(s: seq<Byte>, at: nat)
    requires at + HeaderSize <= |s|
    ensures EncodeHeader(DecodeHeader(s, at)) == s[at..at + HeaderFieldBytes]
  {
    SignedRoundTrip(DecodeU32(s, at + 4), 0);
    EncodeDecode(s, at);
    EncodeDecode(s, at + 4);
    EncodeDecode(s, at + 8);
    EncodeDecode(s, at + 12);
    EncodeDecode(s, at + 16);
    EncodeDecode(s, at + 20);
    EncodeDecode(s, at + 24);
    EncodeDecode(s, at + 28);
    EncodeDecode(s, at + 32);
    SliceSplit(s, at, at + 32, at + 36);
    SliceSplit(s, at, at + 28, at + 32);
    SliceSplit(s, at, at + 24, at + 28);
    SliceSplit(s, at, at + 20, at + 24);
    SliceSplit(s, at, at + 16, at + 20);
    SliceSplit(s, at, at + 12, at + 16);
    SliceSplit(s, at, at + 8, at + 12);
    SliceSplit(s, at, at + 4, at + 8);
  }

  /**
   * The payload length parse uses: data_size itself, or 2000 when it is 0.
   * Never 0, so every update occupies more than its header.
   */
  function EffectiveDataSize(dataSize: U32): (d: U32)
    ensures d > 0
    ensures dataSize != 0 ==> d == dataSize
    ensures dataSize == 0 ==> d == LegacyDataSize
  {
    if dataSize == 0 then LegacyDataSize else dataSize
  }

  /** date >> 24: the first of the three fields print_header shows. */
  function DateMonth(date: U32): nat
  {
    date / 0x100_0000
  }

  /** (date >> 16) & 0xFF. */
  function DateDay(date: U32): nat
  {
    date / 0x1_0000 % 0x100
  }

  /** date & 0xFFFF. */
  function DateYear(date: U32): nat
  {
    date % 0x1_0000
  }

  /**
   * (month << 24) | (day << 16) | year; the three fields occupy disjoint
   * bits, so the bitwise or is a sum.
   */
  function PackDate(month: nat, day: nat, year: nat): U32
    requires month < 0x100 && day < 0x100 && year < 0x1_0000
  {
    month * 0x100_0000 + day * 0x1_0000 + year
  }

  /** The three printed date fields are in range and reassemble the date exactly. */
  lemma DateSplitRoundTrip(date: U32)
    ensures DateMonth(date) < 0x100 && DateDay(date) < 0x100 && DateYear(date) < 0x1_0000
    ensures PackDate(DateMonth(date), DateDay(date), DateYear(date)) == date
  {
    var hi := date / 0x1_0000;
    assert date == hi * 0x1_0000 + DateYear(date);
    assert hi == DateMonth(date) * 0x100 + DateDay(date) by {
      assert date / 0x100_0000 == hi / 0x100;
    }
  }

  /** Splitting a packed date gives back its three fields. */
  lemma DatePackSplit(month: nat, day: nat, year: nat)
    requires month < 0x100 && day < 0x100 && year < 0x1_0000
    ensures DateMonth(PackDate(month, day, year)) == month
    ensures DateDay(PackDate(month, day, year)) == day
    ensures DateYear(PackDate(month, day, year)) == year
  {
    var date := PackDate(month, day, year);
    var hi := month * 0x100 + day;
    assert date == hi * 0x1_0000 + year;
    assert date / 0x1_0000 == hi;
    assert date / 0x100_0000 == hi / 0x100;
  }

  function Pow2(n: nat): (p: nat)
    ensures p >= 1
  {
    if n == 0 then 1 else 2 * Pow2(n - 1)
  }

  /**
   * The width in bits of `uint32_t + size_t` in C: the usual arithmetic
   * conversions pick the wider of the two unsigned types.
   */
  function SumWidth(sizeBits: nat): nat
  {
    if sizeBits > 32 then sizeBits else 32
  }

  /** x as an unsigned integer of the given width holds it: its low `bits` bits. */
  function Truncate(x: nat, bits: nat): nat
  {
    if bits == 0 then 0 else 2 * Truncate(x / 2, bits - 1) + x % 2
  }

  /**
   * parse goes on to read an extended header exactly when its early-return
   * test fails: total_size is nonzero and
   * `total_size - data_size + sizeof(mc_hdr_t)` is not positive. The
   * difference is taken in uint32_t (modulo 2^32) with the effective
   * data_size, the sum in the wider of uint32_t and size_t, and "> 0" on
   * an unsigned value means "!= 0".
   */
  predicate ExtensionFollows(totalSize: U32, dataSize: U32, sizeBits: nat)
  {
    totalSize != 0
    && Truncate((totalSize - dataSize) % U32Modulus + HeaderSize, SumWidth(sizeBits)) == 0
  }

  lemma {:induction false} MulAtLeast(n: int, d: int)
    requires n > 0 && d >= 1
    ensures n * d >= n
    decreases d
  {
    if d > 1 {
      MulAtLeast(n, d - 1);
      assert n * d == n * (d - 1) + n;
    }
  }

  /** The remainder is the one r in [0, n) with x == n * k + r. */
  lemma ModUnique(x: int, n: int, k: int, r: int)
    requires 0 <= r < n && x == n * k + r
    ensures x % n == r
  {
    var q := x / n;
    assert x == n * q + x % n;
    assert n * (k - q) == x % n - r;
    assert n * (q - k) == r - x % n;
    assert k <= q by {
      if k > q {
        MulAtLeast(n, k - q);
        assert false;
      }
    }
    assert k >= q by {
      if k < q {
        MulAtLeast(n, q - k);
        assert false;
      }
    }
  }

  /** Taking x modulo 2p is taking x / 2 modulo p and putting the low bit back. */
  lemma HalveMod(x: nat, p: nat)
    requires p > 0
    ensures x % (2 * p) == 2 * ((x / 2) % p) + x % 2
  {
    var q, b := x / 2, x % 2;
    var k, m := q / p, q % p;
    assert q == p * k + m;
    assert x == (2 * p) * k + (2 * m + b);
    ModUnique(x, 2 * p, k, 2 * m + b);
  }

  /** Keeping the low bits of x is taking it modulo a power of 2. */
  lemma {:induction false} TruncateIsMod(x: nat, bits: nat)
    ensures Truncate(x, bits) == x % Pow2(bits)
  {
    if bits > 0 {
      TruncateIsMod(x / 2, bits - 1);
      HalveMod(x, Pow2(bits - 1));
    }
  }

  lemma Pow2Add(a: nat, b: nat)
    ensures Pow2(a + b) == Pow2(a) * Pow2(b)
  {
    if b > 0 {
      Pow2Add(a, b - 1);
    }
  }

  lemma Pow2Of32()
    ensures Pow2(32) == U32Modulus
  {
    assert Pow2(4) == 16;
    Pow2Add(4, 4);
    Pow2Add(8, 8);
    Pow2Add(16, 16);
  }

  lemma Pow2Monotone(a: nat, b: nat)
    requires a <= b
    ensures Pow2(a) <= Pow2(b)
  {
    if a < b {
      Pow2Monotone(a, b - 1);
    }
  }

  /** With a size_t wider than 32 bits the sum lies in [48, 2^32 + 48) and is never truncated to 0. */
  lemma ExtensionWide(totalSize: U32, dataSize: U32, sizeBits: nat)
    requires sizeBits > 32
    ensures !ExtensionFollows(totalSize, dataSize, sizeBits)
  {
    var sum := (totalSize - dataSize) % U32Modulus + HeaderSize;
    TruncateIsMod(sum, sizeBits);
    Pow2Of32();
    Pow2Monotone(33, sizeBits);
    assert Pow2(33) == 2 * Pow2(32);
    ModUnique(sum, Pow2(sizeBits), 0, sum);
  }

  /** Keeping 32 bits is taking the value modulo 2^32. */
  lemma TruncateTo32(x: nat)
    ensures Truncate(x, 32) == x % U32Modulus
  {
    TruncateIsMod(x, 32);
    Pow2Of32();
  }

  /** Reduction modulo 2^32 of a value in (-2^32, 2^33) is one correction at most. */
  lemma ModU32(x: int)
    requires 0 < x + U32Modulus && x < 2 * U32Modulus
    ensures x % U32Modulus == if x < 0 then x + U32Modulus else if x < U32Modulus then x else x - U32Modulus
  {
    if x < 0 {
      ModUnique(x, U32Modulus, -1, x + U32Modulus);
    } else if x < U32Modulus {
      ModUnique(x, U32Modulus, 0, x);
    } else {
      ModUnique(x, U32Modulus, 1, x - U32Modulus);
    }
  }

  /** (total_size - data_size) mod 2^32 + 48 is a multiple of 2^32 exactly when data_size is total_size + 48 mod 2^32. */
  lemma SumWraps(totalSize: U32, dataSize: U32)
    ensures ((totalSize - dataSize) % U32Modulus + HeaderSize) % U32Modulus == 0
      <==> dataSize == (totalSize + HeaderSize) % U32Modulus
  {
    ModU32(totalSize - dataSize);
    ModU32(totalSize + HeaderSize);
    ModU32((totalSize - dataSize) % U32Modulus + HeaderSize);
  }

  /** With a 32-bit size_t the sum wraps to 0 exactly when it is 2^32. */
  lemma ExtensionNarrow(totalSize: U32, dataSize: U32, sizeBits: nat)
    requires sizeBits <= 32
    ensures ExtensionFollows(totalSize, dataSize, sizeBits)
      <==> totalSize != 0 && dataSize == (totalSize + HeaderSize) % U32Modulus
  {
    assert SumWidth(sizeBits) == 32;
    TruncateTo32((totalSize - dataSize) % U32Modulus + HeaderSize);
    SumWraps(totalSize, dataSize);
  }

  /**
   * What the extension test amounts to. With a size_t wider than 32 bits
   * (LP64) the sum is at least 48 and never wraps, so no extended header
   * is ever read. With a 32-bit size_t the sum wraps to 0 exactly when the
   * effective data_size equals total_size + 48 modulo 2^32.
   */
  lemma ExtensionTest(totalSize: U32, dataSize: U32, sizeBits: nat)
    ensures sizeBits > 32 ==> !ExtensionFollows(totalSize, dataSize, sizeBits)
    ensures sizeBits <= 32 ==>
      (ExtensionFollows(totalSize, dataSize, sizeBits)
       <==> totalSize != 0 && dataSize == (totalSize + HeaderSize) % U32Modulus)
  {
    if sizeBits > 32 {
      ExtensionWide(totalSize, dataSize, sizeBits);
    } else {
      ExtensionNarrow(totalSize, dataSize, sizeBits);
    }
  }

  /**
   * One column of the extended signature table: count int32_t words
   * starting at s[at], read one after another (none at all when count is 0).
   */
  function Column(s: seq<Byte>, at: nat, count: nat): seq<I32>
    requires count > 0 ==> at + 4 * count <= |s|
  {
    if count == 0 then []
    else Column(s, at, count - 1) + [AsI32(DecodeU32(s, at + 4 * (count - 1)))]
  }

  /** Entry i of a column is the signed word at at + 4 * i; the column has count entries. */
  lemma {:induction false} ColumnAt(s: seq<Byte>, at: nat, count: nat)
    requires count > 0 ==> at + 4 * count <= |s|
    ensures |Column(s, at, count)| == count
    ensures forall i :: 0 <= i < count ==> Column(s, at, count)[i] == AsI32(DecodeU32(s, at + 4 * i))
  {
    if count > 0 {
      ColumnAt(s, at, count - 1);
    }
  }
}
