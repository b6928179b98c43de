/**
 * What parse and main's loop guarantee about the updates they decode:
 * how many bytes one update occupies, where the cursor ends, how the
 * updates are numbered and laid end to end, and what the extension test
 * as written does to all of this.
 */
module WalkProperties {
  import opened Wrappers
  import opened LittleEndian
  import opened MicrocodeFormat
  import opened UpdateWalker

  /** The effective data_size of the header at offset at. */
  function DataSizeAt(img: seq<Byte>, at: nat): U32
    requires at + HeaderSize <= |img|
  {
    EffectiveDataSize(DecodeHeader(img, at).dataSize)
  }

  /**
   * A decoded update is the header at its start with data_size replaced by
   * the effective one; without an extension it occupies 48 + D bytes, with
   * one 48 + D + 20 + 12 * count bytes, where D is the effective data_size
   * and count the extended header's signature count.
   */
  lemma ParseConsumes(img: seq<Byte>, at: nat, number: nat, dump: bool, sizeBits: nat)
    requires ParseAt(img, at, number, dump, sizeBits).Success?
    ensures at + HeaderSize <= |img|
    ensures var u := ParseAt(img, at, number, dump, sizeBits).value;
      var raw := DecodeHeader(img, at);
      var d := DataSizeAt(img, at);
      && u.start == at && u.number == number
      && u.header == raw.(dataSize := d)
      && (u.extension.None? <==> !ExtensionFollows(raw.totalSize, d, sizeBits))
      && (u.extension.None? ==> u.next == at + HeaderSize + d)
      && (u.extension.Some? ==>
            ReadExtension(img, at + HeaderSize + d) == Success(u.extension.value)
            && u.next == at + HeaderSize + d + ExtHeaderSize
                         + SignatureEntrySize * u.extension.value.header.signatureCount)
  {
  }

  /**
   * The data_size sentinel: a data_size of 0 is read, skipped, dumped and
   * fed to the extension test as 2000; any other data_size is used unchanged.
   */
  lemma DataSizeSentinel(img: seq<Byte>, at: nat, number: nat, dump: bool, sizeBits: nat)
    requires ParseAt(img, at, number, dump, sizeBits).Success?
    ensures at + HeaderSize <= |img|
    ensures var u := ParseAt(img, at, number, dump, sizeBits).value;
      var raw := DecodeHeader(img, at).dataSize;
      && (raw == 0 ==> u.header.dataSize == LegacyDataSize)
      && (raw != 0 ==> u.header.dataSize == raw)
      && (u.extension.None? ==> u.next == at + HeaderSize + u.header.dataSize)
      && (dump ==> u.payload.Some? && |u.payload.value| == u.header.dataSize)
      && (u.extension.None? <==>
            !ExtensionFollows(u.header.totalSize, u.header.dataSize, sizeBits))
  {
  }

  /**
   * Dumping and skipping the payload leave the cursor at the same place:
   * when the dump succeeds, skipping yields the same update without the
   * payload, and the dumped payload is the D bytes after the header, in
   * order.
   */
  lemma DumpAndSkipAgree(img: seq<Byte>, at: nat, number: nat, sizeBits: nat)
    requires ParseAt(img, at, number, true, sizeBits).Success?
    ensures at + HeaderSize + DataSizeAt(img, at) <= |img|
    ensures var u := ParseAt(img, at, number, true, sizeBits).value;
      && ParseAt(img, at, number, false, sizeBits) == Success(u.(payload := None))
      && u.payload == Some(img[at + HeaderSize..at + HeaderSize + DataSizeAt(img, at)])
  {
  }

  /** A total_size of 0 ends the update right after the payload. */
  lemma ZeroTotalSize(img: seq<Byte>, at: nat, number: nat, dump: bool, sizeBits: nat)
    requires at + HeaderSize <= |img| && DecodeHeader(img, at).totalSize == 0
    ensures var r := ParseAt(img, at, number, dump, sizeBits);
      && (r.Success? ==> r.value.extension.None? && r.value.next == at + HeaderSize + DataSizeAt(img, at))
      && (r.Failure? ==> r.error == Fault(TruncatedPayload, at + HeaderSize))
  {
  }

  /**
   * Where parse can fail: the header, the dumped payload, the extended
   * header or a nonempty signature table does not fit in the image.
   */
  lemma ParseFaults(img: seq<Byte>, at: nat, number: nat, dump: bool, sizeBits: nat)
    ensures at + HeaderSize > |img| ==>
      ParseAt(img, at, number, dump, sizeBits) == Failure(Fault(TruncatedHeader, at))
    ensures at + HeaderSize <= |img| ==>
      var d := DataSizeAt(img, at);
      var tail := at + HeaderSize + d;
      var count := if tail + ExtHeaderSize <= |img| then DecodeExtHeader(img, tail).signatureCount else 0;
      var r := ParseAt(img, at, number, dump, sizeBits);
      && (r.Failure? <==>
            || (dump && tail > |img|)
            || (ExtensionFollows(DecodeHeader(img, at).totalSize, d, sizeBits)
                && (tail + ExtHeaderSize > |img|
                    || tail + ExtHeaderSize + SignatureEntrySize * count > |img|)))
      && (r.Failure? ==> r.error.kind != TruncatedHeader)
  {
  }

  /**
   * The signature table is read grouped by field: the signature of entry i
   * is the word at table + 4i, its flags at table + 4 * count + 4i and its
   * checksum at table + 8 * count + 4i, table being the offset just after
   * the extended header. Each column holds count entries.
   */
  lemma SignatureTableLayout(img: seq<Byte>, tail: nat)
    requires ReadExtension(img, tail).Success?
    ensures tail + ExtHeaderSize <= |img|
    ensures var e := ReadExtension(img, tail).value;
      var count := e.header.signatureCount;
      var table := tail + ExtHeaderSize;
      && e.header == DecodeExtHeader(img, tail)
      && table + SignatureEntrySize * count <= |img|
      && |e.signatures| == count && |e.flags| == count && |e.checksums| == count
      && (forall i :: 0 <= i < count ==>
            && e.signatures[i] == AsI32(DecodeU32(img, table + 4 * i))
            && e.flags[i] == AsI32(DecodeU32(img, table + 4 * count + 4 * i))
            && e.checksums[i] == AsI32(DecodeU32(img, table + 8 * count + 4 * i)))
  {
    var e := ReadExtension(img, tail).value;
    var count := e.header.signatureCount;
    var table := tail + ExtHeaderSize;
    assert e.header == DecodeExtHeader(img, tail);
    assert e.signatures == Column(img, table, count);
    assert e.flags == Column(img, table + 4 * count, count);
    assert e.checksums == Column(img, table + 8 * count, count);
    ColumnAt(img, table, count);
    ColumnAt(img, table + 4 * count, count);
    ColumnAt(img, table + 8 * count, count);
  }

  /**
   * With a size_t wider than 32 bits the extended path is dead: every
   * update occupies 48 + D bytes, and only the header or the dumped
   * payload can be truncated.
   */
  lemma ParseOnWideSizeT(img: seq<Byte>, at: nat, number: nat, dump: bool, sizeBits: nat)
    requires sizeBits > 32
    ensures var r := ParseAt(img, at, number, dump, sizeBits);
      && (r.Success? ==>
            r.value.extension.None? && r.value.next == r.value.start + HeaderSize + r.value.header.dataSize)
      && (r.Failure? ==> r.error.kind == TruncatedHeader || (dump && r.error.kind == TruncatedPayload))
  {
    if at + HeaderSize <= |img| {
      var h := DecodeHeader(img, at);
      ExtensionTest(h.totalSize, EffectiveDataSize(h.dataSize), sizeBits);
    }
  }

  /** A walk that decodes an update goes on from where that update ended. */
  lemma WalkUnfold(img: seq<Byte>, at: nat, number: nat, dump: bool, sizeBits: nat)
    requires at < |img| && ParseAt(img, at, number, dump, sizeBits).Success?
    ensures var u := ParseAt(img, at, number, dump, sizeBits).value;
      var rest := WalkFrom(img, u.next, number + 1, dump, sizeBits);
      WalkFrom(img, at, number, dump, sizeBits) == Walked([u] + rest.updates, rest.outcome)
  {
  }

  ghost predicate NumberedFrom(us: seq<Update>, number: nat)
  {
    forall i :: 0 <= i < |us| ==> us[i].number == number + i
  }

  /** Updates are numbered number, number + 1, ... in the order they are decoded. */
  lemma {:induction false} WalkNumbering(img: seq<Byte>, at: nat, number: nat, dump: bool, sizeBits: nat)
    ensures NumberedFrom(WalkFrom(img, at, number, dump, sizeBits).updates, number)
    decreases |img| - at
  {
    if at < |img| && ParseAt(img, at, number, dump, sizeBits).Success? {
      var u := ParseAt(img, at, number, dump, sizeBits).value;
      ParseConsumes(img, at, number, dump, sizeBits);
      WalkUnfold(img, at, number, dump, sizeBits);
      WalkNumbering(img, u.next, number + 1, dump, sizeBits);
      var rest := WalkFrom(img, u.next, number + 1, dump, sizeBits).updates;
      var all := [u] + rest;
      forall i | 1 <= i < |all| ensures all[i].number == number + i {
        assert all[i] == rest[i - 1];
      }
    }
  }

  /**
   * Updates lie end to end from at: the first starts at at, each next one
   * where the previous one ended, each starts inside the image and spans
   * at least a header.
   */
  ghost predicate EndToEnd(img: seq<Byte>, us: seq<Update>, at: nat)
  {
    && (|us| > 0 ==> us[0].start == at)
    && (forall i :: 0 <= i < |us| ==> us[i].start < |img| && us[i].next >= us[i].start + HeaderSize)
    && (forall i :: 0 <= i < |us| - 1 ==> us[i + 1].start == us[i].next)
  }

  /** Where a walk from at that decoded us leaves the cursor when it is exhausted. */
  function EndOf(us: seq<Update>, at: nat): nat
  {
    if |us| == 0 then at else us[|us| - 1].next
  }

  /**
   * The updates of a walk lie end to end with no gap and no overlap. A
   * walk that is exhausted ends where the last update ended (at when there
   * was none), at or past the end of the image.
   */
  lemma {:induction false} WalkContiguous(img: seq<Byte>, at: nat, number: nat, dump: bool, sizeBits: nat)
    ensures EndToEnd(img, WalkFrom(img, at, number, dump, sizeBits).updates, at)
    ensures var w := WalkFrom(img, at, number, dump, sizeBits);
      w.outcome.Exhausted? ==> w.outcome.cursor >= |img| && w.outcome.cursor == EndOf(w.updates, at)
    decreases |img| - at
  {
    if at < |img| && ParseAt(img, at, number, dump, sizeBits).Success? {
      var u := ParseAt(img, at, number, dump, sizeBits).value;
      ParseConsumes(img, at, number, dump, sizeBits);
      WalkUnfold(img, at, number, dump, sizeBits);
      WalkContiguous(img, u.next, number + 1, dump, sizeBits);
      var rest := WalkFrom(img, u.next, number + 1, dump, sizeBits).updates;
      var all := [u] + rest;
      forall i | 1 <= i < |all| ensures all[i] == rest[i - 1] {
      }
      assert EndToEnd(img, all, at);
      assert |rest| > 0 ==> EndOf(all, at) == EndOf(rest, u.next);
    }
  }

  /**
   * The walk terminates after at most one update per 48 bytes: the last of
   * n updates starts at least 48 * (n - 1) bytes after at, and before the
   * end of the image.
   */
  lemma {:induction false} WalkLength(img: seq<Byte>, at: nat, number: nat, dump: bool, sizeBits: nat)
    ensures var n := |WalkFrom(img, at, number, dump, sizeBits).updates|;
      n > 0 ==> at + HeaderSize * (n - 1) < |img|
    decreases |img| - at
  {
    if at < |img| && ParseAt(img, at, number, dump, sizeBits).Success? {
      var u := ParseAt(img, at, number, dump, sizeBits).value;
      WalkUnfold(img, at, number, dump, sizeBits);
      WalkLength(img, u.next, number + 1, dump, sizeBits);
    }
  }

  /**
   * On an LP64 target every update of the walk occupies exactly 48 + D
   * bytes and has no extension; skipping the payloads, the only fault is
   * a truncated header.
   */
  lemma {:induction false} WalkOnWideSizeT(img: seq<Byte>, at: nat, number: nat, dump: bool, sizeBits: nat)
    requires sizeBits > 32
    ensures var w := WalkFrom(img, at, number, dump, sizeBits);
      && (forall i :: 0 <= i < |w.updates| ==>
            && w.updates[i].extension.None?
            && w.updates[i].next == w.updates[i].start + HeaderSize + w.updates[i].header.dataSize)
      && (!dump && w.outcome.Failed? ==> w.outcome.fault.kind == TruncatedHeader)
    decreases |img| - at
  {
    ParseOnWideSizeT(img, at, number, dump, sizeBits);
    if at < |img| {
      var r := ParseAt(img, at, number, dump, sizeBits);
      if r.Success? {
        WalkUnfold(img, at, number, dump, sizeBits);
        WalkOnWideSizeT(img, r.value.next, number + 1, dump, sizeBits);
        var rest := WalkFrom(img, r.value.next, number + 1, dump, sizeBits);
        var all := WalkFrom(img, at, number, dump, sizeBits);
        assert all.updates == [r.value] + rest.updates && all.outcome == rest.outcome;
        forall i | 1 <= i < |all.updates|
          ensures all.updates[i] == rest.updates[i - 1]
        {
        }
      }
    }
  }

  /** The updates of a walk with their payloads dropped. */
  function WithoutPayloads(us: seq<Update>): seq<Update>
  {
    seq(|us|, i requires 0 <= i < |us| => us[i].(payload := None))
  }

  /**
   * A walk that dumps every payload without a fault decodes the same
   * updates, ending at the same place, as the walk that skips them.
   */
  lemma {:induction false} WalkDumpAndSkipAgree(img: seq<Byte>, at: nat, number: nat, sizeBits: nat)
    requires WalkFrom(img, at, number, true, sizeBits).outcome.Exhausted?
    ensures var dumped := WalkFrom(img, at, number, true, sizeBits);
      WalkFrom(img, at, number, false, sizeBits) == Walked(WithoutPayloads(dumped.updates), dumped.outcome)
    decreases |img| - at
  {
    if at < |img| {
      var r := ParseAt(img, at, number, true, sizeBits);
      DumpAndSkipAgree(img, at, number, sizeBits);
      var u := r.value;
      WalkDumpAndSkipAgree(img, u.next, number + 1, sizeBits);
      var rest := WalkFrom(img, u.next, number + 1, true, sizeBits);
      assert WithoutPayloads([u] + rest.updates) == [u.(payload := None)] + WithoutPayloads(rest.updates);
    }
  }

  /** An image shorter than one header yields no update and a truncated header at offset 0. */
  lemma ShortImage(img: seq<Byte>, dump: bool, sizeBits: nat)
    requires 0 < |img| < HeaderSize
    ensures Walk(img, dump, sizeBits) == Walked([], Failed(Fault(TruncatedHeader, 0)))
  {
    assert Walk(img, dump, sizeBits) == WalkOn(img, 0, 1, dump, sizeBits);
  }

  /**
   * A 64-byte image whose header has data_size 0x10 and total_size 0x40
   * holds exactly one update without extension, whatever the width of
   * size_t; the walk ends with the cursor at 64.
   */
  lemma SingleUpdateImage(img: seq<Byte>, dump: bool, sizeBits: nat)
    requires |img| == 64
    requires DecodeU32(img, 28) == 0x10 && DecodeU32(img, 32) == 0x40
    ensures var w := Walk(img, dump, sizeBits);
      && |w.updates| == 1
      && w.updates[0] == Update(1, 0, DecodeHeader(img, 0),
                                if dump then Some(img[48..64]) else None, None, 64)
      && w.outcome == Exhausted(64)
  {
    ExtensionTest(0x40, 0x10, sizeBits);
    assert Walk(img, dump, sizeBits) == WalkOn(img, 0, 1, dump, sizeBits);
    assert WalkFrom(img, 64, 2, dump, sizeBits) == Walked([], Exhausted(64));
  }

  /**
   * A 108-byte image laid out as the Intel manual describes an update with
   * an extended signature table (data_size 0x10, total_size 0x200, then a
   * 20-byte extended header and 24 bytes of table) is not read that way:
   * the extension test lets parse stop after the payload, whatever the
   * width of size_t, and the next header, at offset 64, is truncated.
   */
  lemma ExtendedImageAsWritten(img: seq<Byte>, dump: bool, sizeBits: nat)
    requires |img| == 108
    requires DecodeU32(img, 28) == 0x10 && DecodeU32(img, 32) == 0x200
    ensures var w := Walk(img, dump, sizeBits);
      && |w.updates| == 1
      && w.updates[0].extension.None? && w.updates[0].next == 64
      && w.outcome == Failed(Fault(TruncatedHeader, 64))
  {
    ExtensionTest(0x200, 0x10, sizeBits);
    assert Walk(img, dump, sizeBits) == WalkOn(img, 0, 1, dump, sizeBits);
    assert WalkFrom(img, 64, 2, dump, sizeBits) == WalkOn(img, 64, 2, dump, sizeBits);
    assert WalkFrom(img, 64, 2, dump, sizeBits) == Walked([], Failed(Fault(TruncatedHeader, 64)));
  }
}
