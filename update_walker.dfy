/**
 * The walk main.c performs over a microcode image: parse decodes one
 * update at the cursor and moves the cursor to the next, and main calls
 * it while the cursor is before the end of the image. The pure functions
 * ParseAt and WalkFrom say what one step and the whole walk produce; the
 * class Walker and the method Walk do it step by step and are proved to
 * agree with them.
 *
 * main.c never checks bounds. Here every byte that parse reads is checked
 * to lie in the image, and a read that would not is a Fault naming the
 * structure and the offset it starts at. Skipping the payload reads
 * nothing, so it is not checked: the cursor may end up past the image.
 */
module UpdateWalker {
  import opened Wrappers
  import opened LittleEndian
  import opened MicrocodeFormat

  /** The extended header and the three columns of the signature table. */
  datatype Extension = Extension(
    header: ExtHeader,
    signatures: seq<I32>,
    flags: seq<I32>,
    checksums: seq<I32>)

  /**
   * One decoded update: its number (header_count after the increment), the
   * offset it starts at, its header as print_header sees it (data_size
   * already replaced by the effective one), the payload bytes when they
   * are dumped, the extension when one was read, and the offset parse
   * leaves the cursor at.
   */
  datatype Update = Update(
    number: nat,
    start: nat,
    header: Header,
    payload: Option<seq<Byte>>,
    extension: Option<Extension>,
    next: nat)

  datatype FaultKind =
    | TruncatedHeader
    | TruncatedPayload
    | TruncatedExtendedHeader
    | TruncatedSignatureTable

  /** A read that would run past the image: what was being read, and where it starts. */
  datatype Fault = Fault(kind: FaultKind, offset: nat)

  /** How a walk ends: the cursor at or past the end of the image, or a fault. */
  datatype Outcome = Exhausted(cursor: nat) | Failed(fault: Fault)

  datatype Walked = Walked(updates: seq<Update>, outcome: Outcome)

  /**
   * What parse does at offset at of img, given the number the update gets,
   * whether the payload is dumped (FLAG_SHOW_DATA) and the width of size_t.
   */
  function ParseAt(img: seq<Byte>, at: nat, number: nat, dump: bool, sizeBits: nat)
    : (r: Result<Update, Fault>)
    ensures r.Success? ==> r.value.next >= at + HeaderSize
  {
    if at + HeaderSize > |img| then Failure(Fault(TruncatedHeader, at))
    else
      var raw := DecodeHeader(img, at);
      var size := EffectiveDataSize(raw.dataSize);
      var header := raw.(dataSize := size);
      var data := at + HeaderSize;
      if dump && data + size > |img| then Failure(Fault(TruncatedPayload, data))
      else
        var payload := if dump then Some(img[data..data + size]) else None;
        Finish(img, Update(number, at, header, payload, None, data + size), sizeBits)
  }

  /**
   * The rest of parse once header and payload are done: u.next is the
   * offset just past the payload. The update is complete unless the
   * extension test holds; then the extension is read from u.next and the
   * cursor goes past it.
   */
  function Finish(img: seq<Byte>, u: Update, sizeBits: nat): (r: Result<Update, Fault>)
    ensures r.Success? ==> r.value.next >= u.next
  {
    if !ExtensionFollows(u.header.totalSize, u.header.dataSize, sizeBits) then Success(u)
    else
      match ReadExtension(img, u.next)
      case Failure(fault) => Failure(fault)
      case Success(ext) => Success(u.(extension := Some(ext), next := ExtensionEnd(u.next, ext)))
  }

  /** The offset just past an extension that starts at tail. */
  function ExtensionEnd(tail: nat, ext: Extension): nat
  {
    tail + ExtHeaderSize + SignatureEntrySize * ext.header.signatureCount
  }

  /**
   * The extended header at img[tail..] and the signature table after it,
   * read as parse reads it: all signatures, then all flags, then all
   * checksums, each column count words long.
   */
  function ReadExtension(img: seq<Byte>, tail: nat): Result<Extension, Fault>
  {
    if tail + ExtHeaderSize > |img| then Failure(Fault(TruncatedExtendedHeader, tail))
    else
      var ext := DecodeExtHeader(img, tail);
      var table := tail + ExtHeaderSize;
      var count := ext.signatureCount;
      if count > 0 && table + SignatureEntrySize * count > |img| then
        Failure(Fault(TruncatedSignatureTable, table))
      else
        Success(Extension(ext,
          Column(img, table, count),
          Column(img, table + 4 * count, count),
          Column(img, table + 8 * count, count)))
  }

  /**
   * The updates main's loop decodes from offset at on, numbered from
   * number, and how the loop ends.
   */
  function WalkFrom(img: seq<Byte>, at: nat, number: nat, dump: bool, sizeBits: nat): Walked
    decreases |img| - at, 1
  {
    if at >= |img| then Walked([], Exhausted(at)) else WalkOn(img, at, number, dump, sizeBits)
  }

  /** One turn of main's loop with the cursor before the end, and the walk after it. */
  function WalkOn(img: seq<Byte>, at: nat, number: nat, dump: bool, sizeBits: nat): Walked
    requires at < |img|
    decreases |img| - at, 0
  {
    match ParseAt(img, at, number, dump, sizeBits)
    case Failure(fault) => Walked([], Failed(fault))
    case Success(u) =>
      var rest := WalkFrom(img, u.next, number + 1, dump, sizeBits);
      Walked([u] + rest.updates, rest.outcome)
  }

  /** The whole walk over an image, with header_count starting at 0. */
  function Walk(img: seq<Byte>, dump: bool, sizeBits: nat): Walked
  {
    WalkFrom(img, 0, 1, dump, sizeBits)
  }

  /**
   * The dump loop of parse: n bytes read one at a time from a[at..], in
   * order, or None when the image ends first.
   */
  method ReadPayload(a: array<Byte>, at: nat, n: nat) returns (r: Option<seq<Byte>>)
    requires n > 0
    ensures at + n <= a.Length ==> r == Some(a[at..at + n])
    ensures at + n > a.Length ==> r == None
  {
    var bytes: seq<Byte> := [];
    var i: nat := 0;
    while i < n
      invariant i <= n && (i == 0 || at + i <= a.Length)
      invariant |bytes| == i
      invariant forall k :: 0 <= k < i ==> bytes[k] == a[at + k]
    {
      if at + i >= a.Length {
        return None;
      }
      bytes := bytes + [a[at + i]];
      i := i + 1;
    }
    assert bytes == a[at..at + n];
    return Some(bytes);
  }

  /**
   * One of the three loops over the signature table: count int32_t words
   * read one after another from a[at..], or None when the image ends first.
   */
  method ReadColumn(a: array<Byte>, at: nat, count: nat) returns (r: Option<seq<I32>>)
    ensures count == 0 || at + 4 * count <= a.Length ==> r == Some(Column(a[..], at, count))
    ensures count > 0 && at + 4 * count > a.Length ==> r == None
  {
    var words: seq<I32> := [];
    var i: nat := 0;
    while i < count
      invariant i <= count && (i == 0 || at + 4 * i <= a.Length)
      invariant words == Column(a[..], at, i)
    {
      if at + 4 * i + 4 > a.Length {
        return None;
      }
      words := words + [AsI32(DecodeU32(a[..], at + 4 * i))];
      i := i + 1;
    }
    return Some(words);
  }

  /** The extended header and the three loops over the signature table. */
  method ReadExtensionAt(a: array<Byte>, tail: nat) returns (r: Result<Extension, Fault>)
    ensures r == ReadExtension(a[..], tail)
  {
    if tail + ExtHeaderSize > a.Length {
      return Failure(Fault(TruncatedExtendedHeader, tail));
    }
    var ext := DecodeExtHeader(a[..], tail);
    var table := tail + ExtHeaderSize;
    var count := ext.signatureCount;
    var data := table;
    var signatures := ReadColumn(a, data, count);
    if signatures.None? {
      return Failure(Fault(TruncatedSignatureTable, table));
    }
    data := data + 4 * count;
    var flags := ReadColumn(a, data, count);
    if flags.None? {
      return Failure(Fault(TruncatedSignatureTable, table));
    }
    data := data + 4 * count;
    var checksums := ReadColumn(a, data, count);
    if checksums.None? {
      return Failure(Fault(TruncatedSignatureTable, table));
    }
    return Success(Extension(ext, signatures.value, flags.value, checksums.value));
  }

  /**
   * The state parse keeps between calls: the cursor it writes back through
   * data_ptr and the static header_count, over the mapped image.
   */
  class Walker {
    const image: array<Byte>
    const dump: bool
    const sizeBits: nat
    var cursor: nat
    var headerCount: nat

    constructor (image: array<Byte>, dump: bool, sizeBits: nat)
      ensures this.image == image && this.dump == dump && this.sizeBits == sizeBits
      ensures cursor == 0 && headerCount == 0
    {
      this.image := image;
      this.dump := dump;
      this.sizeBits := sizeBits;
      cursor := 0;
      headerCount := 0;
    }

    /**
     * One call of parse. header_count goes up by one as soon as the header
     * is read; the cursor moves only when the whole update was read.
     */
    method Parse() returns (r: Result<Update, Fault>)
      modifies this
      ensures r == ParseAt(image[..], old(cursor), old(headerCount) + 1, dump, sizeBits)
      ensures r.Success? ==> cursor == r.value.next && headerCount == old(headerCount) + 1
      ensures r.Failure? ==> cursor == old(cursor)
      ensures r.Failure? ==>
        headerCount == old(headerCount) + (if r.error.kind == TruncatedHeader then 0 else 1)
    {
      var at := cursor;
      if at + HeaderSize > image.Length {
        return Failure(Fault(TruncatedHeader, at));
      }
      ghost var img := image[..];
      ParseAtPieces(img, at, headerCount + 1, dump, sizeBits);
      var raw := DecodeHeader(image[..], at);
      var data := at + HeaderSize;
      var size := EffectiveDataSize(raw.dataSize);
      var header := raw.(dataSize := size);
      headerCount := headerCount + 1;

      var payload: Option<seq<Byte>> := None;
      if dump {
        payload := ReadPayload(image, data, size);
      }
      if dump && payload.None? {
        r := Failure(Fault(TruncatedPayload, data));
      } else {
        r := FinishAt(image, Update(headerCount, at, header, payload, None, data + size), sizeBits);
        if r.Success? {
          cursor := r.value.next;
        }
      }
    }
  }

  /** ParseAt once the header fits: the payload check, then Finish. */
  lemma ParseAtPieces(img: seq<Byte>, at: nat, number: nat, dump: bool, sizeBits: nat)
    requires at + HeaderSize <= |img|
    ensures var raw := DecodeHeader(img, at);
      var size := EffectiveDataSize(raw.dataSize);
      var data := at + HeaderSize;
      var r := ParseAt(img, at, number, dump, sizeBits);
      && (dump && data + size > |img| ==> r == Failure(Fault(TruncatedPayload, data)))
      && (!(dump && data + size > |img|) ==>
            r == Finish(img, Update(number, at, raw.(dataSize := size),
                                    if dump then Some(img[data..data + size]) else None,
                                    None, data + size), sizeBits))
  {
  }

  /** The end of parse: the extension test and, when it holds, the extension. */
  method FinishAt(a: array<Byte>, u: Update, sizeBits: nat) returns (r: Result<Update, Fault>)
    ensures r == Finish(a[..], u, sizeBits)
  {
    if !ExtensionFollows(u.header.totalSize, u.header.dataSize, sizeBits) {
      return Success(u);
    }
    var ext := ReadExtensionAt(a, u.next);
    if ext.Failure? {
      return Failure(ext.error);
    }
    return Success(u.(extension := Some(ext.value), next := ExtensionEnd(u.next, ext.value)));
  }

  /** The updates decoded so far followed by a walk that goes on from there. */
  function Prepend(done: seq<Update>, w: Walked): Walked
  {
    Walked(done + w.updates, w.outcome)
  }

  /**
   * One turn of main's loop, as WalkFrom sees it: a successful parse adds
   * its update to those decoded so far and the walk goes on from where it
   * left the cursor; a fault ends the walk.
   */
  lemma WalkStep(img: seq<Byte>, at: nat, done: seq<Update>, dump: bool, sizeBits: nat,
                 r: Result<Update, Fault>)
    requires at < |img| && r == ParseAt(img, at, |done| + 1, dump, sizeBits)
    ensures r.Failure? ==>
      Prepend(done, WalkFrom(img, at, |done| + 1, dump, sizeBits)) == Walked(done, Failed(r.error))
    ensures r.Success? ==>
      && r.value.next > at
      && Prepend(done, WalkFrom(img, at, |done| + 1, dump, sizeBits))
         == Prepend(done + [r.value], WalkFrom(img, r.value.next, |done + [r.value]| + 1, dump, sizeBits))
  {
    if r.Success? {
      var rest := WalkFrom(img, r.value.next, |done| + 2, dump, sizeBits);
      assert done + ([r.value] + rest.updates) == (done + [r.value]) + rest.updates;
    } else {
      assert done + [] == done;
    }
  }

  /** Before the first turn of main's loop nothing is decoded and the whole walk lies ahead. */
  lemma WalkStart(img: seq<Byte>, dump: bool, sizeBits: nat)
    ensures Walk(img, dump, sizeBits) == Prepend([], WalkFrom(img, 0, 1, dump, sizeBits))
  {
    assert [] + WalkFrom(img, 0, 1, dump, sizeBits).updates == WalkFrom(img, 0, 1, dump, sizeBits).updates;
  }

  /** Once the cursor is at or past the end of the image, the walk is over. */
  lemma WalkEnd(img: seq<Byte>, at: nat, done: seq<Update>, dump: bool, sizeBits: nat)
    requires at >= |img|
    ensures Prepend(done, WalkFrom(img, at, |done| + 1, dump, sizeBits)) == Walked(done, Exhausted(at))
  {
    assert done + [] == done;
  }

  /**
   * The body of main's loop: one call of parse, stated as the step it
   * takes along the walk goal that main's loop carries out.
   */
  method Advance(walker: Walker, ghost img: seq<Byte>, ghost done: seq<Update>, ghost goal: Walked)
    returns (r: Result<Update, Fault>)
    requires walker.image[..] == img && walker.cursor < |img| && walker.headerCount == |done|
    requires goal == Prepend(done, WalkFrom(img, walker.cursor, |done| + 1, walker.dump, walker.sizeBits))
    modifies walker
    ensures walker.image[..] == img
    ensures r.Failure? ==> goal == Walked(done, Failed(r.error))
    ensures r.Success? ==>
      && walker.headerCount == |done + [r.value]|
      && walker.cursor > old(walker.cursor)
      && goal == Prepend(done + [r.value], WalkFrom(img, walker.cursor, |done + [r.value]| + 1, walker.dump, walker.sizeBits))
  {
    ghost var at := walker.cursor;
    r := walker.Parse();
    WalkStep(img, at, done, walker.dump, walker.sizeBits, r);
  }

  /**
   * main's loop: parse while the cursor is before the end of the image.
   * It stops at the first fault.
   */
  method WalkImage(image: array<Byte>, dump: bool, sizeBits: nat)
    returns (updates: seq<Update>, outcome: Outcome)
    ensures Walked(updates, outcome) == Walk(image[..], dump, sizeBits)
  {
    var walker := new Walker(image, dump, sizeBits);
    ghost var img := image[..];
    ghost var goal := Walk(img, dump, sizeBits);
    WalkStart(img, dump, sizeBits);
    updates := [];
    while walker.cursor < image.Length
      invariant walker.image == image && walker.dump == dump && walker.sizeBits == sizeBits
      invariant image[..] == img
      invariant walker.headerCount == |updates|
      invariant goal == Prepend(updates, WalkFrom(img, walker.cursor, |updates| + 1, dump, sizeBits))
      decreases image.Length - walker.cursor
    {
      var r := Advance(walker, img, updates, goal);
      if r.Failure? {
        return updates, Failed(r.error);
      }
      updates := updates + [r.value];
    }
    WalkEnd(img, walker.cursor, updates, dump, sizeBits);
    outcome := Exhausted(walker.cursor);
  }
}
