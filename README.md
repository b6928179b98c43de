# mc_barf in Dafny

mc_barf is a dumper for Intel microcode update images. The image is a
concatenation of updates. Each update has:

- a 48-byte header (`mc_hdr_t`);
- a payload of `data_size` bytes, where a `data_size` of 0 stands for 2000;
- sometimes a 20-byte extended header (`mc_ext_hdr_t`) and a signature
  table of three columns (signatures, flags, checksums), each
  `ext_sig_count` words long.

`parse` in `main.c` decodes the update at the cursor, prints it, and moves
the cursor to the next update. `main` calls `parse` while the cursor is
before the end of the mapped file. The companion script `mc_dat_to_bin.py`
turns the text form of an image (a `.dat` file of hex words) into the
binary form.

This project models both and proves what they do.

- `LittleEndian`: bytes, 32-bit words and their little-endian encoding.
  Also covers the `int32_t` reading of a `uint32_t`.
- `MicrocodeFormat`: the header layouts, the `data_size` sentinel and the
  date fields `print_header` shows. It also has the extension test exactly
  as C evaluates it. The difference is unsigned 32-bit. The sum is taken in
  the wider of `uint32_t` and `size_t`. On an unsigned value, "> 0" means
  "!= 0".
- `UpdateWalker`: what `parse` and `main`'s loop do.
  - The pure functions `ParseAt` and `WalkFrom` describe one call and the
    whole walk.
  - The class `Walker` holds the cursor and the static `header_count`. Its
    method `Parse` is proved to do what `ParseAt` says.
  - `WalkImage` runs main's loop and is proved equal to `Walk`.
  - The dump loop and the three signature-table loops are methods with loop
    invariants.
- `WalkProperties`: what the walk guarantees.
  - How many bytes each update occupies.
  - Where the walk can fail.
  - Updates are numbered consecutively and lie end to end.
  - Dumping and skipping the payload agree.
  - What the extension test means on 32-bit and 64-bit targets.
- `PythonText`: the parts of Python 3 the script relies on: `str.find`,
  `str.split()`, `str.strip(chars)` and `int(text, 16)`.
- `DatToBin`: the script's conversion loop, its output name and its
  refusal checks. It includes a round trip: words rendered as a `.dat`
  line convert back to their little-endian encodings.

`main.c` never checks a bound. The model checks every read against the
end of the image instead. A read that would run past the end is a
`Fault`. The fault gives what was being read (header, dumped payload,
extended header, signature table) and the offset where that read starts.

## What the code does where it may be unexpected

The model follows the code in each of these.

- **Skipping the payload.** Without `-d`, `parse` moves the cursor past
  the payload without reading it. Nothing is checked, so no fault arises.
  The cursor can end up past the end of the image, and the walk then
  stops as exhausted (`main.c:149-150`, `main.c:222`), unless, with a
  32-bit `size_t`, the extension test holds: then reading the extended
  header past the end faults (`main.c:152-159`).
- **The extended header.** In the Intel microcode update format, an extended header follows when
  `total_size` exceeds `data_size + 48`. The code tests something else:
  `!total_size || total_size - data_size + sizeof(mc_hdr_t) > 0` decides
  that there is none (`main.c:152-153`). The subtraction wraps modulo
  2^32, and "> 0" on an unsigned value means "not zero".
  - On an LP64 target the sum is a 64-bit value between 48 and 2^32 + 47.
    It is never zero, so no extended header is ever read
    (`MicrocodeFormat.ExtensionTest`, `WalkProperties.ParseOnWideSizeT`).
  - With a 32-bit `size_t`, one is read only when the effective
    `data_size` equals `total_size + 48` modulo 2^32.
  - As a result, an image laid out with an extended table (header, 16 bytes
    of payload, 20-byte extended header and 24 bytes of table) is walked as
    one plain update followed by a truncated header at offset 64
    (`WalkProperties.ExtendedImageAsWritten`).
- **Printed header.** `print_header` receives the header with `data_size`
  already replaced by 2000 when it was 0. The decoded update keeps that
  replaced value.
- **Python version.** The script is modelled as Python 3 runs it:
  - `str.split()` splits on every character `str.isspace` accepts, not
    only the ASCII ones;
  - `int(text, 16)` accepts a sign, a `0x`/`0X` prefix and single
    underscores between digits.
- **Byte order.** `struct.pack('I', …)` writes the host's byte order,
  taken to be little-endian as on the x86 machines that load microcode.
- **Errors.** An error from `int()` or `struct.pack` ends the script. The
  words already written stay in the output file, so a conversion is the
  bytes written together with the error that stopped it, if any.

## Model

| member | source | states |
|---|---|---|
| LittleEndian.DecodeEncode | main.c:41-49 | decoding the 4 little-endian bytes of a u32 gives the value back |
| LittleEndian.EncodeDecode | main.c:41-49 | any 4 bytes of the image are the encoding of the word they decode to |
| LittleEndian.DecodeAppended | mc_dat_to_bin.py:42-44 | in a stream of appended 4-byte words, word k decodes from offset 4k regardless of what follows |
| LittleEndian.SignedRoundTrip | main.c:42 | reading a uint32_t as int32_t and back loses nothing, in both directions |
| MicrocodeFormat.HeaderRoundTrip | main.c:39-51 | decoding an encoded header followed by any 12 reserved bytes gives the header back: nine words at offsets 0..32, revision signed |
| MicrocodeFormat.HeaderFieldBytesRoundTrip | main.c:129 | the decoded header re-encodes to exactly the first 36 bytes it was copied from |
| MicrocodeFormat.EffectiveDataSize | main.c:131-132 | the payload length is data_size, or 2000 when data_size is 0; never 0 |
| MicrocodeFormat.DateSplitRoundTrip | main.c:96 | the three printed date fields (date>>24, date>>16&0xFF, date&0xFFFF) are in range and reassemble the date |
| MicrocodeFormat.DatePackSplit | main.c:96 | splitting a date packed from three in-range fields gives those fields back |
| MicrocodeFormat.TruncateIsMod | main.c:153 | keeping the low bits of a value is reducing it modulo that power of two |
| MicrocodeFormat.ExtensionWide | main.c:152-153 | with a size_t wider than 32 bits the early return is always taken |
| MicrocodeFormat.ExtensionNarrow | main.c:152-153 | with a 32-bit size_t an extended header follows exactly when total_size is nonzero and data_size equals total_size + 48 modulo 2^32 |
| MicrocodeFormat.ExtensionTest | main.c:152-157 | both cases of the extension test: never on LP64, and the wrap-around condition on 32-bit targets |
| MicrocodeFormat.ColumnAt | main.c:165-179 | a signature-table column has count entries, entry i being the signed word at offset at + 4i |
| UpdateWalker.ParseAt | main.c:120-182 | a successful parse moves the cursor past at least the 48-byte header |
| UpdateWalker.Finish | main.c:152-181 | the tail of parse never moves the cursor backwards |
| UpdateWalker.ReadPayload | main.c:135-147 | the dump loop reads exactly the n bytes after the header, in order, or reports that the image ends first |
| UpdateWalker.ReadColumn | main.c:165-179 | one table loop reads count signed words from the given offset, or reports that the image ends first |
| UpdateWalker.ReadExtensionAt | main.c:159-179 | the extended header and the three loops give what ReadExtension specifies, faults included |
| UpdateWalker.FinishAt | main.c:152-181 | the extension test and the extension read give what Finish specifies |
| UpdateWalker.Walker.constructor | main.c:125-126 | a walker starts at offset 0 with header_count 0 |
| UpdateWalker.Walker.Parse | main.c:120-182 | one call of parse returns what ParseAt specifies; header_count goes up once the header is read; the cursor moves only after a successful parse, to where the update ends |
| UpdateWalker.WalkStep | main.c:222-223 | one turn of main's loop adds the parsed update and goes on from the new cursor, or ends the walk at the fault |
| UpdateWalker.Advance | main.c:222-223 | the loop body keeps the walk invariant and strictly advances the cursor |
| UpdateWalker.WalkImage | main.c:222-223 | main's loop decodes exactly the updates Walk specifies and ends the way Walk says |
| WalkProperties.ParseConsumes | main.c:129-181 | an update without extension occupies 48 + D bytes; one with an extension occupies 48 + D + 20 + 12 * count; its header is the decoded one with the effective data_size |
| WalkProperties.DataSizeSentinel | main.c:131-153 | a data_size of 0 is skipped, dumped and fed to the extension test as 2000; any other value is used unchanged |
| WalkProperties.DumpAndSkipAgree | main.c:135-150 | dumping and skipping the payload give the same update and cursor; the dump is the D bytes after the header |
| WalkProperties.ZeroTotalSize | main.c:152-157 | a total_size of 0 ends the update right after its payload |
| WalkProperties.ParseFaults | main.c:129-179 | parse fails exactly when the header, the dumped payload, the extended header or a nonempty signature table does not fit |
| WalkProperties.SignatureTableLayout | main.c:159-179 | the table is grouped by field: signature i at table + 4i, flags at table + 4c + 4i, checksum at table + 8c + 4i |
| WalkProperties.ParseOnWideSizeT | main.c:152-157 | on LP64 every parsed update has no extension and occupies 48 + D bytes; only the header or a dumped payload can be truncated |
| WalkProperties.WalkUnfold | main.c:222-223 | a walk that decodes an update continues from where that update ended |
| WalkProperties.WalkNumbering | main.c:125-133 | updates are numbered number, number + 1, ... in the order they are decoded |
| WalkProperties.WalkContiguous | main.c:222-223 | the decoded updates lie end to end; an exhausted walk ends where the last update ended, at or past the end of the image |
| WalkProperties.WalkLength | main.c:222-223 | the walk decodes at most one update per 48 bytes of image |
| WalkProperties.WalkOnWideSizeT | main.c:152-157 | on LP64 no update of the walk has an extension, each occupies 48 + D bytes, and skipping payloads the only fault is a truncated header |
| WalkProperties.WalkDumpAndSkipAgree | main.c:135-150 | a walk that dumps without a fault decodes the same updates, and ends at the same place, as one that skips |
| WalkProperties.ShortImage | main.c:129 | a non-empty image shorter than a header yields no update and a truncated header at offset 0 |
| WalkProperties.SingleUpdateImage | main.c:129-157 | a 64-byte image with data_size 0x10 and total_size 0x40 holds one update without extension; the walk is exhausted at 64 |
| WalkProperties.ExtendedImageAsWritten | main.c:152-157 | a 108-byte image laid out with an extended table is read as one plain update, then a truncated header at 64 |
| PythonText.FindFromSpec | mc_dat_to_bin.py:39 | the search from an index finds the first occurrence at or after it, or -1 when there is none |
| PythonText.FindSpec | mc_dat_to_bin.py:16 | str.find is -1 exactly when the pattern does not occur, else its first occurrence |
| PythonText.FindChar | mc_dat_to_bin.py:39 | for one character, str.find != -1 is membership |
| PythonText.WordSpec | mc_dat_to_bin.py:41 | a word is the longest prefix without white space |
| PythonText.SplitTokens | mc_dat_to_bin.py:41 | every token of str.split() is non-empty and holds no white space |
| PythonText.SplitKeepsText | mc_dat_to_bin.py:41 | the tokens of str.split(), put together, are the input with its white space removed |
| PythonText.SplitToken | mc_dat_to_bin.py:41 | a token followed by a white-space character is split off as the first token |
| PythonText.StripLeftSpec | mc_dat_to_bin.py:41 | lstrip removes the longest prefix made of the given characters |
| PythonText.StripRightSpec | mc_dat_to_bin.py:41 | rstrip removes the longest suffix made of the given characters |
| PythonText.StripSpec | mc_dat_to_bin.py:41 | strip keeps one infix; everything before and after it is in chars, and it neither starts nor ends with one |
| PythonText.StripTrailing | mc_dat_to_bin.py:41 | stripping a clean string followed by one stripped character gives the string back |
| PythonText.HexDigitsValue | mc_dat_to_bin.py:43 | n zero-padded hex digits of v < 16^n are read back as v |
| PythonText.ParseRendered | mc_dat_to_bin.py:43 | int(text, 16) reads "0x" followed by the zero-padded digits of v as v |
| DatToBin.StripAllAt | mc_dat_to_bin.py:41 | token k is word k stripped of ", \t\n" |
| DatToBin.PackWordSpec | mc_dat_to_bin.py:43 | a token packs exactly when it parses and fits 32 bits; the four bytes decode to its value; otherwise the error says why |
| DatToBin.PackLine | mc_dat_to_bin.py:42-44 | the inner loop writes the words of the tokens in order up to the first that fails, and reports that failure |
| DatToBin.ConvertLine | mc_dat_to_bin.py:39-44 | a line with '/' writes nothing; any other line is packed token by token |
| DatToBin.Convert | mc_dat_to_bin.py:38-44 | the conversion loop writes exactly what ConvertLines specifies and stops at the first error |
| DatToBin.PackAllAppend | mc_dat_to_bin.py:38-44 | converting two runs of tokens in sequence: the second run is reached only when the first converts completely |
| DatToBin.PackedCount | mc_dat_to_bin.py:42-44 | the output holds one 4-byte word per token before the first failing one; with no error every token was packed, else the error is that token's failure |
| DatToBin.PackedValues | mc_dat_to_bin.py:43-44 | word k of the output decodes, little-endian, to the value of token k |
| DatToBin.ConvertSucceeds | mc_dat_to_bin.py:42-44 | the conversion succeeds exactly when every token parses as hex and fits 32 bits |
| DatToBin.ConvertedWords | mc_dat_to_bin.py:38-44 | a successful conversion holds 4 bytes per token, word k decoding to token k's value |
| DatToBin.CommentLinesIgnored | mc_dat_to_bin.py:39-40 | dropping every line with '/' leaves the tokens and the output unchanged |
| DatToBin.CommentLine | mc_dat_to_bin.py:39-40 | a line is skipped exactly when it holds a '/', and then contributes no token |
| DatToBin.TokenTrimmed | mc_dat_to_bin.py:41 | each token is its word without surrounding commas, spaces, tabs and newlines, and starts and ends with none of them |
| DatToBin.DatLineText | mc_dat_to_bin.py:41 | a rendered .dat line has no '/' and splits into its cells |
| DatToBin.DatLineRoundTrip | mc_dat_to_bin.py:38-44 | converting a .dat line rendered from words gives their little-endian encodings |
| DatToBin.OutputNameSpec | mc_dat_to_bin.py:21 | the output name is the text before the first ".dat" followed by ".bin", and never the input name |
| DatToBin.PlanOutputSpec | mc_dat_to_bin.py:16-29 | the script starts exactly when the name contains ".dat", the output does not exist and the input does; it never overwrites a file; a name without ".dat" is refused first, then an existing output, then a missing input |

## Left out

- Printing: `print_header`, `print_ext_header` and the `printf` calls in `parse` are not modelled. The decoded update carries every value they print.
- `main`'s argument handling and file plumbing are not modelled: `-d` parsing, `usage`, `open`, `fstat`, `mmap`, `munmap`. The image is an array of bytes, and `FLAG_SHOW_DATA` is the `dump` parameter.
- The width of `size_t` is a parameter (`sizeBits`), because it decides the extension test.
- Checksums are decoded but not checked, as in the source.
- `header_count` is an unbounded natural number. Overflow of the C `int` after 2^31 updates is not modelled.
- The cursor is an unbounded offset. Address wrap-around is not modelled. This matters on a 32-bit target: there `data += sizeof(mc_hdr_t)` and `data += data_size` (`main.c:130`, `main.c:150`) wrap the pointer, so a header with `data_size` 0xFFFFFFD0 and `total_size` 0 sends the cursor back to the same update and `main`'s loop (`main.c:222-223`) parses it forever. The model instead moves past the image and ends the walk as exhausted, so `WalkLength` and the termination of `WalkFrom` hold for the model only, not for such a target.
- Python's `int()` also accepts non-ASCII Unicode decimal digits. Only ASCII hex digits are modelled.
- Python `open()` errors are not modelled: the output file failing to open (the `except` at `mc_dat_to_bin.py:34-35`) and the input failing to open. Reading the input as lines is the `lines` parameter, and the existing files are the `existing` set.
- `sys.exit` and the messages printed on refusal are not modelled. Refusals are the `NameError` values.
- `line.find('/') is not -1` is modelled as `!=`. CPython caches small integers, so the two agree.
- `struct.pack('I', …)` is modelled for a little-endian host only.
