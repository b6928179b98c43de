/**
 * The .dat to .bin converter: every line of the text file that has no '/'
 * is split into white-space-separated tokens, each token loses its
 * surrounding commas, spaces, tabs and newlines, is read as a base-16
 * integer and is written out as a 4-byte unsigned word in the host's byte
 * order (little-endian on x86). The output file's name is the input name up
 * to its first ".dat", followed by ".bin".
 *
 * The output stream is modelled as the sequence of bytes written to it, and
 * the file system as the set of names that exist.
 */
module DatToBin {
  import opened Wrappers
  import opened LittleEndian
  import opened PythonText

  /** The characters stripped from both ends of every token. */
  const TokenTrim: set<char> := {',', ' ', '\t', '\n'}

  /** A line with a '/' anywhere (a comment line) is skipped. */
  predicate IsComment(line: string)
  {
    Find(line, "/") != -1
  }

  /** [x.strip(', \t\n') for x in words]. */
  function StripAll(words: seq<string>): (vals: seq<string>)
    ensures |vals| == |words|
  {
    if |words| == 0 then [] else [Strip(words[0], TokenTrim)] + StripAll(words[1..])
  }

  lemma {:induction false} StripAllAt(words: seq<string>, k: nat)
    requires k < |words|
    ensures StripAll(words)[k] == Strip(words[k], TokenTrim)
    decreases k
  {
    if k > 0 {
      StripAllAt(words[1..], k - 1);
    }
  }

  /** The stripped tokens of one line, in order; none for a comment line. */
  function LineTokens(line: string): seq<string>
  {
    if IsComment(line) then [] else StripAll(Split(line))
  }

  /** The tokens of all lines, line by line. */
  function Tokens(lines: seq<string>): seq<string>
  {
    if |lines| == 0 then [] else LineTokens(lines[0]) + Tokens(lines[1..])
  }

  /** Why the conversion stopped: int() raised ValueError, or struct.pack raised struct.error. */
  datatype ConvertError = NotHex(token: string) | OutOfRange(value: int)

  /** struct.pack('I', int(token, 16)). */
  function PackWord(token: string): Result<seq<Byte>, ConvertError>
  {
    match ParseHex(token)
    case None => Failure(NotHex(token))
    case Some(v) => if 0 <= v < U32Modulus then Success(EncodeU32(v)) else Failure(OutOfRange(v))
  }

  /**
   * A token packs exactly when it parses and its value fits 32 bits; the
   * four packed bytes decode, little-endian, to that value. A token that
   * does not parse is reported as such, one that parses to a value outside
   * 0 .. 2^32 - 1 with its value.
   */
  lemma PackWordSpec(token: string)
    ensures var r := PackWord(token);
      && (r.Success? <==> ParseHex(token).Some? && 0 <= ParseHex(token).value < U32Modulus)
      && (r.Success? ==> |r.value| == 4 && DecodeU32(r.value, 0) == ParseHex(token).value)
      && (r == Failure(NotHex(token)) <==> ParseHex(token).None?)
      && (ParseHex(token).Some? && !r.Success? ==> r == Failure(OutOfRange(ParseHex(token).value)))
  {
    if PackWord(token).Success? {
      DecodeEncode(ParseHex(token).value);
    }
  }

  /**
   * What the output holds when the conversion ends, and the error that
   * ended it early, if any. The bytes written before an error stay in the
   * file.
   */
  datatype Conversion = Conversion(bytes: seq<Byte>, error: Option<ConvertError>)

  /** Each token packed on its own. */
  function PackEach(tokens: seq<string>): (ws: seq<Result<seq<Byte>, ConvertError>>)
    ensures |ws| == |tokens|
  {
    if |tokens| == 0 then [] else [PackWord(tokens[0])] + PackEach(tokens[1..])
  }

  /** The packed words written one after the other, stopping at the first failure. */
  function Join(ws: seq<Result<seq<Byte>, ConvertError>>): Conversion
  {
    if |ws| == 0 then Conversion([], None)
    else
      match ws[0]
      case Failure(e) => Conversion([], Some(e))
      case Success(w) =>
        var rest := Join(ws[1..]);
        Conversion(w + rest.bytes, rest.error)
  }

  /** Packing the tokens one after the other, stopping at the first that fails. */
  function PackAll(tokens: seq<string>): Conversion
  {
    Join(PackEach(tokens))
  }

  /** The whole conversion of a file given as its lines. */
  function ConvertLines(lines: seq<string>): Conversion
  {
    PackAll(Tokens(lines))
  }

  /** done followed by the outcome of what is still to be converted. */
  function After(done: seq<Byte>, rest: Conversion): Conversion
  {
    Conversion(done + rest.bytes, rest.error)
  }

  lemma TokensStep(lines: seq<string>, i: nat)
    requires i < |lines|
    ensures Tokens(lines[i..]) == LineTokens(lines[i]) + Tokens(lines[i + 1..])
  {
    assert lines[i..][1..] == lines[i + 1..];
  }

  /** done followed by what packing the first token and then the rest gives. */
  lemma PackAllCons(tokens: seq<string>)
    requires |tokens| > 0
    ensures PackWord(tokens[0]).Failure? ==> PackAll(tokens) == Conversion([], Some(PackWord(tokens[0]).error))
    ensures PackWord(tokens[0]).Success? ==>
      PackAll(tokens) == After(PackWord(tokens[0]).value, PackAll(tokens[1..]))
  {
    var ws := PackEach(tokens);
    assert ws[0] == PackWord(tokens[0]);
    assert ws[1..] == PackEach(tokens[1..]);
  }

  /**
   * One token of the inner loop: if it fails, what was written is the
   * whole outcome; otherwise its word is appended and the rest follows.
   */
  lemma TokenStep(bytes: seq<Byte>, vals: seq<string>, j: nat, goal: Conversion)
    requires j < |vals| && After(bytes, PackAll(vals[j..])) == goal
    ensures PackWord(vals[j]).Failure? ==> goal == Conversion(bytes, Some(PackWord(vals[j]).error))
    ensures PackWord(vals[j]).Success? ==>
      goal == After(bytes + PackWord(vals[j]).value, PackAll(vals[j + 1..]))
  {
    assert vals[j..][0] == vals[j];
    assert vals[j..][1..] == vals[j + 1..];
    PackAllCons(vals[j..]);
    assert bytes + [] == bytes;
    if PackWord(vals[j]).Success? {
      var w := PackWord(vals[j]).value;
      var rest := PackAll(vals[j + 1..]);
      assert bytes + (w + rest.bytes) == (bytes + w) + rest.bytes;
    }
  }

  /**
   * The inner loop over the tokens of one line: each is parsed and its word
   * appended, until one fails.
   */
  method PackLine(vals: seq<string>) returns (bytes: seq<Byte>, error: Option<ConvertError>)
    ensures Conversion(bytes, error) == PackAll(vals)
  {
    ghost var goal := PackAll(vals);
    bytes := [];
    assert vals[0..] == vals;
    var j := 0;
    while j < |vals|
      invariant j <= |vals|
      invariant After(bytes, PackAll(vals[j..])) == goal
    {
      TokenStep(bytes, vals, j, goal);
      var packed := PackWord(vals[j]);
      if packed.Failure? {
        return bytes, Some(packed.error);
      }
      bytes := bytes + packed.value;
      j := j + 1;
    }
    assert vals[j..] == [];
    assert bytes + [] == bytes;
    error := None;
  }

  lemma {:induction false} PackEachAppend(a: seq<string>, b: seq<string>)
    ensures PackEach(a + b) == PackEach(a) + PackEach(b)
    decreases |a|
  {
    if |a| == 0 {
      assert a + b == b;
    } else {
      assert (a + b)[0] == a[0];
      assert (a + b)[1..] == a[1..] + b;
      PackEachAppend(a[1..], b);
    }
  }

  lemma {:induction false} JoinAppend(x: seq<Result<seq<Byte>, ConvertError>>, y: seq<Result<seq<Byte>, ConvertError>>)
    ensures Join(x).error.Some? ==> Join(x + y) == Join(x)
    ensures Join(x).error.None? ==> Join(x + y) == After(Join(x).bytes, Join(y))
    decreases |x|
  {
    if |x| == 0 {
      assert x + y == y;
      assert [] + Join(y).bytes == Join(y).bytes;
    } else {
      assert (x + y)[0] == x[0];
      assert (x + y)[1..] == x[1..] + y;
      JoinAppend(x[1..], y);
      if x[0].Success? && Join(x[1..]).error.None? {
        var w := x[0].value;
        var rest := Join(x[1..]);
        assert w + (rest.bytes + Join(y).bytes) == (w + rest.bytes) + Join(y).bytes;
      }
    }
  }

  /**
   * Packing two runs of tokens one after the other: the second run is
   * reached only when the first packs completely.
   */
  lemma PackAllAppend(a: seq<string>, b: seq<string>)
    ensures PackAll(a).error.Some? ==> PackAll(a + b) == PackAll(a)
    ensures PackAll(a).error.None? ==> PackAll(a + b) == After(PackAll(a).bytes, PackAll(b))
  {
    PackEachAppend(a, b);
    JoinAppend(PackEach(a), PackEach(b));
  }

  /** One line of the outer loop: its words follow what was written, and an error ends the file. */
  lemma LineStep(bytes: seq<Byte>, vals: seq<string>, later: seq<string>, goal: Conversion)
    requires After(bytes, PackAll(vals + later)) == goal
    ensures var line := PackAll(vals);
      && (line.error.Some? ==> goal == Conversion(bytes + line.bytes, line.error))
      && (line.error.None? ==> goal == After(bytes + line.bytes, PackAll(later)))
  {
    PackAllAppend(vals, later);
    var line := PackAll(vals);
    if line.error.None? {
      assert bytes + (line.bytes + PackAll(later).bytes) == (bytes + line.bytes) + PackAll(later).bytes;
    }
  }

  /** The body of the loop over the lines: a line with '/' is skipped, the others packed. */
  method ConvertLine(line: string) returns (bytes: seq<Byte>, error: Option<ConvertError>)
    ensures Conversion(bytes, error) == PackAll(LineTokens(line))
  {
    if Find(line, "/") != -1 {
      return [], None;
    }
    var vals := StripAll(Split(line));
    bytes, error := PackLine(vals);
  }

  /**
   * The conversion loop: for every line without '/', for every stripped
   * token, parse it as hex and append its packed word to the output. An
   * error ends the loop with what was written so far.
   */
  method Convert(lines: seq<string>) returns (bytes: seq<Byte>, error: Option<ConvertError>)
    ensures Conversion(bytes, error) == ConvertLines(lines)
  {
    ghost var goal := ConvertLines(lines);
    bytes := [];
    assert lines[0..] == lines;
    var i := 0;
    while i < |lines|
      invariant i <= |lines|
      invariant After(bytes, PackAll(Tokens(lines[i..]))) == goal
    {
      TokensStep(lines, i);
      LineStep(bytes, LineTokens(lines[i]), Tokens(lines[i + 1..]), goal);
      var words, e := ConvertLine(lines[i]);
      bytes := bytes + words;
      if e.Some? {
        return bytes, e;
      }
      i := i + 1;
    }
    assert lines[i..] == [];
    assert bytes + [] == bytes;
    error := None;
  }

  // ---------------------------------------------------------------- properties

  /** How many leading tokens pack: the index of the first token that fails, or all of them. */
  function PackedPrefix(tokens: seq<string>): (n: nat)
    ensures n <= |tokens|
  {
    if |tokens| == 0 || PackWord(tokens[0]).Failure? then 0 else 1 + PackedPrefix(tokens[1..])
  }

  /**
   * The output holds one word for each token before the first that fails.
   * With no error every token was packed; an error is the failure of the
   * first token that could not be packed.
   */
  lemma {:induction false} PackedCount(tokens: seq<string>)
    ensures var r := PackAll(tokens);
      var n := PackedPrefix(tokens);
      && |r.bytes| == 4 * n
      && (forall k :: 0 <= k < n ==> PackWord(tokens[k]).Success?)
      && (r.error.None? <==> n == |tokens|)
      && (r.error.Some? ==> PackWord(tokens[n]) == Failure(r.error.value))
    decreases |tokens|
  {
    if |tokens| > 0 {
      PackAllCons(tokens);
    }
    if |tokens| > 0 && PackWord(tokens[0]).Success? {
      PackedCount(tokens[1..]);
      PackWordSpec(tokens[0]);
      assert forall k :: 1 <= k < |tokens| ==> tokens[k] == tokens[1..][k - 1];
    }
  }

  /** Word k of the output decodes, little-endian, to the value of token k. */
  lemma {:induction false} PackedValues(tokens: seq<string>)
    ensures var r := PackAll(tokens);
      forall k :: 0 <= k < |tokens| && 4 * k + 4 <= |r.bytes| ==>
        ParseHex(tokens[k]).Some? && DecodeU32(r.bytes, 4 * k) == ParseHex(tokens[k]).value
    decreases |tokens|
  {
    if |tokens| > 0 {
      var r := PackAll(tokens);
      PackAllCons(tokens);
      PackWordSpec(tokens[0]);
      if PackWord(tokens[0]).Success? {
        var w := PackWord(tokens[0]).value;
        var rest := PackAll(tokens[1..]);
        PackedValues(tokens[1..]);
        assert r.bytes == w + rest.bytes;
        forall k | 0 <= k < |tokens| && 4 * k + 4 <= |r.bytes|
          ensures ParseHex(tokens[k]).Some? && DecodeU32(r.bytes, 4 * k) == ParseHex(tokens[k]).value
        {
          DecodeAppended(w, rest.bytes, k);
          if k > 0 {
            assert tokens[k] == tokens[1..][k - 1];
          }
        }
      }
    }
  }

  /** The conversion succeeds exactly when every token parses as hex and fits 32 bits. */
  lemma {:induction false} ConvertSucceeds(tokens: seq<string>)
    ensures PackAll(tokens).error.None? <==>
      forall k :: 0 <= k < |tokens| ==> PackWord(tokens[k]).Success?
    decreases |tokens|
  {
    if |tokens| > 0 {
      PackAllCons(tokens);
      ConvertSucceeds(tokens[1..]);
      assert forall k :: 1 <= k < |tokens| ==> tokens[k] == tokens[1..][k - 1];
    }
  }

  /**
   * A converted file holds 4 bytes per token, and decoding word k of it as
   * a little-endian u32 gives back the value of token k.
   */
  lemma ConvertedWords(lines: seq<string>)
    requires ConvertLines(lines).error.None?
    ensures var out := ConvertLines(lines).bytes;
      var tokens := Tokens(lines);
      && |out| == 4 * |tokens|
      && forall k :: 0 <= k < |tokens| ==>
           ParseHex(tokens[k]).Some? && DecodeU32(out, 4 * k) == ParseHex(tokens[k]).value
  {
    PackedCount(Tokens(lines));
    PackedValues(Tokens(lines));
  }

  /** The lines that have no '/'. */
  function Uncommented(lines: seq<string>): seq<string>
  {
    if |lines| == 0 then []
    else if IsComment(lines[0]) then Uncommented(lines[1..])
    else [lines[0]] + Uncommented(lines[1..])
  }

  /** Comment lines add nothing: dropping all of them leaves the output as it was. */
  lemma {:induction false} CommentLinesIgnored(lines: seq<string>)
    ensures Tokens(Uncommented(lines)) == Tokens(lines)
    ensures ConvertLines(Uncommented(lines)) == ConvertLines(lines)
    decreases |lines|
  {
    if |lines| > 0 {
      CommentLinesIgnored(lines[1..]);
      if !IsComment(lines[0]) {
        assert ([lines[0]] + Uncommented(lines[1..]))[1..] == Uncommented(lines[1..]);
      }
    }
  }

  /** A line that holds a '/' anywhere is a comment line. */
  lemma CommentLine(line: string)
    ensures IsComment(line) <==> '/' in line
    ensures '/' in line ==> LineTokens(line) == []
  {
    FindChar(line, '/');
  }

  /**
   * Each token is its white-space-separated word without the commas,
   * spaces, tabs and newlines at either end.
   */
  lemma TokenTrimmed(line: string, k: nat)
    requires !IsComment(line) && k < |Split(line)|
    ensures var word := Split(line)[k];
      var token := LineTokens(line)[k];
      var i := |word| - |StripLeft(word, TokenTrim)|;
      && |LineTokens(line)| == |Split(line)|
      && i + |token| <= |word| && token == word[i..i + |token|]
      && (forall c :: 0 <= c < i ==> word[c] in TokenTrim)
      && (forall c :: i + |token| <= c < |word| ==> word[c] in TokenTrim)
      && (|token| > 0 ==> token[0] !in TokenTrim && token[|token| - 1] !in TokenTrim)
  {
    StripSpec(Split(line)[k], TokenTrim);
    StripAllAt(Split(line), k);
  }

  // ---------------------------------------------------------------- round trip

  /** A word as the Intel .dat files write it: "0x", eight hex digits and a comma. */
  function Cell(w: U32): string
  {
    "0x" + HexDigits(w, 8) + ","
  }

  /** A .dat line: each word's cell followed by a tab, then a newline. */
  function DatLine(ws: seq<U32>): string
  {
    if |ws| == 0 then "\n" else Cell(ws[0]) + "\t" + DatLine(ws[1..])
  }

  /** The little-endian encodings of the words, one after the other. */
  function EncodeAll(ws: seq<U32>): (out: seq<Byte>)
    ensures |out| == 4 * |ws|
  {
    if |ws| == 0 then [] else EncodeU32(ws[0]) + EncodeAll(ws[1..])
  }

  lemma Pow16Of8()
    ensures Pow16(8) == U32Modulus
  {
    assert Pow16(2) == 256;
    assert Pow16(4) == 65536;
    assert Pow16(6) == 16777216;
  }

  /** A cell is one token: no white space, and no '/' to make its line a comment. */
  lemma CellText(w: U32)
    ensures |Cell(w)| > 0 && NoSpace(Cell(w)) && '/' !in Cell(w)
  {
    var digits := HexDigits(w, 8);
    HexDigitsChars(w, 8);
    forall k | 0 <= k < |Cell(w)|
      ensures Cell(w)[k] !in Whitespace && Cell(w)[k] != '/'
    {
      if 2 <= k < 10 {
        assert Cell(w)[k] == digits[k - 2];
      }
    }
  }

  /** Stripping a cell drops its comma. */
  lemma CellStrip(w: U32)
    ensures Strip(Cell(w), TokenTrim) == "0x" + HexDigits(w, 8)
  {
    var digits := HexDigits(w, 8);
    var s := "0x" + digits;
    assert Cell(w) == s + [','];
    assert s[0] == '0' && s[|s| - 1] == digits[7];
    StripTrailing(s, ',', TokenTrim);
  }

  /** The stripped cell reads back as the word. */
  lemma CellValue(w: U32)
    ensures ParseHex(Strip(Cell(w), TokenTrim)) == Some(w as int)
  {
    CellStrip(w);
    Pow16Of8();
    ParseRendered(w, 8);
  }

  /** The cells of the words, in order. */
  function Cells(ws: seq<U32>): seq<string>
  {
    if |ws| == 0 then [] else [Cell(ws[0])] + Cells(ws[1..])
  }

  lemma {:induction false} DatLineText(ws: seq<U32>)
    ensures '/' !in DatLine(ws)
    ensures Split(DatLine(ws)) == Cells(ws)
    decreases |ws|
  {
    if |ws| == 0 {
      assert Split("\n") == Split("\n"[1..]);
    } else {
      DatLineText(ws[1..]);
      CellText(ws[0]);
      SplitToken(Cell(ws[0]), '\t', DatLine(ws[1..]));
      assert DatLine(ws) == Cell(ws[0]) + ['\t'] + DatLine(ws[1..]);
    }
  }

  lemma {:induction false} PackCells(ws: seq<U32>)
    ensures PackAll(StripAll(Cells(ws))) == Conversion(EncodeAll(ws), None)
    decreases |ws|
  {
    if |ws| > 0 {
      PackCells(ws[1..]);
      CellValue(ws[0]);
      PackAllCons(StripAll(Cells(ws)));
      assert StripAll(Cells(ws))[1..] == StripAll(Cells(ws[1..]));
    }
  }

  /**
   * Rendering words as a .dat line and converting it gives back their
   * little-endian encodings: the converter is the inverse of the .dat format.
   */
  lemma DatLineRoundTrip(ws: seq<U32>)
    ensures ConvertLines([DatLine(ws)]) == Conversion(EncodeAll(ws), None)
  {
    var line := DatLine(ws);
    DatLineText(ws);
    CommentLine(line);
    PackCells(ws);
    var tokens := StripAll(Cells(ws));
    assert !IsComment(line);
    assert LineTokens(line) == tokens;
    assert [line][1..] == [];
    assert Tokens([line]) == tokens + [];
    assert tokens + [] == tokens;
    assert ConvertLines([line]) == PackAll(tokens);
  }

  // ---------------------------------------------------------------- output name

  /** Why the converter refuses to start. */
  datatype NameError =
    | NotDat(input: string)
    | OutputExists(output: string)
    | InputMissing(input: string)

  /** fname.split('.dat')[0] + '.bin'. */
  function OutputName(fname: string): string
  {
    TextBefore(fname, ".dat") + ".bin"
  }

  /**
   * The checks made before converting: the input name must contain ".dat",
   * the output must not exist yet, and the input must exist. On success the
   * result is the output name.
   */
  function PlanOutput(fname: string, existing: set<string>): Result<string, NameError>
  {
    if Find(fname, ".dat") == -1 then Failure(NotDat(fname))
    else
      var out := OutputName(fname);
      if out in existing then Failure(OutputExists(out))
      else if fname !in existing then Failure(InputMissing(fname))
      else Success(out)
  }

  /**
   * The output name is the text before the first ".dat" followed by
   * ".bin"; it is never the input name.
   */
  lemma OutputNameSpec(fname: string)
    requires Find(fname, ".dat") != -1
    ensures var i := Find(fname, ".dat");
      && 0 <= i && OccursAt(fname, ".dat", i)
      && (forall j :: 0 <= j < i ==> !OccursAt(fname, ".dat", j))
      && OutputName(fname) == fname[..i] + ".bin"
      && OutputName(fname) != fname
  {
    FindSpec(fname, ".dat");
    var i := Find(fname, ".dat");
    assert fname[i..i + 4] == ".dat";
    assert OutputName(fname)[i..i + 4] == ".bin";
  }

  /**
   * The converter starts exactly when the name contains ".dat", the output
   * does not exist and the input does; so it never overwrites a file. The
   * refusals are checked in order: no ".dat", then an existing output,
   * then a missing input.
   */
  lemma PlanOutputSpec(fname: string, existing: set<string>)
    ensures PlanOutput(fname, existing).Success? <==>
      (exists i :: 0 <= i <= |fname| && OccursAt(fname, ".dat", i))
      && OutputName(fname) !in existing && fname in existing
    ensures PlanOutput(fname, existing).Success? ==>
      && PlanOutput(fname, existing).value == OutputName(fname)
      && PlanOutput(fname, existing).value !in existing
      && PlanOutput(fname, existing).value != fname
    ensures PlanOutput(fname, existing) == Failure(NotDat(fname)) <==>
      forall i :: 0 <= i <= |fname| ==> !OccursAt(fname, ".dat", i)
    ensures PlanOutput(fname, existing) == Failure(OutputExists(OutputName(fname))) <==>
      (exists i :: 0 <= i <= |fname| && OccursAt(fname, ".dat", i))
      && OutputName(fname) in existing
    ensures PlanOutput(fname, existing) == Failure(InputMissing(fname)) <==>
      (exists i :: 0 <= i <= |fname| && OccursAt(fname, ".dat", i))
      && OutputName(fname) !in existing && fname !in existing
  {
    FindSpec(fname, ".dat");
    if Find(fname, ".dat") != -1 {
      OutputNameSpec(fname);
    }
  }
}
