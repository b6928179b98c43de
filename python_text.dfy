/**
 * The parts of Python 3's built-in string and integer handling that the
 * .dat converter relies on: str.isspace, str.find, str.split() without a
 * separator, str.strip(chars) and int(text, 16). Each is stated as a
 * function over seq<char> together with what it promises, and the hex
 * rendering used to build inputs is proved to be read back by int(text, 16).
 */
module PythonText {
  import opened Wrappers

  /** The characters str.isspace accepts: Unicode white space and the ASCII separators. */
  const Whitespace: set<char> := {
    '\t', '\n', '\U{0B}', '\U{0C}', '\r', '\U{1C}', '\U{1D}', '\U{1E}', '\U{1F}', ' ',
    '\U{85}', '\U{A0}', '\U{1680}',
    '\U{2000}', '\U{2001}', '\U{2002}', '\U{2003}', '\U{2004}', '\U{2005}', '\U{2006}',
    '\U{2007}', '\U{2008}', '\U{2009}', '\U{200A}',
    '\U{2028}', '\U{2029}', '\U{202F}', '\U{205F}', '\U{3000}'
  }

  predicate NoSpace(t: string)
  {
    forall k :: 0 <= k < |t| ==> t[k] !in Whitespace
  }

  // ---------------------------------------------------------------- find

  /** p occurs in s starting at index i. */
  predicate OccursAt(s: string, p: string, i: nat)
  {
    i + |p| <= |s| && s[i..i + |p|] == p
  }

  /** The search behind str.find, from index from onwards. */
  function FindFrom(s: string, p: string, from: nat): int
    requires from <= |s|
    decreases |s| - from
  {
    if from + |p| > |s| then -1
    else if s[from..from + |p|] == p then from
    else FindFrom(s, p, from + 1)
  }

  /** The search from index from finds the first occurrence at or after from, if any. */
  lemma {:induction false} FindFromSpec(s: string, p: string, from: nat)
    requires from <= |s|
    ensures var r := FindFrom(s, p, from);
      && (r == -1 <==> forall i :: from <= i <= |s| ==> !OccursAt(s, p, i))
      && (r != -1 ==> from <= r && OccursAt(s, p, r))
      && (r != -1 ==> forall i :: from <= i < r ==> !OccursAt(s, p, i))
    decreases |s| - from
  {
    if from + |p| <= |s| {
      if s[from..from + |p|] == p {
        assert OccursAt(s, p, from);
      } else {
        FindFromSpec(s, p, from + 1);
      }
    }
  }

  /** str.find(p): the first index at which p occurs in s, or -1 when it does not occur. */
  function Find(s: string, p: string): int
  {
    FindFrom(s, p, 0)
  }

  /** Find returns -1 exactly when p does not occur, and otherwise its first occurrence. */
  lemma FindSpec(s: string, p: string)
    ensures Find(s, p) == -1 <==> forall i :: 0 <= i <= |s| ==> !OccursAt(s, p, i)
    ensures Find(s, p) != -1 ==>
      && 0 <= Find(s, p) && OccursAt(s, p, Find(s, p))
      && forall i :: 0 <= i < Find(s, p) ==> !OccursAt(s, p, i)
  {
    FindFromSpec(s, p, 0);
  }

  /** For a one-character pattern, str.find(p) != -1 is the membership test. */
  lemma FindChar(s: string, c: char)
    ensures Find(s, [c]) != -1 <==> c in s
  {
    FindSpec(s, [c]);
    var r := Find(s, [c]);
    if r != -1 {
      assert s[r] == s[r..r + 1][0];
    }
    if c in s {
      var i :| 0 <= i < |s| && s[i] == c;
      assert OccursAt(s, [c], i);
    }
  }

  /** s.split(p)[0]: the text before the first occurrence of p, or all of s. */
  function TextBefore(s: string, p: string): string
  {
    var i := Find(s, p);
    if 0 <= i <= |s| then s[..i] else s
  }

  // ---------------------------------------------------------------- split

  /** The longest prefix of s without white space. */
  function Word(s: string): (w: string)
    ensures |w| <= |s|
  {
    if |s| == 0 || s[0] in Whitespace then [] else [s[0]] + Word(s[1..])
  }

  /** Word(s) is the longest prefix of s without white space. */
  lemma {:induction false} WordSpec(s: string)
    ensures var w := Word(s);
      && w == s[..|w|] && NoSpace(w)
      && (|w| == |s| || s[|w|] in Whitespace)
    decreases |s|
  {
    if |s| > 0 && s[0] !in Whitespace {
      WordSpec(s[1..]);
    }
  }

  /** str.split() without a separator: the runs of non-white-space characters, in order. */
  function Split(s: string): seq<string>
    decreases |s|
  {
    if |s| == 0 then []
    else if s[0] in Whitespace then Split(s[1..])
    else
      var w := Word(s);
      [w] + Split(s[|w|..])
  }

  /** Every token of Split is non-empty and holds no white space. */
  lemma {:induction false} SplitTokens(s: string)
    ensures forall k :: 0 <= k < |Split(s)| ==> |Split(s)[k]| > 0 && NoSpace(Split(s)[k])
    decreases |s|
  {
    if |s| > 0 {
      if s[0] in Whitespace {
        SplitTokens(s[1..]);
      } else {
        var w := Word(s);
        WordSpec(s);
        SplitTokens(s[|w|..]);
      }
    }
  }

  /** The characters of s that are not white space, in order. */
  function Visible(s: string): string
  {
    if |s| == 0 then []
    else if s[0] in Whitespace then Visible(s[1..])
    else [s[0]] + Visible(s[1..])
  }

  function Concat(ts: seq<string>): string
  {
    if |ts| == 0 then [] else ts[0] + Concat(ts[1..])
  }

  lemma {:induction false} VisibleAppend(a: string, b: string)
    ensures Visible(a + b) == Visible(a) + Visible(b)
    decreases |a|
  {
    if |a| > 0 {
      assert (a + b)[1..] == a[1..] + b;
      VisibleAppend(a[1..], b);
    } else {
      assert a + b == b;
    }
  }

  lemma {:induction false} VisibleNoSpace(t: string)
    requires NoSpace(t)
    ensures Visible(t) == t
    decreases |t|
  {
    if |t| > 0 {
      VisibleNoSpace(t[1..]);
      assert t == [t[0]] + t[1..];
    }
  }

  /** Splitting loses only white space: the tokens, put together, are the visible text. */
  lemma {:induction false} SplitKeepsText(s: string)
    ensures Concat(Split(s)) == Visible(s)
    decreases |s|
  {
    if |s| > 0 {
      if s[0] in Whitespace {
        SplitKeepsText(s[1..]);
      } else {
        var w := Word(s);
        WordSpec(s);
        SplitKeepsText(s[|w|..]);
        assert s == w + s[|w|..];
        VisibleAppend(w, s[|w|..]);
        VisibleNoSpace(w);
        assert Split(s)[1..] == Split(s[|w|..]);
      }
    }
  }

  lemma {:induction false} WordOfToken(t: string, sep: char, rest: string)
    requires NoSpace(t) && sep in Whitespace
    ensures Word(t + [sep] + rest) == t
    decreases |t|
  {
    var s := t + [sep] + rest;
    if |t| > 0 {
      assert s[1..] == t[1..] + [sep] + rest;
      WordOfToken(t[1..], sep, rest);
      assert t == [t[0]] + t[1..];
    }
  }

  /** A token followed by a white-space character is split off as the first token. */
  lemma SplitToken(t: string, sep: char, rest: string)
    requires |t| > 0 && NoSpace(t) && sep in Whitespace
    ensures Split(t + [sep] + rest) == [t] + Split(rest)
  {
    var s := t + [sep] + rest;
    WordOfToken(t, sep, rest);
    assert s[0] == t[0];
    assert s[|t|..] == [sep] + rest;
    assert ([sep] + rest)[1..] == rest;
  }

  // ---------------------------------------------------------------- strip

  /** str.lstrip(chars). */
  function StripLeft(s: string, chars: set<char>): (r: string)
    ensures |r| <= |s|
  {
    if |s| > 0 && s[0] in chars then StripLeft(s[1..], chars) else s
  }

  /** lstrip removes the longest prefix made of characters from chars. */
  lemma {:induction false} StripLeftSpec(s: string, chars: set<char>)
    ensures var r := StripLeft(s, chars);
      && r == s[|s| - |r|..]
      && (forall k :: 0 <= k < |s| - |r| ==> s[k] in chars)
      && (|r| > 0 ==> r[0] !in chars)
    decreases |s|
  {
    if |s| > 0 && s[0] in chars {
      StripLeftSpec(s[1..], chars);
    }
  }

  /** str.rstrip(chars). */
  function StripRight(s: string, chars: set<char>): (r: string)
    ensures |r| <= |s|
  {
    if |s| > 0 && s[|s| - 1] in chars then StripRight(s[..|s| - 1], chars) else s
  }

  /** rstrip removes the longest suffix made of characters from chars. */
  lemma {:induction false} StripRightSpec(s: string, chars: set<char>)
    ensures var r := StripRight(s, chars);
      && r == s[..|r|]
      && (forall k :: |r| <= k < |s| ==> s[k] in chars)
      && (|r| > 0 ==> r[|r| - 1] !in chars)
    decreases |s|
  {
    if |s| > 0 && s[|s| - 1] in chars {
      StripRightSpec(s[..|s| - 1], chars);
    }
  }

  /**
   * str.strip(chars): s without its longest prefix and its longest suffix
   * made of characters from chars.
   */
  function Strip(s: string, chars: set<char>): (r: string)
  {
    StripRight(StripLeft(s, chars), chars)
  }

  /**
   * Strip keeps one infix s[i..i + |r|]: everything before and after it is
   * in chars, and the infix neither starts nor ends with a character of chars.
   */
  lemma StripSpec(s: string, chars: set<char>)
    ensures var r := Strip(s, chars);
      var i := |s| - |StripLeft(s, chars)|;
      && i + |r| <= |s| && r == s[i..i + |r|]
      && (forall k :: 0 <= k < i ==> s[k] in chars)
      && (forall k :: i + |r| <= k < |s| ==> s[k] in chars)
      && (|r| > 0 ==> r[0] !in chars && r[|r| - 1] !in chars)
  {
    var l := StripLeft(s, chars);
    var r := Strip(s, chars);
    var i := |s| - |l|;
    StripLeftSpec(s, chars);
    StripRightSpec(l, chars);
    assert r == l[..|r|];
    forall k | i + |r| <= k < |s|
      ensures s[k] in chars
    {
      assert s[k] == l[k - i];
    }
  }

  /** A string that neither starts nor ends with a character of chars is left as it is. */
  lemma StripNothing(s: string, chars: set<char>)
    requires |s| > 0 && s[0] !in chars && s[|s| - 1] !in chars
    ensures Strip(s, chars) == s
  {
  }

  /** Stripping a string followed by one character of chars drops that character. */
  lemma StripTrailing(s: string, c: char, chars: set<char>)
    requires |s| > 0 && s[0] !in chars && s[|s| - 1] !in chars && c in chars
    ensures Strip(s + [c], chars) == s
  {
    assert (s + [c])[..|s|] == s;
    assert StripLeft(s + [c], chars) == s + [c];
    assert StripRight(s, chars) == s;
  }

  // ---------------------------------------------------------------- int(text, 16)

  predicate IsHexDigit(c: char)
  {
    '0' <= c <= '9' || 'a' <= c <= 'f' || 'A' <= c <= 'F'
  }

  function DigitValue(c: char): (d: nat)
    requires IsHexDigit(c)
    ensures d < 16
  {
    if c <= '9' then c as int - '0' as int
    else if c <= 'F' then c as int - 'A' as int + 10
    else c as int - 'a' as int + 10
  }

  /**
   * The value in base 16 of hex digits with single underscores between
   * them, as int() accepts them; None for anything else (an empty string,
   * a leading, trailing or doubled underscore, a character that is not a
   * hex digit).
   */
  function GroupedValue(s: string): Option<nat>
  {
    if |s| == 0 || !IsHexDigit(s[|s| - 1]) then None
    else
      var d := DigitValue(s[|s| - 1]);
      var init := s[..|s| - 1];
      if |init| == 0 then Some(d)
      else
        var prev := if init[|init| - 1] == '_' then init[..|init| - 1] else init;
        match GroupedValue(prev)
        case None => None
        case Some(v) => Some(16 * v + d)
  }

  /** The digits that follow an optional 0x or 0X prefix (and the one underscore allowed after it). */
  function HexBody(rest: string): string
  {
    if |rest| >= 2 && rest[0] == '0' && (rest[1] == 'x' || rest[1] == 'X') then
      if |rest| > 2 && rest[2] == '_' then rest[3..] else rest[2..]
    else rest
  }

  /**
   * int(s, 16): surrounding white space is ignored, then an optional sign,
   * an optional 0x or 0X prefix, and well-grouped hex digits. None is the
   * ValueError Python raises for anything else.
   */
  function ParseHex(s: string): Option<int>
  {
    var t := Strip(s, Whitespace);
    var negative := |t| > 0 && t[0] == '-';
    var rest := if |t| > 0 && (t[0] == '+' || t[0] == '-') then t[1..] else t;
    match GroupedValue(HexBody(rest))
    case None => None
    case Some(v) =>
      var value: int := v;
      Some(if negative then -value else value)
  }

  // ---------------------------------------------------------------- rendering

  function HexChar(d: nat): (c: char)
    requires d < 16
    ensures IsHexDigit(c) && DigitValue(c) == d
  {
    if d < 10 then ('0' as int + d) as char else ('a' as int + d - 10) as char
  }

  function Pow16(n: nat): (p: nat)
    ensures p >= 1
  {
    if n == 0 then 1 else 16 * Pow16(n - 1)
  }

  /** The n lowest hex digits of v, most significant first, zero padded (printf's %0nx). */
  function HexDigits(v: nat, n: nat): (s: string)
    ensures |s| == n
  {
    if n == 0 then [] else HexDigits(v / 16, n - 1) + [HexChar(v % 16)]
  }

  /** Every rendered character is a hex digit. */
  lemma {:induction false} HexDigitsChars(v: nat, n: nat)
    ensures forall k :: 0 <= k < n ==> IsHexDigit(HexDigits(v, n)[k])
  {
    if n > 0 {
      HexDigitsChars(v / 16, n - 1);
      var s := HexDigits(v, n);
      assert forall k :: 0 <= k < n - 1 ==> s[k] == HexDigits(v / 16, n - 1)[k];
    }
  }

  /** n zero-padded digits give back any value below 16^n. */
  lemma {:induction false} HexDigitsValue(v: nat, n: nat)
    requires 0 < n && v < Pow16(n)
    ensures GroupedValue(HexDigits(v, n)) == Some(v)
  {
    var s := HexDigits(v, n);
    HexDigitsChars(v, n);
    assert s[..n - 1] == HexDigits(v / 16, n - 1);
    if n > 1 {
      HexDigitsChars(v / 16, n - 1);
      HexDigitsValue(v / 16, n - 1);
    }
  }

  /** int(text, 16) reads back "0x" followed by at least one zero-padded digit of v. */
  lemma ParseRendered(v: nat, n: nat)
    requires 0 < n && v < Pow16(n)
    ensures ParseHex("0x" + HexDigits(v, n)) == Some(v)
  {
    var digits := HexDigits(v, n);
    var s := "0x" + digits;
    assert s[0] == '0' && s[|s| - 1] == digits[n - 1];
    StripNothing(s, Whitespace);
    assert s[2..] == digits;
    HexDigitsChars(v, n);
    HexDigitsValue(v, n);
  }
}
