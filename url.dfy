/**
 * `urlDecode`: `+` becomes a space and `%XX` one byte. The two characters
 * after a `%` are handed to std::stoi(hex, nullptr, 16), whose exception on
 * text with no leading hex number is the Failure here.
 */
module Url {
  import opened Wrappers
  import opened Text

  /** std::stoi found no number in the two characters after a `%`. */
  datatype DecodeError = InvalidHexEscape

  function HexDigitValue(c: char): (r: Option<nat>)
    ensures r.Some? ==> r.value < 16
  {
    if '0' <= c <= '9' then Some(c as int - '0' as int)
    else if 'a' <= c <= 'f' then Some(c as int - 'a' as int + 10)
    else if 'A' <= c <= 'F' then Some(c as int - 'A' as int + 10)
    else None
  }

  /**
   * std::stoi(s, nullptr, 16) on the two-character string [a, b], following
   * strtol: optional leading isspace, an optional sign, then as many hex
   * digits as there are ("0x" yields the 0 before the x); no digit at all
   * throws std::invalid_argument, here None.
   */
  function HexValue(a: char, b: char): (r: Option<int>)
    ensures r.Some? ==> -15 <= r.value <= 255
    ensures r.None? <==>
      HexDigitValue(a).None? && ((!IsCSpace(a) && a != '+' && a != '-') || HexDigitValue(b).None?)
    ensures HexDigitValue(a).Some? && HexDigitValue(b).Some? ==>
      r == Some(16 * HexDigitValue(a).value + HexDigitValue(b).value)
    ensures HexDigitValue(a).Some? && HexDigitValue(b).None? ==> r == Some(HexDigitValue(a).value as int)
    ensures (IsCSpace(a) || a == '+') && HexDigitValue(b).Some? ==> r == Some(HexDigitValue(b).value as int)
    ensures a == '-' && HexDigitValue(b).Some? ==> r == Some(0 - HexDigitValue(b).value as int)
  {
    match HexDigitValue(a)
    case Some(h) =>
      (match HexDigitValue(b)
       case Some(l) => Some(16 * h + l)
       case None => Some(h))
    case None =>
      if IsCSpace(a) || a == '+' then HexDigitValue(b)
      else if a == '-' && HexDigitValue(b).Some? then Some(0 - HexDigitValue(b).value as int)
      else None
  }

  /** static_cast<char> of the parsed int: its low byte. */
  function ByteChar(v: int): (c: char)
    ensures c as int == v % 256
    ensures 0 <= v < 256 ==> c as int == v
  {
    (v % 256) as char
  }

  function Prepend(p: string, r: Result<string, DecodeError>): Result<string, DecodeError> {
    match r
    case Success(t) => Success(p + t)
    case Failure(e) => Failure(e)
  }

  /**
   * What `urlDecode` returns for `s`, character by character from the
   * front. A `%` with at least two characters after it takes them as hex;
   * a `%` closer to the end than that is kept as it is.
   */
  function PercentDecoded(s: string): (r: Result<string, DecodeError>)
    ensures r.Success? ==> |r.value| <= |s|
    decreases |s|
  {
    if s == [] then Success([])
    else if s[0] == '%' && 2 < |s| then
      match HexValue(s[1], s[2])
      case None => Failure(InvalidHexEscape)
      case Some(v) => Prepend([ByteChar(v)], PercentDecoded(s[3..]))
    else Prepend([if s[0] == '+' then ' ' else s[0]], PercentDecoded(s[1..]))
  }

  lemma PrependEmpty(r: Result<string, DecodeError>)
    ensures Prepend([], r) == r
  {
    if r.Success? {
      assert [] + r.value == r.value;
    }
  }

  lemma PrependAppend(p: string, q: string, r: Result<string, DecodeError>)
    ensures Prepend(p, Prepend(q, r)) == Prepend(p + q, r)
  {
    if r.Success? {
      assert p + (q + r.value) == (p + q) + r.value;
    }
  }

  /** `urlDecode` (src/squirrel.cpp): the index loop that appends to `decoded`. */
  method UrlDecode(str: string) returns (r: Result<string, DecodeError>)
    ensures r == PercentDecoded(str)
  {
    var decoded := "";
    var i := 0;
    assert str[0..] == str;
    PrependEmpty(PercentDecoded(str));
    while i < |str|
      invariant 0 <= i <= |str|
      invariant PercentDecoded(str) == Prepend(decoded, PercentDecoded(str[i..]))
    {
      var rest := str[i..];
      if str[i] == '%' {
        if i + 2 < |str| {
          var hex := HexValue(str[i + 1], str[i + 2]);
          if hex.None? {
            return Failure(InvalidHexEscape);
          }
          assert rest[3..] == str[i + 3..];
          PrependAppend(decoded, [ByteChar(hex.value)], PercentDecoded(str[i + 3..]));
          decoded := decoded + [ByteChar(hex.value)];
          i := i + 2;
        } else {
          assert rest[1..] == str[i + 1..];
          PrependAppend(decoded, [str[i]], PercentDecoded(str[i + 1..]));
          decoded := decoded + [str[i]];
        }
      } else if str[i] == '+' {
        assert rest[1..] == str[i + 1..];
        PrependAppend(decoded, [' '], PercentDecoded(str[i + 1..]));
        decoded := decoded + [' '];
      } else {
        assert rest[1..] == str[i + 1..];
        PrependAppend(decoded, [str[i]], PercentDecoded(str[i + 1..]));
        decoded := decoded + [str[i]];
      }
      i := i + 1;
    }
    assert str[i..] == [];
    assert decoded + [] == decoded;
    r := Success(decoded);
  }

  /** Text with no `%` decodes without failing, `+` to space and every other character as is. */
  lemma {:induction false} DecodeWithoutPercent(s: string)
    requires '%' !in s
    ensures PercentDecoded(s).Success?
    ensures |PercentDecoded(s).value| == |s|
    ensures forall k :: 0 <= k < |s| ==>
      PercentDecoded(s).value[k] == if s[k] == '+' then ' ' else s[k]
    decreases |s|
  {
    if s != [] {
      assert '%' !in s[1..] by { assert forall k :: 0 <= k < |s| - 1 ==> s[1..][k] == s[k + 1]; }
      DecodeWithoutPercent(s[1..]);
    }
  }

  /**
   * A `%` whose two following characters `std::stoi` reads a number from
   * becomes the low byte of that number, and all three are consumed, even
   * when the number came from only part of them.
   */
  lemma DecodeEscape(a: char, b: char, rest: string)
    requires HexValue(a, b).Some?
    ensures PercentDecoded(['%', a, b] + rest)
         == Prepend([ByteChar(HexValue(a, b).value)], PercentDecoded(rest))
  {
    var s := ['%', a, b] + rest;
    assert s[3..] == rest;
  }

  /** Partly parsed escapes: "%4G" loses the `G`, "%-1" is the byte 255 and "% A" the byte 10. */
  lemma PartialEscapeExample(rest: string)
    ensures PercentDecoded(['%', '4', 'G'] + rest) == Prepend([4 as char], PercentDecoded(rest))
    ensures PercentDecoded(['%', '-', '1'] + rest) == Prepend([255 as char], PercentDecoded(rest))
    ensures PercentDecoded(['%', ' ', 'A'] + rest) == Prepend([10 as char], PercentDecoded(rest))
  {
    DecodeEscape('4', 'G', rest);
    DecodeEscape('-', '1', rest);
    DecodeEscape(' ', 'A', rest);
  }

  /** Text without escapes as it decodes: each `+` a space, every other character as it is. */
  function Plus(s: string): (r: string)
    ensures |r| == |s|
    ensures forall k :: 0 <= k < |s| ==> r[k] == if s[k] == '+' then ' ' else s[k]
  {
    if s == [] then [] else [if s[0] == '+' then ' ' else s[0]] + Plus(s[1..])
  }

  /** A prefix without `%` decodes on its own, whatever follows it. */
  lemma {:induction false} PlainPrefix(p: string, rest: string)
    requires '%' !in p
    ensures PercentDecoded(p + rest) == Prepend(Plus(p), PercentDecoded(rest))
    decreases |p|
  {
    if p == [] {
      assert p + rest == rest;
      PrependEmpty(PercentDecoded(rest));
    } else {
      var c := if p[0] == '+' then ' ' else p[0];
      assert '%' !in p[1..] by { assert forall k :: 0 <= k < |p| - 1 ==> p[1..][k] == p[k + 1]; }
      calc {
        PercentDecoded(p + rest);
        { assert (p + rest)[0] == p[0] && (p + rest)[1..] == p[1..] + rest; }
        Prepend([c], PercentDecoded(p[1..] + rest));
        { PlainPrefix(p[1..], rest); }
        Prepend([c], Prepend(Plus(p[1..]), PercentDecoded(rest)));
        { PrependAppend([c], Plus(p[1..]), PercentDecoded(rest)); }
        Prepend(Plus(p), PercentDecoded(rest));
      }
    }
  }

  /**
   * A `%` with fewer than two characters after it is kept as a literal,
   * after any prefix without `%` (as in "100%", "ab%c" or "ab%%").
   */
  lemma DecodeTrailingPercent(p: string, t: string)
    requires '%' !in p && |t| <= 1
    ensures PercentDecoded(p + "%" + t) == Success(Plus(p) + "%" + Plus(t))
  {
    if t != [] {
      assert t[1..] == [];
      assert PercentDecoded(t[1..]) == Success([]);
    }
    assert PercentDecoded(t) == Success(Plus(t));
    var tail := "%" + t;
    assert tail[1..] == t;
    assert PercentDecoded(tail) == Prepend("%", PercentDecoded(t));
    assert p + "%" + t == p + tail;
    PlainPrefix(p, tail);
    assert Plus(p) + ("%" + Plus(t)) == Plus(p) + "%" + Plus(t);
  }

  /**
   * A `%` with two characters after it that `std::stoi` finds no number in
   * makes the whole decoding fail, after any prefix without `%` and
   * whatever follows.
   */
  lemma DecodeBadEscape(p: string, a: char, b: char, rest: string)
    requires '%' !in p && HexValue(a, b).None?
    ensures PercentDecoded(p + ['%', a, b] + rest) == Failure(InvalidHexEscape)
  {
    var tail := ['%', a, b] + rest;
    assert tail[1] == a && tail[2] == b;
    assert p + ['%', a, b] + rest == p + tail;
    PlainPrefix(p, tail);
  }

  /** Decoding example: `+` stands for a space. */
  lemma PlusExample(words: string)
    requires words == "hello+world"
    ensures PercentDecoded(words) == Success("hello world")
  {
    DecodeWithoutPercent(words);
    var spaced := PercentDecoded(words).value;
    assert |spaced| == |"hello world"|;
    assert forall k :: 0 <= k < |spaced| ==> spaced[k] == "hello world"[k];
    assert spaced == "hello world";
  }

  /** Decoding example: `%2F` is a slash. */
  lemma EscapeExample()
    ensures PercentDecoded("%2Fslash") == Success("/slash")
  {
    var slash := "slash";
    assert ['/'] + slash == "/slash";
    assert ['%', '2', 'F'] + slash == "%2Fslash";
    assert ByteChar(16 * 2 + 15) == '/';
    assert PercentDecoded(slash) == Success(slash) by {
      DecodeWithoutPercent(slash);
      var plain := PercentDecoded(slash).value;
      assert |plain| == |slash|;
      assert forall k :: 0 <= k < |slash| ==> plain[k] == slash[k];
      assert plain == slash;
    }
    DecodeEscape('2', 'F', slash);
  }

  // ---------------------------------------------- partner: percent-encoding

  function HexDigitUpper(d: nat): (c: char)
    requires d < 16
    ensures HexDigitValue(c) == Some(d)
  {
    if d < 10 then ('0' as int + d) as char else ('A' as int + d - 10) as char
  }

  /** Every byte written as `%` and two upper-case hex digits. */
  function PercentEncoded(s: string): (r: string)
    requires forall k :: 0 <= k < |s| ==> s[k] as int < 256
    ensures |r| == 3 * |s|
  {
    if s == [] then []
    else ['%', HexDigitUpper(s[0] as int / 16), HexDigitUpper(s[0] as int % 16)] + PercentEncoded(s[1..])
  }

  /** The two hex digits of a byte give the byte back. */
  lemma HexDigitsOfByte(b: char)
    requires b as int < 256
    ensures HexDigitValue(HexDigitUpper(b as int / 16)) == Some(b as int / 16)
    ensures HexDigitValue(HexDigitUpper(b as int % 16)) == Some(b as int % 16)
    ensures ByteChar(16 * (b as int / 16) + b as int % 16) == b
  {
  }

  lemma EncodedStep(s: string)
    requires s != [] && forall k :: 0 <= k < |s| ==> s[k] as int < 256
    ensures PercentEncoded(s) ==
      ['%', HexDigitUpper(s[0] as int / 16), HexDigitUpper(s[0] as int % 16)] + PercentEncoded(s[1..])
  {
  }

  /** Decoding undoes percent-encoding of any byte string. */
  lemma {:induction false} DecodeEncoded(s: string)
    requires forall k :: 0 <= k < |s| ==> s[k] as int < 256
    ensures PercentDecoded(PercentEncoded(s)) == Success(s)
  {
    if s != [] {
      var b, rest := s[0], s[1..];
      var hi, lo := HexDigitUpper(b as int / 16), HexDigitUpper(b as int % 16);
      assert forall k :: 0 <= k < |rest| ==> rest[k] as int < 256 by {
        assert forall k :: 0 <= k < |rest| ==> rest[k] == s[k + 1];
      }
      HexDigitsOfByte(b);
      calc {
        PercentDecoded(PercentEncoded(s));
        { EncodedStep(s); }
        PercentDecoded(['%', hi, lo] + PercentEncoded(rest));
        { DecodeEscape(hi, lo, PercentEncoded(rest)); }
        Prepend([b], PercentDecoded(PercentEncoded(rest)));
        { DecodeEncoded(rest); }
        Prepend([b], Success(rest));
        { assert [b] + rest == s; }
        Success(s);
      }
    }
  }
}
