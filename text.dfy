/**
 * The text primitives of the server: `trim`, the std::string searches it
 * relies on, the stream reads (std::getline and operator>> into a string)
 * that the request parser is built from, and decimal formatting
 * (std::to_string). A `string` stands for a std::string: each char is one
 * byte of the C++ string.
 */
module Text {
  import opened Wrappers

  /** The characters `trim` strips: space, tab, newline and carriage return. */
  predicate IsTrimSpace(c: char) {
    c == ' ' || c == '\t' || c == '\n' || c == '\r'
  }

  /** The characters C's isspace accepts in the "C" locale, which operator>>
      and strtol skip: the four above plus vertical tab and form feed. */
  predicate IsCSpace(c: char) {
    IsTrimSpace(c) || c == '\U{B}' || c == '\U{C}'
  }

  predicate AllTrimSpace(s: string) {
    forall k :: 0 <= k < |s| ==> IsTrimSpace(s[k])
  }

  // ---------------------------------------------------------------- searches

  /** std::string::find on a single character, searching from `from`. */
  function IndexOfFrom(s: string, c: char, from: nat): (r: Option<nat>)
    requires from <= |s|
    ensures r.None? <==> forall k :: from <= k < |s| ==> s[k] != c
    ensures r.Some? ==> from <= r.value < |s| && s[r.value] == c
                        && forall k :: from <= k < r.value ==> s[k] != c
    decreases |s| - from
  {
    if from == |s| then None
    else if s[from] == c then Some(from)
    else IndexOfFrom(s, c, from + 1)
  }

  /** std::string::find(c): the first position of `c`, or none (npos). */
  function IndexOf(s: string, c: char): (r: Option<nat>)
    ensures r.None? <==> c !in s
    ensures r.Some? ==> r.value < |s| && s[r.value] == c && c !in s[..r.value]
  {
    var r := IndexOfFrom(s, c, 0);
    assert r.Some? ==> forall k :: 0 <= k < r.value ==> s[..r.value][k] == s[k];
    r
  }

  /** std::string::rfind(c) on the prefix s[..upto]: the last position of `c`. */
  function LastIndexOfBefore(s: string, c: char, upto: nat): (r: Option<nat>)
    requires upto <= |s|
    ensures r.None? <==> forall k :: 0 <= k < upto ==> s[k] != c
    ensures r.Some? ==> r.value < upto && s[r.value] == c
                        && forall k :: r.value < k < upto ==> s[k] != c
  {
    if upto == 0 then None
    else if s[upto - 1] == c then Some(upto - 1)
    else LastIndexOfBefore(s, c, upto - 1)
  }

  /** std::string::rfind(c): the last position of `c`, or none (npos). */
  function LastIndexOf(s: string, c: char): (r: Option<nat>)
    ensures r.None? <==> c !in s
    ensures r.Some? ==> r.value < |s| && s[r.value] == c && c !in s[r.value + 1..]
  {
    var r := LastIndexOfBefore(s, c, |s|);
    if r.None? then r
    else
      var tail := s[r.value + 1..];
      assert forall k :: 0 <= k < |tail| ==> tail[k] == s[r.value + 1 + k];
      r
  }

  // -------------------------------------------------------------------- trim

  /** find_first_not_of(" \t\n\r") from position `from`. */
  function FirstNonSpace(s: string, from: nat): (r: Option<nat>)
    requires from <= |s|
    ensures r.None? <==> forall k :: from <= k < |s| ==> IsTrimSpace(s[k])
    ensures r.Some? ==> from <= r.value < |s| && !IsTrimSpace(s[r.value])
                        && forall k :: from <= k < r.value ==> IsTrimSpace(s[k])
    decreases |s| - from
  {
    if from == |s| then None
    else if !IsTrimSpace(s[from]) then Some(from)
    else FirstNonSpace(s, from + 1)
  }

  /** find_last_not_of(" \t\n\r") within s[..upto]. */
  function LastNonSpace(s: string, upto: nat): (r: Option<nat>)
    requires upto <= |s|
    ensures r.None? <==> forall k :: 0 <= k < upto ==> IsTrimSpace(s[k])
    ensures r.Some? ==> r.value < upto && !IsTrimSpace(s[r.value])
                        && forall k :: r.value < k < upto ==> IsTrimSpace(s[k])
  {
    if upto == 0 then None
    else if !IsTrimSpace(s[upto - 1]) then Some(upto - 1)
    else LastNonSpace(s, upto - 1)
  }

  /** `trim`: strips leading and trailing space, tab, newline and carriage
      return; a string that is empty or all such characters comes back as is. */
  function Trim(s: string): (r: string)
    ensures AllTrimSpace(s) ==> r == s
    ensures !AllTrimSpace(s) ==>
      && r != [] && !IsTrimSpace(r[0]) && !IsTrimSpace(r[|r| - 1])
      && exists i :: 0 <= i <= |s| - |r| && r == s[i..i + |r|]
           && AllTrimSpace(s[..i]) && AllTrimSpace(s[i + |r|..])
  {
    match FirstNonSpace(s, 0)
    case None => s
    case Some(first) =>
      var last := LastNonSpace(s, |s|).value;
      assert first <= last;
      var r := s[first..last + 1];
      assert AllTrimSpace(s[..first]) by {
        forall k | 0 <= k < first ensures IsTrimSpace(s[..first][k]) { assert s[..first][k] == s[k]; }
      }
      var tail := s[last + 1..];
      assert AllTrimSpace(tail) by {
        forall k | 0 <= k < |tail| ensures IsTrimSpace(tail[k]) { assert tail[k] == s[last + 1 + k]; }
      }
      assert r == s[first..first + |r|];
      r
  }

  /** Surrounding whitespace is exactly what `trim` takes away. */
  lemma TrimSurrounded(before: string, s: string, after: string)
    requires AllTrimSpace(before) && AllTrimSpace(after)
    requires s != [] && !IsTrimSpace(s[0]) && !IsTrimSpace(s[|s| - 1])
    ensures Trim(before + s + after) == s
  {
    var t := before + s + after;
    var first, last := |before|, |before| + |s| - 1;
    assert t[first] == s[0] && t[last] == s[|s| - 1];
    assert forall k :: 0 <= k < first ==> t[k] == before[k];
    assert forall k :: last < k < |t| ==> t[k] == after[k - last - 1];
    assert FirstNonSpace(t, 0) == Some(first);
    assert LastNonSpace(t, |t|) == Some(last);
    assert t[first..last + 1] == s;
  }

  /** Trimming a trimmed string changes nothing more. */
  lemma TrimIdempotent(s: string)
    ensures Trim(Trim(s)) == Trim(s)
  {
    var t := Trim(s);
    if !AllTrimSpace(s) {
      assert !AllTrimSpace(t) by { assert !IsTrimSpace(t[0]); }
      var first := FirstNonSpace(t, 0);
      assert first == Some(0);
      var last := LastNonSpace(t, |t|);
      assert last == Some(|t| - 1);
      assert t[0..|t| - 1 + 1] == t;
    }
  }

  // --------------------------------------------------------- stream reading

  /**
   * One std::getline(stream, line, d) on a stream whose unread text `s` is
   * not empty (on an empty one getline fails): the text up to the first `d`,
   * and what is left after that `d` is consumed.
   */
  function GetLine(s: string, d: char): (r: (string, string))
    requires s != []
    ensures d !in r.0
    ensures s == r.0 + [d] + r.1 || (s == r.0 && r.1 == [])
    ensures |r.1| < |s|
  {
    match IndexOf(s, d)
    case Some(i) =>
      assert s == s[..i] + [d] + s[i + 1..];
      (s[..i], s[i + 1..])
    case None => (s, [])
  }

  /** The pieces that repeated std::getline(stream, piece, d) calls read from
      `s` until one fails: split at every `d`, minus a final empty piece. */
  function Split(s: string, d: char): (r: seq<string>)
    ensures s == [] <==> r == []
    decreases |s|
  {
    if s == [] then [] else var (piece, rest) := GetLine(s, d); [piece] + Split(rest, d)
  }

  /** One std::getline call takes the first piece off the split. */
  lemma SplitStep(s: string, d: char)
    requires s != []
    ensures Split(s, d) == [GetLine(s, d).0] + Split(GetLine(s, d).1, d)
  {
  }

  /** The same step with the pieces already read in front. */
  lemma SplitAdvance(done: seq<string>, s: string, d: char)
    requires s != []
    ensures done + Split(s, d) == (done + [GetLine(s, d).0]) + Split(GetLine(s, d).1, d)
  {
    SplitStep(s, d);
  }

  /** Every piece followed by `d`: what `bodyContent += line + "\n"` builds. */
  function JoinTerminated(pieces: seq<string>, d: char): string {
    if pieces == [] then [] else pieces[0] + [d] + JoinTerminated(pieces[1..], d)
  }

  lemma JoinStep(piece: string, rest: seq<string>, d: char)
    ensures JoinTerminated([piece] + rest, d) == piece + [d] + JoinTerminated(rest, d)
  {
    assert ([piece] + rest)[1..] == rest;
  }

  /** The text arithmetic of one SplitJoin step. */
  lemma TerminatedStep(s: string, piece: string, rest: string, joinedRest: string, d: char)
    requires s != [] && d !in piece
    requires s == piece + [d] + rest || (s == piece && rest == [])
    requires joinedRest == if rest == [] || rest[|rest| - 1] == d then rest else rest + [d]
    ensures piece + [d] + joinedRest == if s[|s| - 1] == d then s else s + [d]
  {
    if s == piece && rest == [] {
      assert s[|s| - 1] in piece;
    } else if rest != [] {
      assert s[|s| - 1] == rest[|rest| - 1];
      if rest[|rest| - 1] != d {
        assert piece + [d] + (rest + [d]) == s + [d];
      }
    }
  }

  /** Splitting loses nothing but whether the last piece was terminated. */
  lemma {:induction false} SplitJoin(s: string, d: char)
    ensures JoinTerminated(Split(s, d), d) == if s == [] || s[|s| - 1] == d then s else s + [d]
    decreases |s|
  {
    if s != [] {
      var (piece, rest) := GetLine(s, d);
      var joinedRest := JoinTerminated(Split(rest, d), d);
      calc {
        JoinTerminated(Split(s, d), d);
        { SplitStep(s, d); }
        JoinTerminated([piece] + Split(rest, d), d);
        { JoinStep(piece, Split(rest, d), d); }
        piece + [d] + joinedRest;
        { SplitJoin(rest, d); TerminatedStep(s, piece, rest, joinedRest, d); }
        if s[|s| - 1] == d then s else s + [d];
      }
    }
  }

  /** No piece holds `d`, and a character absent from `s` is absent from every piece. */
  lemma {:induction false} SplitPieces(s: string, d: char, c: char)
    ensures Unbroken(Split(s, d), d)
    ensures c !in s ==> forall k :: 0 <= k < |Split(s, d)| ==> c !in Split(s, d)[k]
    decreases |s|
  {
    if s != [] {
      SplitStep(s, d);
      var (piece, rest) := GetLine(s, d);
      SplitPieces(rest, d, c);
      var later := Split(rest, d);
      var all := [piece] + later;
      assert Split(s, d) == all;
      assert c !in s ==> c !in piece && c !in rest;
      forall k | 0 <= k < |all|
        ensures d !in all[k] && (c !in s ==> c !in all[k])
      {
        if k > 0 {
          assert all[k] == later[k - 1];
        }
      }
    }
  }

  /** Joining two runs of pieces joins their texts. */
  lemma {:induction false} JoinAppend(a: seq<string>, b: seq<string>, d: char)
    ensures JoinTerminated(a + b, d) == JoinTerminated(a, d) + JoinTerminated(b, d)
  {
    if a == [] {
      assert a + b == b;
    } else {
      assert a + b == [a[0]] + (a[1..] + b);
      assert a == [a[0]] + a[1..];
      JoinStep(a[0], a[1..] + b, d);
      JoinStep(a[0], a[1..], d);
      JoinAppend(a[1..], b, d);
    }
  }

  /** The first `c` of a text is the one right after a prefix free of `c`. */
  lemma IndexOfAt(piece: string, rest: string, c: char)
    requires c !in piece
    ensures IndexOf(piece + [c] + rest, c) == Some(|piece|)
  {
    var s := piece + [c] + rest;
    assert s[|piece|] == c;
    var i := IndexOf(s, c).value;
    assert forall k :: 0 <= k < |piece| ==> s[k] == piece[k];
    assert forall k :: 0 <= k < i ==> s[..i][k] == s[k];
  }

  /** A piece free of `d` and terminated by it is what one getline reads. */
  lemma SplitTerminated(piece: string, rest: string, d: char)
    requires d !in piece
    ensures Split(piece + [d] + rest, d) == [piece] + Split(rest, d)
  {
    var s := piece + [d] + rest;
    IndexOfAt(piece, rest, d);
    assert s[..|piece|] == piece;
    assert s[|piece| + 1..] == rest;
    assert GetLine(s, d) == (piece, rest);
    SplitStep(s, d);
  }

  lemma ConsAppend<T>(x: T, a: seq<T>, b: seq<T>)
    ensures [x] + (a + b) == ([x] + a) + b
  {
  }

  lemma JoinThenMore(head: string, tail: seq<string>, rest: string, d: char)
    ensures JoinTerminated([head] + tail, d) + rest == head + [d] + (JoinTerminated(tail, d) + rest)
  {
    JoinStep(head, tail, d);
  }

  /** No piece contains the delimiter. */
  predicate Unbroken(pieces: seq<string>, d: char) {
    forall k :: 0 <= k < |pieces| ==> d !in pieces[k]
  }

  /** Terminated pieces, then more text: splitting gives the pieces back first. */
  lemma {:induction false} SplitJoinTerminated(pieces: seq<string>, rest: string, d: char)
    requires Unbroken(pieces, d)
    ensures Split(JoinTerminated(pieces, d) + rest, d) == pieces + Split(rest, d)
  {
    if pieces == [] {
      assert JoinTerminated(pieces, d) + rest == rest;
    } else {
      var head, tail := pieces[0], pieces[1..];
      assert pieces == [head] + tail;
      var more := JoinTerminated(tail, d) + rest;
      assert d !in head;
      assert Unbroken(tail, d) by {
        forall k | 0 <= k < |tail| ensures d !in tail[k] {
          assert tail[k] == pieces[k + 1];
        }
      }
      JoinThenMore(head, tail, rest, d);
      SplitJoinTerminated(tail, rest, d);
      SplitTerminated(head, more, d);
      ConsAppend(head, tail, Split(rest, d));
    }
  }

  /** Leading isspace characters, skipped by the sentry of operator>>. */
  function SkipSpace(s: string): (r: string)
    ensures |r| <= |s| && r == s[|s| - |r|..]
    ensures AllCSpace(s[..|s| - |r|])
    ensures r != [] ==> !IsCSpace(r[0])
  {
    if s != [] && IsCSpace(s[0]) then
      var r := SkipSpace(s[1..]);
      assert s[..|s| - |r|] == [s[0]] + s[1..][..|s[1..]| - |r|];
      r
    else s
  }

  predicate AllCSpace(s: string) {
    forall k :: 0 <= k < |s| ==> IsCSpace(s[k])
  }

  /** The longest prefix free of isspace characters, and the rest. */
  function TakeWord(s: string): (r: (string, string))
    ensures s == r.0 + r.1
    ensures !HasCSpace(r.0)
    ensures r.1 != [] ==> IsCSpace(r.1[0])
  {
    if s == [] || IsCSpace(s[0]) then ([], s)
    else
      var (w, rest) := TakeWord(s[1..]);
      assert s == [s[0]] + w + rest;
      ([s[0]] + w, rest)
  }

  predicate HasCSpace(s: string) {
    exists k :: 0 <= k < |s| && IsCSpace(s[k])
  }

  /**
   * `stream >> word` for a std::string target that starts out empty: skip
   * isspace characters, then read up to the next one. When only whitespace
   * is left the read fails and the target stays "".
   */
  function NextToken(s: string): (r: (string, string))
    ensures r.0 == [] <==> AllCSpace(s)
    ensures r.0 == [] ==> r.1 == []
    ensures !HasCSpace(r.0)
    ensures exists n :: 0 <= n <= |s| && AllCSpace(s[..n]) && s[n..] == r.0 + r.1
    ensures r.1 != [] ==> IsCSpace(r.1[0])
  {
    var t := SkipSpace(s);
    if t == [] then
      assert s[..|s|] == s;
      ([], [])
    else
      var r := TakeWord(t);
      assert r.0 != [] by { assert !IsCSpace(t[0]); }
      assert !AllCSpace(s) by { assert s[|s| - |t|] == t[0]; }
      assert s[|s| - |t|..] == r.0 + r.1;
      r
  }

  lemma {:induction false} TakeWordAt(w: string, rest: string)
    requires !HasCSpace(w) && (rest == [] || IsCSpace(rest[0]))
    ensures TakeWord(w + rest) == (w, rest)
  {
    if w == [] {
      assert w + rest == rest;
    } else {
      assert !IsCSpace(w[0]);
      assert !HasCSpace(w[1..]) by {
        forall k | 0 <= k < |w| - 1 ensures !IsCSpace(w[1..][k]) { assert w[1..][k] == w[k + 1]; }
      }
      TakeWordAt(w[1..], rest);
      assert (w + rest)[1..] == w[1..] + rest;
      assert [w[0]] + w[1..] == w;
    }
  }

  /** Reading a word that is followed by whitespace or by nothing gives the word and leaves the rest. */
  lemma NextTokenAt(w: string, rest: string)
    requires w != [] && !HasCSpace(w) && (rest == [] || IsCSpace(rest[0]))
    ensures NextToken(w + rest) == (w, rest)
  {
    assert !IsCSpace((w + rest)[0]);
    TakeWordAt(w, rest);
  }

  /** The same after one space. */
  lemma NextTokenAfterSpace(w: string, rest: string)
    requires w != [] && !HasCSpace(w) && (rest == [] || IsCSpace(rest[0]))
    ensures NextToken(" " + (w + rest)) == (w, rest)
  {
    var t := w + rest;
    assert (" " + t)[1..] == t;
    assert !IsCSpace(t[0]);
    assert SkipSpace(" " + t) == t;
    TakeWordAt(w, rest);
  }

  /** Words without whitespace, joined by spaces, make a single line. */
  lemma WordsOneLine(a: string, b: string, c: string)
    requires !HasCSpace(a) && !HasCSpace(b) && !HasCSpace(c)
    ensures '\n' !in a + " " + b + " " + c
  {
    NoSpaceNoNewline(a);
    NoSpaceNoNewline(b);
    NoSpaceNoNewline(c);
  }

  /** A character absent from a text is absent from every slice of it. */
  lemma NotInSlice(s: string, c: char, lo: nat, hi: nat)
    requires c !in s && lo <= hi <= |s|
    ensures c !in s[lo..hi]
  {
    forall j | 0 <= j < hi - lo ensures s[lo..hi][j] != c { assert s[lo..hi][j] == s[lo + j]; }
  }

  lemma NoSpaceNoNewline(s: string)
    requires !HasCSpace(s)
    ensures '\n' !in s && '\r' !in s
  {
    forall k | 0 <= k < |s| ensures s[k] != '\n' && s[k] != '\r' {
      assert !IsCSpace(s[k]);
    }
  }

  /** A character absent from the line is absent from the word read and from what is left. */
  lemma TokenWithin(s: string, c: char)
    requires c !in s
    ensures c !in NextToken(s).0 && c !in NextToken(s).1
  {
    var r := NextToken(s);
    var n :| 0 <= n <= |s| && AllCSpace(s[..n]) && s[n..] == r.0 + r.1;
    forall k | 0 <= k < |r.0| ensures r.0[k] != c {
      assert r.0[k] == s[n..][k];
    }
    forall k | 0 <= k < |r.1| ensures r.1[k] != c {
      assert r.1[k] == s[n..][|r.0| + k];
    }
  }

  // ------------------------------------------------------- decimal numbers

  predicate IsDigit(c: char) { '0' <= c <= '9' }

  function DigitValue(c: char): (d: nat)
    requires IsDigit(c)
    ensures d < 10
  {
    c as int - '0' as int
  }

  function DigitChar(d: nat): (c: char)
    requires d < 10
    ensures IsDigit(c) && DigitValue(c) == d
  {
    ('0' as int + d) as char
  }

  /** std::to_string of a non-negative value: its decimal digits, no leading zero. */
  function NatToString(n: nat): (r: string)
    ensures r != [] && forall k :: 0 <= k < |r| ==> IsDigit(r[k])
    ensures r[0] == '0' ==> r == "0"
  {
    if n < 10 then [DigitChar(n)] else NatToString(n / 10) + [DigitChar(n % 10)]
  }

  /** The value of a string of decimal digits: the partner of NatToString. */
  function DecimalValue(s: string): nat
    requires forall k :: 0 <= k < |s| ==> IsDigit(s[k])
  {
    if s == [] then 0 else 10 * DecimalValue(s[..|s| - 1]) + DigitValue(s[|s| - 1])
  }

  /** Reading back the digits of NatToString gives the number again. */
  lemma {:induction false} DecimalRoundTrip(n: nat)
    ensures DecimalValue(NatToString(n)) == n
  {
    if n >= 10 {
      DecimalRoundTrip(n / 10);
      var s := NatToString(n);
      assert s[..|s| - 1] == NatToString(n / 10);
    }
  }

  /** Different lengths are written differently. */
  lemma NatToStringInjective(m: nat, n: nat)
    requires NatToString(m) == NatToString(n)
    ensures m == n
  {
    DecimalRoundTrip(m);
    DecimalRoundTrip(n);
  }

  /** `oss << n` for an int: a minus sign before the magnitude when negative. */
  function IntToString(i: int): (r: string)
    ensures r != []
    ensures r[0] == '-' <==> i < 0
    ensures i >= 0 ==> r == NatToString(i)
    ensures i < 0 ==> r[1..] == NatToString(-i)
  {
    if i < 0 then "-" + NatToString(-i) else NatToString(i)
  }

  /** The text `oss << n` writes reads back as `n`: the digits after an optional `-` give its magnitude. */
  lemma IntToStringRoundTrip(i: int)
    ensures i >= 0 ==> DecimalValue(IntToString(i)) == i
    ensures i < 0 ==> 0 - DecimalValue(IntToString(i)[1..]) == i
  {
    if i < 0 {
      DecimalRoundTrip(-i);
    } else {
      DecimalRoundTrip(i);
    }
  }
}
