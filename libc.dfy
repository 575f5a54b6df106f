/**
 * The parts of the C library the firmware relies on, stated as functions on
 * sequences of characters: NUL-terminated strings, the <ctype.h> classes,
 * `strstr`, `strtok`, `strtol` in base 16 and the conversion to `uint8_t`.
 */
module LibC {

  datatype Option<T> = None | Some(value: T)

  const NUL: char := 0 as char

  /** A byte: what a `uint8_t` holds. */
  newtype byte = x: int | 0 <= x < 256

  /** The conversion of a C integer to `uint8_t`: reduction modulo 256. */
  function ToByte(x: int): (b: byte)
    ensures 0 <= x < 256 ==> b as int == x
    ensures (b as int - x) % 256 == 0
  {
    (x % 256) as byte
  }

  // ---------------------------------------------------------------------
  // NUL-terminated strings

  /** The C string a NUL-terminated buffer holds: everything before the first NUL. */
  function CStr(s: seq<char>): (r: seq<char>)
    ensures NUL !in r
    ensures r <= s
    ensures |r| < |s| ==> s[|r|] == NUL
  {
    if s == [] || s[0] == NUL then [] else [s[0]] + CStr(s[1..])
  }

  lemma {:induction false} CStrOfCString(s: seq<char>)
    requires NUL !in s
    ensures CStr(s) == s
  {
    if s != [] {
      CStrOfCString(s[1..]);
    }
  }

  /** A C string ends at the first NUL, whatever follows it. */
  lemma {:induction false} CStrStopsAtNul(a: seq<char>, rest: seq<char>)
    requires NUL !in a
    ensures CStr(a + [NUL] + rest) == a
  {
    if a != [] {
      assert (a + [NUL] + rest)[1..] == a[1..] + [NUL] + rest;
      CStrStopsAtNul(a[1..], rest);
    }
  }

  // ---------------------------------------------------------------------
  // <ctype.h>

  /** `isspace` in the "C" locale: space, \t, \n, \v, \f and \r. */
  predicate IsSpace(c: char) {
    c == ' ' || (9 <= c as int <= 13)
  }

  predicate IsDigit(c: char) {
    '0' <= c <= '9'
  }

  /** `isxdigit`: a decimal digit or a letter a-f in either case. */
  predicate IsXDigit(c: char) {
    IsDigit(c) || ('a' <= c <= 'f') || ('A' <= c <= 'F')
  }

  /** The value of a hexadecimal digit. */
  function HexValue(c: char): (v: nat)
    requires IsXDigit(c)
    ensures v < 16
  {
    if IsDigit(c) then c as int - '0' as int
    else if 'a' <= c <= 'f' then c as int - 'a' as int + 10
    else c as int - 'A' as int + 10
  }

  /** The upper-case hexadecimal digit of a value below 16. */
  function HexDigit(v: nat): (c: char)
    requires v < 16
    ensures IsXDigit(c) && HexValue(c) == v
    ensures !('a' <= c <= 'z')
  {
    if v < 10 then ('0' as int + v) as char else ('A' as int + v - 10) as char
  }

  // ---------------------------------------------------------------------
  // Spans, as `strcspn`/`strspn` and the scanf conversions use them

  /** The length of the longest prefix of `s` that does not contain `d`. */
  function SpanNot(s: seq<char>, d: char): (n: nat)
    ensures n <= |s|
    ensures d !in s[..n]
    ensures n < |s| ==> s[n] == d
  {
    if s == [] || s[0] == d then 0 else 1 + SpanNot(s[1..], d)
  }

  /** The length of the longest prefix of `s` made of white space. */
  function SpanSpace(s: seq<char>): (n: nat)
    ensures n <= |s|
    ensures forall i :: 0 <= i < n ==> IsSpace(s[i])
    ensures n < |s| ==> !IsSpace(s[n])
  {
    if s == [] || !IsSpace(s[0]) then 0 else 1 + SpanSpace(s[1..])
  }

  /** The length of the longest prefix of `s` with no white space in it. */
  function SpanNonSpace(s: seq<char>): (n: nat)
    ensures n <= |s|
    ensures forall i :: 0 <= i < n ==> !IsSpace(s[i])
    ensures n < |s| ==> IsSpace(s[n])
  {
    if s == [] || IsSpace(s[0]) then 0 else 1 + SpanNonSpace(s[1..])
  }

  function Min(a: nat, b: nat): nat {
    if a <= b then a else b
  }

  lemma {:induction false} SpanSpaceOf(lead: seq<char>, s: seq<char>)
    requires forall i :: 0 <= i < |lead| ==> IsSpace(lead[i])
    requires s == [] || !IsSpace(s[0])
    ensures SpanSpace(lead + s) == |lead|
    decreases |lead|
  {
    if lead != [] {
      assert (lead + s)[1..] == lead[1..] + s;
      SpanSpaceOf(lead[1..], s);
    } else {
      assert lead + s == s;
    }
  }

  lemma {:induction false} SpanNonSpaceOf(v: seq<char>, tail: seq<char>)
    requires forall i :: 0 <= i < |v| ==> !IsSpace(v[i])
    requires tail == [] || IsSpace(tail[0])
    ensures SpanNonSpace(v + tail) == |v|
    decreases |v|
  {
    if v != [] {
      assert (v + tail)[1..] == v[1..] + tail;
      SpanNonSpaceOf(v[1..], tail);
    } else {
      assert v + tail == tail;
    }
  }

  lemma {:induction false} AllSpace(s: seq<char>)
    requires forall i :: 0 <= i < |s| ==> IsSpace(s[i])
    ensures SpanSpace(s) == |s|
    decreases |s|
  {
    if s != [] {
      AllSpace(s[1..]);
    }
  }

  // ---------------------------------------------------------------------
  // The scanf conversion %Ns

  /**
   * `%Ns` with N = `width`: white space is skipped, then at most `width`
   * characters that are not white space are read. Empty when only white
   * space follows, in which case the conversion fails.
   */
  function ScanWord(s: seq<char>, width: nat): (w: seq<char>)
    ensures |w| <= width
    ensures forall i :: 0 <= i < |w| ==> !IsSpace(w[i])
    ensures forall c :: c in w ==> c in s
  {
    var t := s[SpanSpace(s)..];
    var w := t[..Min(SpanNonSpace(t), width)];
    assert forall i :: 0 <= i < |w| ==> w[i] == s[SpanSpace(s) + i];
    w
  }

  /** After white space, a word ended by white space or the end is read, cut to `width`. */
  lemma ScanWordOf(lead: seq<char>, v: seq<char>, tail: seq<char>, width: nat)
    requires forall i :: 0 <= i < |lead| ==> IsSpace(lead[i])
    requires v != [] && forall i :: 0 <= i < |v| ==> !IsSpace(v[i])
    requires tail == [] || IsSpace(tail[0])
    ensures ScanWord(lead + v + tail, width) == v[..Min(|v|, width)]
  {
    var s := lead + v + tail;
    assert s == lead + (v + tail);
    SpanSpaceOf(lead, v + tail);
    assert s[|lead|..] == v + tail;
    SpanNonSpaceOf(v, tail);
    assert (v + tail)[..Min(|v|, width)] == v[..Min(|v|, width)];
  }

  /** A word that fits the width and stands alone is read whole. */
  lemma ScanWordWhole(v: seq<char>, width: nat)
    requires v != [] && |v| <= width && forall i :: 0 <= i < |v| ==> !IsSpace(v[i])
    ensures ScanWord(v, width) == v
  {
    assert v == [] + v + [];
    ScanWordOf([], v, [], width);
    assert v[..|v|] == v;
  }

  /** Nothing but white space: the conversion reads nothing. */
  lemma ScanWordOfSpace(s: seq<char>, width: nat)
    requires forall i :: 0 <= i < |s| ==> IsSpace(s[i])
    ensures ScanWord(s, width) == []
  {
    AllSpace(s);
  }

  // ---------------------------------------------------------------------
  // strstr

  /** `pat` occurs in `text` at position `i`. */
  predicate OccursAt(text: seq<char>, pat: seq<char>, i: nat) {
    i + |pat| <= |text| && text[i..i + |pat|] == pat
  }

  /** `strstr`: the position of the first occurrence of `pat` in `text`, if any. */
  function FindFirst(text: seq<char>, pat: seq<char>): (r: Option<nat>)
    ensures r.Some? ==> OccursAt(text, pat, r.value)
    ensures r.Some? ==> forall j :: 0 <= j < r.value ==> !OccursAt(text, pat, j)
    ensures r.None? ==> forall j :: 0 <= j ==> !OccursAt(text, pat, j)
    decreases |text|
  {
    if |text| < |pat| then None
    else if text[..|pat|] == pat then Some(0)
    else
      match FindFirst(text[1..], pat)
      case None =>
        assert forall j :: 1 <= j ==> (OccursAt(text, pat, j) <==> OccursAt(text[1..], pat, j - 1));
        None
      case Some(k) =>
        assert forall j :: 1 <= j ==> (OccursAt(text, pat, j) <==> OccursAt(text[1..], pat, j - 1));
        Some(k + 1)
  }

  // ---------------------------------------------------------------------
  // strtok

  /**
   * The tokens `strtok` returns for `s` and the one delimiter `d`, in order:
   * the maximal runs of characters other than `d`. Empty runs (leading,
   * trailing or doubled delimiters) produce no token.
   */
  function Tokens(s: seq<char>, d: char): (r: seq<seq<char>>)
    ensures forall i :: 0 <= i < |r| ==> r[i] != [] && d !in r[i]
    decreases |s|
  {
    if s == [] then []
    else if s[0] == d then Tokens(s[1..], d)
    else
      var n := SpanNot(s, d);
      [s[..n]] + Tokens(s[n..], d)
  }

  /** The pieces joined back with `d` between them. */
  function Join(ts: seq<seq<char>>, d: char): seq<char> {
    if ts == [] then []
    else if |ts| == 1 then ts[0]
    else ts[0] + [d] + Join(ts[1..], d)
  }

  lemma SpanNotOfPiece(t: seq<char>, d: char, rest: seq<char>)
    requires d !in t
    requires rest == [] || rest[0] == d
    ensures SpanNot(t + rest, d) == |t|
  {
    if t != [] {
      assert (t + rest)[1..] == t[1..] + rest;
      SpanNotOfPiece(t[1..], d, rest);
    }
  }

  /** A run that stops inside `x`, or at a delimiter after it, is the run of `x` alone. */
  lemma {:induction false} SpanNotPrefix(x: seq<char>, r: seq<char>, d: char)
    requires r == [] || r[0] == d
    ensures SpanNot(x + r, d) == SpanNot(x, d)
    decreases |x|
  {
    if x != [] && x[0] != d {
      assert (x + r)[0] == x[0] && (x + r)[1..] == x[1..] + r;
      SpanNotPrefix(x[1..], r, d);
    } else if x == [] {
      assert x + r == r;
    }
  }

  /**
   * Splitting at one delimiter: the tokens of `x d y` are the tokens of `x`
   * followed by those of `y`. With `x` or `y` empty this says that leading,
   * trailing and doubled delimiters produce no token.
   */
  lemma {:induction false} TokensSplit(x: seq<char>, d: char, y: seq<char>)
    ensures Tokens(x + [d] + y, d) == Tokens(x, d) + Tokens(y, d)
    decreases |x|
  {
    var s := x + [d] + y;
    if x == [] {
      assert s[0] == d && s[1..] == y;
    } else if x[0] == d {
      assert s[0] == d && s[1..] == x[1..] + [d] + y;
      TokensSplit(x[1..], d, y);
    } else {
      var n := SpanNot(x, d);
      var r := [d] + y;
      assert s == x + r;
      TokensOfRun(x, r, d);
      TokensRun(x, d);
      assert x[n..] + r == x[n..] + [d] + y;
      TokensSplit(x[n..], d, y);
    }
  }

  /**
   * A token at the front of `x`, followed by `r` that starts with a
   * delimiter (or is empty), is the first token of `x + r`.
   */
  lemma TokensOfRun(x: seq<char>, r: seq<char>, d: char)
    requires x != [] && x[0] != d
    requires r == [] || r[0] == d
    ensures 0 < SpanNot(x, d) <= |x|
    ensures Tokens(x + r, d) == [x[..SpanNot(x, d)]] + Tokens(x[SpanNot(x, d)..] + r, d)
  {
    var n := SpanNot(x, d);
    SliceOfConcat(x, r, 0);
    SpanNotPrefix(x, r, d);
    TokensRun(x + r, d);
    SliceOfConcat(x, r, n);
  }

  /** Cutting `x + r` inside `x` cuts `x`. */
  lemma SliceOfConcat(x: seq<char>, r: seq<char>, n: nat)
    requires n <= |x|
    ensures (x + r)[..n] == x[..n] && (x + r)[n..] == x[n..] + r
    ensures n < |x| ==> (x + r)[n] == x[n]
  {
  }

  /** A string that starts with a token: that token, then the tokens of what follows it. */
  lemma TokensRun(s: seq<char>, d: char)
    requires s != [] && s[0] != d
    ensures 0 < SpanNot(s, d) <= |s|
    ensures Tokens(s, d) == [s[..SpanNot(s, d)]] + Tokens(s[SpanNot(s, d)..], d)
  {
  }

  /** A trailing delimiter, or a doubled one, changes nothing. */
  lemma TokensExtraDelimiters(x: seq<char>, d: char, y: seq<char>)
    ensures Tokens(x + [d], d) == Tokens(x, d)
    ensures Tokens(x + [d, d] + y, d) == Tokens(x + [d] + y, d)
  {
    TokensSplit(x, d, []);
    assert x + [d] + [] == x + [d];
    assert x + [d, d] + y == x + [d] + ([d] + y);
    TokensSplit(x, d, [d] + y);
    TokensSplit([], d, y);
    assert [] + [d] + y == [d] + y;
    TokensSplit(x, d, y);
  }

  /** Splitting the joined pieces gives the pieces back, when none is empty or holds `d`. */
  lemma {:induction false} TokensOfJoin(ts: seq<seq<char>>, d: char)
    requires forall i :: 0 <= i < |ts| ==> ts[i] != [] && d !in ts[i]
    ensures Tokens(Join(ts, d), d) == ts
    decreases |ts|
  {
    if ts == [] {
    } else if |ts| == 1 {
      var t := ts[0];
      SpanNotOfPiece(t, d, []);
      assert t + [] == t;
      assert t[..|t|] == t && t[|t|..] == [];
    } else {
      var t, rest := ts[0], Join(ts[1..], d);
      var s := t + [d] + rest;
      assert s == t + ([d] + rest);
      SpanNotOfPiece(t, d, [d] + rest);
      assert s[..|t|] == t;
      assert s[|t|..] == [d] + rest;
      assert ([d] + rest)[1..] == rest;
      TokensOfJoin(ts[1..], d);
      assert ts == [t] + ts[1..];
    }
  }

  /** A delimiter at the front is skipped without changing the tokens. */
  lemma {:induction false} TokensSkipDelimiters(n: nat, d: char, s: seq<char>)
    ensures Tokens(seq(n, _ => d) + s, d) == Tokens(s, d)
  {
    if n > 0 {
      var u := seq(n, _ => d) + s;
      assert u[0] == d;
      assert u[1..] == seq(n - 1, _ => d) + s;
      TokensSkipDelimiters(n - 1, d, s);
    } else {
      assert seq(n, _ => d) + s == s;
    }
  }

  // ---------------------------------------------------------------------
  // strtol(s, NULL, 16)

  /** The length of the longest prefix of `s` made of hexadecimal digits. */
  function HexSpan(s: seq<char>): (n: nat)
    ensures n <= |s|
    ensures forall i :: 0 <= i < n ==> IsXDigit(s[i])
    ensures n < |s| ==> !IsXDigit(s[n])
  {
    if s == [] || !IsXDigit(s[0]) then 0 else 1 + HexSpan(s[1..])
  }

  /** The number a string of hexadecimal digits denotes, most significant first. */
  function HexNumber(ds: seq<char>): (v: nat)
    requires forall i :: 0 <= i < |ds| ==> IsXDigit(ds[i])
  {
    if ds == [] then 0 else 16 * HexNumber(ds[..|ds| - 1]) + HexValue(ds[|ds| - 1])
  }

  /**
   * `strtol(s, NULL, 16)`: leading white space is skipped, one optional sign
   * is read, a "0x"/"0X" prefix is skipped when a hexadecimal digit follows
   * it, and the longest run of hexadecimal digits is converted; no digits
   * give 0. Saturation at LONG_MIN/LONG_MAX is not modelled.
   */
  function StrtolHex(s: seq<char>): (r: int)
    ensures r < 0 ==> '-' in s
    ensures (forall i :: 0 <= i < |s| ==> !IsXDigit(s[i])) ==> r == 0
  {
    var k := SpanSpace(s);
    var t := s[k..];
    var neg := t != [] && t[0] == '-';
    var u := if t != [] && (t[0] == '+' || t[0] == '-') then t[1..] else t;
    var w := if |u| >= 3 && u[0] == '0' && (u[1] == 'x' || u[1] == 'X') && IsXDigit(u[2]) then u[2..] else u;
    var v: int := HexNumber(w[..HexSpan(w)]);
    assert neg ==> s[k] == '-';
    assert forall c :: c in w ==> c in s;
    assert w != [] && IsXDigit(w[0]) ==> w[0] in s;
    if neg then -v else v
  }

  /** Two hexadecimal digits convert to 16 times the first plus the second. */
  lemma StrtolTwoDigits(a: char, b: char)
    requires IsXDigit(a) && IsXDigit(b)
    ensures StrtolHex([a, b]) == 16 * HexValue(a) + HexValue(b)
  {
    var s := [a, b];
    assert s[1..] == [b] && [b][1..] == [];
    assert SpanSpace(s) == 0 && s[0..] == s;
    assert HexSpan([b]) == 1;
    assert HexSpan(s) == 2 && s[..2] == s;
    assert s[..1] == [a] && [a][..0] == [];
    assert HexNumber([a]) == HexValue(a);
  }

  /** A two-character string converts to a value in -15..255. */
  lemma StrtolTwoCharsRange(a: char, b: char)
    ensures -15 <= StrtolHex([a, b]) <= 255
  {
    var s := [a, b];
    assert s[1..] == [b] && [b][1..] == [];
    var t := s[SpanSpace(s)..];
    assert t == [] || t == [b] || t == [a, b];
    var u := if t != [] && (t[0] == '+' || t[0] == '-') then t[1..] else t;
    assert u == [] || u == [b] || u == [a, b];
    assert |u| < 3;
    HexNumberTwoBound(u[..HexSpan(u)]);
  }

  lemma HexNumberTwoBound(ds: seq<char>)
    requires |ds| <= 2
    requires forall i :: 0 <= i < |ds| ==> IsXDigit(ds[i])
    ensures HexNumber(ds) <= (if |ds| == 2 then 255 else 15)
  {
    if |ds| == 2 {
      assert ds[..1][..0] == [];
    } else if |ds| == 1 {
      assert ds[..0] == [];
    }
  }
}
