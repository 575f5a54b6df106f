/**
 * The settings portal: a store of string settings in the NVS namespace
 * "config", and the HTTP handlers that show and change them. The page
 * handler fills the current LED colour into an HTML template, the JSON
 * handler reports the three settings, and the form handler decodes an
 * `application/x-www-form-urlencoded` body and writes every well-formed
 * pair, then either asks for a restart (Wi-Fi credentials changed) or
 * redirects back to the page.
 */
module ConfigPortal {
  import opened LibC
  import opened Nvs
  import opened Httpd

  const NAMESPACE: string := "config"
  /** The colour the page shows when none is stored. */
  const DEFAULT_COLOR: string := "#23A55A"
  const PLACEHOLDER: string := "{{LED_COLOR}}"

  /** Buffer sizes of the handlers, terminating NUL included. */
  const BODY_BUF: nat := 512
  const INDEX_BUF: nat := 1024
  const JSON_BUF: nat := 256
  const SSID_BUF: nat := 32
  const PASS_BUF: nat := 64
  const COLOR_BUF: nat := 8

  /** Field widths of the pair pattern `%31[^=]=%127s`. */
  const KEY_WIDTH: nat := 31
  const VALUE_WIDTH: nat := 127

  const REBOOT_MESSAGE: string := "Wi-Fi settings saved. Rebooting..."
  const REDIRECT_LOCATION: string := "/?saved=1"
  const REDIRECT_MESSAGE: string := "Redirecting..."

  // =====================================================================
  // The settings store

  /** `save_setting`: one write to namespace "config"; a refused write keeps the old value. */
  method SaveSetting(store: Store, key: string, value: string) returns (err: EspErr)
    modifies store`spaces
    ensures err == WriteStatus(key, value, store.full)
    ensures store.spaces == Written(old(store.spaces), NAMESPACE, key, value, store.full)
    ensures err != EspOk ==> store.spaces == old(store.spaces)
  {
    err := store.SetStr(NAMESPACE, key, value);
  }

  /** `load_setting`: one read from namespace "config" into a buffer of `cap` bytes. */
  method LoadSetting(store: Store, key: string, cap: nat) returns (r: Result<string>)
    ensures r.Ok? <==> key in Entries(store.spaces, NAMESPACE) && |Entries(store.spaces, NAMESPACE)[key]| < cap
    ensures r.Ok? ==> r.value == store.spaces[NAMESPACE][key]
    ensures r == Read(store.spaces, NAMESPACE, key, cap)
  {
    r := store.GetStr(NAMESPACE, key, cap);
  }

  /** A setting as a handler sees it: its buffer is preset to `default` and kept if the load fails. */
  function Setting(spaces: Namespaces, key: string, cap: nat, default: string): string {
    ReadOr(spaces, NAMESPACE, key, cap, default)
  }

  // =====================================================================
  // url_decode

  /** The digit arithmetic of `url_decode`: fold lower case to upper, then subtract '0' or 'A' - 10. */
  function SourceDigit(c: char): (v: int)
    ensures IsXDigit(c) ==> v == HexValue(c)
  {
    var up := if c >= 'a' then c as int - ('a' as int - 'A' as int) else c as int;
    if up >= 'A' as int then up - 'A' as int + 10 else up - '0' as int
  }

  /** `s` starts with '%' and two hexadecimal digits. */
  predicate EscapeAt(s: seq<char>) {
    |s| >= 3 && s[0] == '%' && IsXDigit(s[1]) && IsXDigit(s[2])
  }

  /** The character a `%XX` escape stands for: the byte 16 * X + X. */
  function Unescaped(a: char, b: char): (c: char)
    requires IsXDigit(a) && IsXDigit(b)
    ensures c as int == 16 * HexValue(a) + HexValue(b) < 256
  {
    (16 * SourceDigit(a) + SourceDigit(b)) as char
  }

  /**
   * What `url_decode` writes for `s`: each `%XX` escape becomes one byte,
   * each '+' a space, and every other character, a '%' without two
   * hexadecimal digits after it included, is copied.
   */
  function UrlDecoded(s: seq<char>): seq<char>
    decreases |s|
  {
    if s == [] then []
    else if EscapeAt(s) then [Unescaped(s[1], s[2])] + UrlDecoded(s[3..])
    else if s[0] == '+' then [' '] + UrlDecoded(s[1..])
    else [s[0]] + UrlDecoded(s[1..])
  }

  /** `url_decode`: walks the C string `src` and appends to `dst` one decoded character per step. */
  method UrlDecode(src: seq<char>) returns (dst: seq<char>)
    requires NUL !in src
    ensures dst == UrlDecoded(src)
  {
    dst := [];
    var i := 0;
    while i < |src|
      invariant 0 <= i <= |src|
      invariant dst + UrlDecoded(src[i..]) == UrlDecoded(src)
    {
      DecodeStep(src, i);
      if src[i] == '%' && i + 2 < |src| && IsXDigit(src[i + 1]) && IsXDigit(src[i + 2]) {
        var a := SourceDigit(src[i + 1]);
        var b := SourceDigit(src[i + 2]);
        var c := (16 * a + b) as char;
        assert c == Unescaped(src[i + 1], src[i + 2]);
        Appended(dst, c, UrlDecoded(src[i + 3..]));
        dst := dst + [c];
        i := i + 3;
      } else if src[i] == '+' {
        Appended(dst, ' ', UrlDecoded(src[i + 1..]));
        dst := dst + [' '];
        i := i + 1;
      } else {
        Appended(dst, src[i], UrlDecoded(src[i + 1..]));
        dst := dst + [src[i]];
        i := i + 1;
      }
    }
    assert src[i..] == [];
  }

  lemma Appended(d: seq<char>, c: char, r: seq<char>)
    ensures d + ([c] + r) == (d + [c]) + r
  {
  }

  /** One step of the decoding loop at position `i`. */
  lemma DecodeStep(s: seq<char>, i: nat)
    requires i < |s|
    ensures EscapeAt(s[i..]) <==> s[i] == '%' && i + 2 < |s| && IsXDigit(s[i + 1]) && IsXDigit(s[i + 2])
    ensures EscapeAt(s[i..]) ==> UrlDecoded(s[i..]) == [Unescaped(s[i + 1], s[i + 2])] + UrlDecoded(s[i + 3..])
    ensures !EscapeAt(s[i..]) && s[i] == '+' ==> UrlDecoded(s[i..]) == [' '] + UrlDecoded(s[i + 1..])
    ensures !EscapeAt(s[i..]) && s[i] != '+' ==> UrlDecoded(s[i..]) == [s[i]] + UrlDecoded(s[i + 1..])
  {
    assert s[i..][1..] == s[i + 1..];
    if EscapeAt(s[i..]) {
      assert s[i..][3..] == s[i + 3..];
    }
  }

  /** Decoding never lengthens its input, so `decoded[128]` holds any decoded value. */
  lemma {:induction false} DecodedNoLonger(s: seq<char>)
    ensures |UrlDecoded(s)| <= |s|
    decreases |s|
  {
    if s == [] {
    } else if EscapeAt(s) {
      DecodedNoLonger(s[3..]);
    } else {
      DecodedNoLonger(s[1..]);
    }
  }

  /** Text with neither '%' nor '+' decodes to itself. */
  lemma {:induction false} DecodePlain(s: seq<char>)
    requires '%' !in s && '+' !in s
    ensures UrlDecoded(s) == s
    decreases |s|
  {
    if s != [] {
      assert s[0] in s;
      assert forall c :: c in s[1..] ==> c in s;
      DecodeStep(s, 0);
      assert s[0..] == s && s[1..] == s[0 + 1..];
      DecodePlain(s[1..]);
      assert s == [s[0]] + s[1..];
    }
  }

  lemma DecodeExample()
    ensures UrlDecoded("a%20b+c") == "a b c"
  {
    var s := "a%20b+c";
    assert s[1..] == "%20b+c" && "%20b+c"[3..] == "b+c";
    assert "b+c"[1..] == "+c" && "+c"[1..] == "c" && "c"[1..] == [];
    assert Unescaped('2', '0') == ' ';
  }

  /** A '%' not followed by two hexadecimal digits is copied, and decoding goes on after it. */
  lemma DecodeBadEscape(b: seq<char>)
    requires !(|b| >= 2 && IsXDigit(b[0]) && IsXDigit(b[1]))
    ensures UrlDecoded(['%'] + b) == ['%'] + UrlDecoded(b)
  {
    var s := ['%'] + b;
    assert s[0] == '%' && s[1..] == b;
    assert |s| >= 3 ==> s[1] == b[0] && s[2] == b[1];
    assert !EscapeAt(s);
  }

  /** A '+' becomes a space, and decoding goes on after it. */
  lemma DecodePlusIsSpace(b: seq<char>)
    ensures UrlDecoded(['+'] + b) == [' '] + UrlDecoded(b)
  {
    assert (['+'] + b)[1..] == b;
  }

  /** An escape `%XX` becomes the byte 16·X + X, and decoding goes on after it. */
  lemma DecodeEscapeIsByte(h: char, l: char, b: seq<char>)
    requires IsXDigit(h) && IsXDigit(l)
    ensures UrlDecoded(['%', h, l] + b) == [(16 * HexValue(h) + HexValue(l)) as char] + UrlDecoded(b)
  {
    assert (['%', h, l] + b)[3..] == b;
  }

  /** Characters without '%' or '+' in front of anything decode one by one. */
  lemma {:induction false} DecodeKeepsPrefix(p: seq<char>, s: seq<char>)
    requires '%' !in p && '+' !in p
    ensures UrlDecoded(p + s) == p + UrlDecoded(s)
    decreases |p|
  {
    if p != [] {
      assert (p + s)[0] == p[0] && (p + s)[1..] == p[1..] + s;
      assert forall c :: c in p[1..] ==> c in p;
      assert p[0] in p;
      assert !EscapeAt(p + s);
      assert UrlDecoded(p + s) == [p[0]] + UrlDecoded(p[1..] + s);
      DecodeKeepsPrefix(p[1..], s);
      assert p == [p[0]] + p[1..];
      assert [p[0]] + (p[1..] + UrlDecoded(s)) == p + UrlDecoded(s);
    } else {
      assert p + s == s;
    }
  }

  // ---------------------------------------------------------------------
  // The encoding a browser applies to a form field, the partner of url_decode

  /**
   * The characters the `application/x-www-form-urlencoded` serializer of the
   * WHATWG URL Standard leaves as they are: letters, digits, '*', '-', '.'
   * and '_'.
   */
  predicate Unreserved(c: char) {
    ('A' <= c <= 'Z') || ('a' <= c <= 'z') || ('0' <= c <= '9') || c == '*' || c == '-' || c == '.' || c == '_'
  }

  predicate IsBytes(s: seq<char>) {
    forall i :: 0 <= i < |s| ==> s[i] as int < 256
  }

  function EncodeChar(c: char): seq<char>
    requires c as int < 256
  {
    if Unreserved(c) then [c]
    else if c == ' ' then ['+']
    else ['%', HexDigit(c as int / 16), HexDigit(c as int % 16)]
  }

  /** `application/x-www-form-urlencoded` encoding of one field value. */
  function FormEncoded(s: seq<char>): seq<char>
    requires IsBytes(s)
  {
    if s == [] then [] else EncodeChar(s[0]) + FormEncoded(s[1..])
  }

  lemma DecodeEncodedChar(c: char, rest: seq<char>)
    requires c as int < 256
    ensures UrlDecoded(EncodeChar(c) + rest) == [c] + UrlDecoded(rest)
  {
    var e := EncodeChar(c) + rest;
    if Unreserved(c) {
      assert e[0] == c && e[1..] == rest;
    } else if c == ' ' {
      assert e[0] == '+' && e[1..] == rest;
    } else {
      var hi, lo := HexDigit(c as int / 16), HexDigit(c as int % 16);
      assert e[0] == '%' && e[1] == hi && e[2] == lo && e[3..] == rest;
      assert Unescaped(hi, lo) == c;
    }
  }

  /** Decoding undoes a browser's encoding of any byte string. */
  lemma {:induction false} DecodeEncode(s: seq<char>)
    requires IsBytes(s)
    ensures UrlDecoded(FormEncoded(s)) == s
    decreases |s|
  {
    if s != [] {
      DecodeEncodedChar(s[0], FormEncoded(s[1..]));
      DecodeEncode(s[1..]);
    }
  }

  // =====================================================================
  // The pair pattern `%31[^=]=%127s`

  datatype Pair = Pair(key: string, value: string)

  /**
   * `sscanf(piece, "%31[^=]=%127s", key, value) == 2`: one to 31 characters
   * other than '=', then '=', then, after any white space, one to 127
   * characters that are not white space. `None` when the count is not 2.
   */
  function ScanPair(p: seq<char>): (r: Option<Pair>)
    ensures r.Some? ==> 1 <= |r.value.key| <= KEY_WIDTH && '=' !in r.value.key
    ensures r.Some? ==> |r.value.key| < |p| && p[..|r.value.key|] == r.value.key && p[|r.value.key|] == '='
    ensures r.Some? ==> 1 <= |r.value.value| <= VALUE_WIDTH
    ensures r.Some? ==> forall i :: 0 <= i < |r.value.value| ==> !IsSpace(r.value.value[i])
    ensures r.Some? && NUL !in p ==> NUL !in r.value.key && NUL !in r.value.value
  {
    var n := Min(SpanNot(p, '='), KEY_WIDTH);
    if n == 0 || n == |p| || p[n] != '=' then None
    else
      var v := ScanWord(p[n + 1..], VALUE_WIDTH);
      if v == [] then None
      else
        assert forall c :: c in p[n + 1..] ==> c in p;
        Some(Pair(p[..n], v))
  }

  /**
   * A key of 1 to 31 characters without '=', then '=', optional white
   * space and a value without white space scans to that key and the first
   * 127 characters of the value.
   */
  lemma ScanPairAccepts(k: seq<char>, lead: seq<char>, v: seq<char>, tail: seq<char>)
    requires 1 <= |k| <= KEY_WIDTH && '=' !in k
    requires forall i :: 0 <= i < |lead| ==> IsSpace(lead[i])
    requires v != [] && forall i :: 0 <= i < |v| ==> !IsSpace(v[i])
    requires tail == [] || IsSpace(tail[0])
    ensures ScanPair(k + ['='] + lead + v + tail) == Some(Pair(k, v[..Min(|v|, VALUE_WIDTH)]))
  {
    var rest := lead + v + tail;
    assert k + ['='] + lead + v + tail == k + ['='] + rest;
    ScanPairOfKey(k, rest);
    ScanWordOf(lead, v, tail, VALUE_WIDTH);
  }

  /** After a key of 1 to 31 characters and '=', the pair is complete exactly when a value follows. */
  lemma ScanPairOfKey(k: seq<char>, rest: seq<char>)
    requires 1 <= |k| <= KEY_WIDTH && '=' !in k
    ensures ScanPair(k + ['='] + rest) == if ScanWord(rest, VALUE_WIDTH) == [] then None
                                         else Some(Pair(k, ScanWord(rest, VALUE_WIDTH)))
  {
    var p := k + ['='] + rest;
    assert p == k + (['='] + rest);
    SpanNotOfPiece(k, '=', ['='] + rest);
    assert p[|k| + 1..] == rest;
    assert p[..|k|] == k;
  }

  /**
   * A piece is refused when it has no '=', starts with '=', has more than
   * 31 characters before its first '=', or has only white space after it.
   */
  lemma ScanPairRefuses(p: seq<char>)
    requires '=' !in p
          || (p != [] && p[0] == '=')
          || SpanNot(p, '=') > KEY_WIDTH
          || (SpanNot(p, '=') < |p| && forall i :: SpanNot(p, '=') < i < |p| ==> IsSpace(p[i]))
    ensures ScanPair(p).None?
  {
    var n := Min(SpanNot(p, '='), KEY_WIDTH);
    if n != 0 && n < |p| && p[n] == '=' {
      ScanWordOfSpace(p[n + 1..], VALUE_WIDTH);
    }
  }

  // =====================================================================
  // POST /save

  /** The pairs the handler stores, in body order. */
  function Accepted(pieces: seq<seq<char>>): seq<Pair> {
    FlatMap(PairOf, pieces)
  }

  /** `f` applied to every element, the results concatenated in order. */
  function FlatMap<A, B>(f: A -> seq<B>, xs: seq<A>): seq<B> {
    if xs == [] then [] else FlatMap(f, xs[..|xs| - 1]) + f(xs[|xs| - 1])
  }

  lemma {:induction false} FlatMapConcat<A, B>(f: A -> seq<B>, xs: seq<A>, ys: seq<A>)
    ensures FlatMap(f, xs + ys) == FlatMap(f, xs) + FlatMap(f, ys)
    decreases |ys|
  {
    if ys == [] {
      assert xs + ys == xs;
    } else {
      var zs := xs + ys;
      assert zs[..|zs| - 1] == xs + ys[..|ys| - 1];
      assert zs[|zs| - 1] == ys[|ys| - 1];
      FlatMapConcat(f, xs, ys[..|ys| - 1]);
    }
  }

  /** The pair a piece gives: none, or the one `ScanPair` finds. */
  function PairOf(piece: seq<char>): seq<Pair> {
    match ScanPair(piece)
    case Some(pr) => [pr]
    case None => []
  }

  /** The value written for a pair: its decoded text, up to a NUL that `%00` may have produced. */
  function Stored(pr: Pair): string {
    CStr(UrlDecoded(pr.value))
  }

  /** The store after writing `pairs` to namespace "config" one after the other. */
  function ApplySaves(spaces: Namespaces, pairs: seq<Pair>, full: bool): Namespaces {
    if pairs == [] then spaces
    else
      var pr := pairs[|pairs| - 1];
      Written(ApplySaves(spaces, pairs[..|pairs| - 1], full), NAMESPACE, pr.key, Stored(pr), full)
  }

  predicate IsCredentialKey(key: string) {
    key == "ssid" || key == "pass"
  }

  /** Some stored pair changes the Wi-Fi credentials. */
  predicate NeedsReboot(pairs: seq<Pair>) {
    exists i :: 0 <= i < |pairs| && IsCredentialKey(pairs[i].key)
  }

  /** The pairs of a received body: the C string in the buffer, split by `strtok` on '&'. */
  function BodyPairs(data: seq<char>): seq<Pair> {
    Accepted(Tokens(CStr(data), '&'))
  }

  /**
   * `save_post_handler`. `ret` is what `httpd_req_recv` returned and `data`
   * the bytes it placed in the buffer; the body must leave room for the
   * terminating NUL. A failed receive answers 500 and writes nothing;
   * otherwise every accepted pair is written in order, and the answer is a
   * restart notice if a credential was among them, else a 303 redirect.
   */
  method SavePost(store: Store, ret: int, data: seq<char>) returns (resp: Response, err: EspErr, restart: bool)
    requires ret <= 0 || (ret == |data| && ret < BODY_BUF)
    modifies store`spaces
    ensures ret <= 0 ==> resp == ServerError && err == EspFail && !restart && store.spaces == old(store.spaces)
    ensures ret > 0 ==> err == EspOk
    ensures ret > 0 ==> store.spaces == ApplySaves(old(store.spaces), BodyPairs(data), store.full)
    ensures ret > 0 ==> restart == NeedsReboot(BodyPairs(data))
    ensures ret > 0 ==> resp == if restart then Page("text/html", REBOOT_MESSAGE)
                                 else SeeOther(REDIRECT_LOCATION, REDIRECT_MESSAGE)
  {
    if ret <= 0 {
      return ServerError, EspFail, false;
    }
    var body := CStr(data);
    var rebootNeeded := SavePieces(store, Tokens(body, '&'), body);
    resp := if rebootNeeded then Page("text/html", REBOOT_MESSAGE) else SeeOther(REDIRECT_LOCATION, REDIRECT_MESSAGE);
    err := EspOk;
    restart := rebootNeeded;
  }

  /** The `strtok` loop of `save_post_handler` over the pieces of `body`. */
  method SavePieces(store: Store, pieces: seq<seq<char>>, ghost body: seq<char>) returns (rebootNeeded: bool)
    requires NUL !in body && pieces == Tokens(body, '&')
    modifies store`spaces
    ensures store.spaces == ApplySaves(old(store.spaces), Accepted(pieces), store.full)
    ensures rebootNeeded == NeedsReboot(Accepted(pieces))
  {
    rebootNeeded := false;
    ghost var saved: seq<Pair> := [];
    var i := 0;
    while i < |pieces|
      invariant 0 <= i <= |pieces|
      invariant saved == Accepted(pieces[..i])
      invariant store.spaces == ApplySaves(old(store.spaces), saved, store.full)
      invariant rebootNeeded == NeedsReboot(saved)
    {
      AcceptedStep(pieces, i);
      TokensOfCString(body, '&', i);
      var credential := SavePiece(store, pieces[i]);
      if credential {
        rebootNeeded := true;
      }
      SavesConcat(old(store.spaces), saved, PairOf(pieces[i]), store.full);
      RebootConcat(saved, PairOf(pieces[i]));
      saved := saved + PairOf(pieces[i]);
      i := i + 1;
    }
    assert pieces[..i] == pieces;
  }

  /**
   * One turn of the `strtok` loop: a piece that scans to a pair has its
   * value decoded and saved, and tells whether its key is a credential.
   */
  method SavePiece(store: Store, piece: seq<char>) returns (credential: bool)
    requires NUL !in piece
    modifies store`spaces
    ensures store.spaces == ApplySaves(old(store.spaces), PairOf(piece), store.full)
    ensures credential == NeedsReboot(PairOf(piece))
  {
    credential := false;
    var found := ScanPair(piece);
    if found.Some? {
      var pr := found.value;
      var decoded := UrlDecode(pr.value);
      var _ := SaveSetting(store, pr.key, CStr(decoded));
      if pr.key == "ssid" || pr.key == "pass" {
        credential := true;
      }
      assert PairOf(piece) == [pr];
      assert [pr][..0] == [] && [pr][0] == pr;
    }
  }

  /** Saving two runs of pairs is saving the first and then the second. */
  lemma {:induction false} SavesConcat(spaces: Namespaces, xs: seq<Pair>, ys: seq<Pair>, full: bool)
    ensures ApplySaves(spaces, xs + ys, full) == ApplySaves(ApplySaves(spaces, xs, full), ys, full)
    decreases |ys|
  {
    if ys == [] {
      assert xs + ys == xs;
    } else {
      var n := |ys| - 1;
      assert (xs + ys)[..|xs + ys| - 1] == xs + ys[..n];
      assert (xs + ys)[|xs + ys| - 1] == ys[n];
      SavesConcat(spaces, xs, ys[..n], full);
    }
  }

  /** Two runs of pairs ask for a restart when either of them does. */
  lemma RebootConcat(xs: seq<Pair>, ys: seq<Pair>)
    ensures NeedsReboot(xs + ys) <==> NeedsReboot(xs) || NeedsReboot(ys)
  {
    if NeedsReboot(xs + ys) {
      var i :| 0 <= i < |xs + ys| && IsCredentialKey((xs + ys)[i].key);
      if i >= |xs| {
        assert ys[i - |xs|] == (xs + ys)[i];
      }
    }
    if NeedsReboot(ys) {
      var i :| 0 <= i < |ys| && IsCredentialKey(ys[i].key);
      assert (xs + ys)[|xs| + i] == ys[i];
    }
    if NeedsReboot(xs) {
      var i :| 0 <= i < |xs| && IsCredentialKey(xs[i].key);
      assert (xs + ys)[i] == xs[i];
    }
  }

  /** One more piece adds its pair, if any, at the end. */
  lemma AcceptedStep(pieces: seq<seq<char>>, i: nat)
    requires i < |pieces|
    ensures Accepted(pieces[..i + 1]) == Accepted(pieces[..i]) + PairOf(pieces[i])
  {
    assert pieces[..i + 1][..i] == pieces[..i];
  }

  /** Writing one more pair: one more store write, and a reboot if it is a credential. */
  lemma SaveStep(spaces: Namespaces, pairs: seq<Pair>, pr: Pair, full: bool)
    ensures ApplySaves(spaces, pairs + [pr], full) == Written(ApplySaves(spaces, pairs, full), NAMESPACE, pr.key, Stored(pr), full)
    ensures NeedsReboot(pairs + [pr]) <==> NeedsReboot(pairs) || IsCredentialKey(pr.key)
  {
    var ps := pairs + [pr];
    assert ps[..|ps| - 1] == pairs;
    if NeedsReboot(ps) && !IsCredentialKey(pr.key) {
      var i :| 0 <= i < |ps| && IsCredentialKey(ps[i].key);
      assert i < |pairs| && ps[i] == pairs[i];
    }
    if NeedsReboot(pairs) {
      var i :| 0 <= i < |pairs| && IsCredentialKey(pairs[i].key);
      assert ps[i] == pairs[i];
    }
    if IsCredentialKey(pr.key) {
      assert ps[|pairs|] == pr;
    }
  }

  /** The tokens of a C string hold no NUL. */
  lemma TokensOfCString(s: seq<char>, d: char, i: nat)
    requires NUL !in s && i < |Tokens(s, d)|
    ensures NUL !in Tokens(s, d)[i]
  {
    TokensWithin(s, d);
  }

  lemma {:induction false} TokensWithin(s: seq<char>, d: char)
    ensures forall i, c :: 0 <= i < |Tokens(s, d)| && c in Tokens(s, d)[i] ==> c in s
    decreases |s|
  {
    if s == [] {
    } else if s[0] == d {
      TokensWithin(s[1..], d);
      assert forall c :: c in s[1..] ==> c in s;
    } else {
      var n := SpanNot(s, d);
      TokensWithin(s[n..], d);
      var ts := Tokens(s, d);
      assert ts == [s[..n]] + Tokens(s[n..], d);
      assert forall c :: c in s[..n] ==> c in s;
      assert forall c :: c in s[n..] ==> c in s;
      forall i, c | 0 <= i < |ts| && c in ts[i]
        ensures c in s
      {
        if i > 0 {
          assert ts[i] == Tokens(s[n..], d)[i - 1];
        }
      }
    }
  }

  /** Accepting pieces one list after another accepts the pairs of each, in order. */
  lemma AcceptedConcat(xs: seq<seq<char>>, ys: seq<seq<char>>)
    ensures Accepted(xs + ys) == Accepted(xs) + Accepted(ys)
  {
    FlatMapConcat(PairOf, xs, ys);
  }

  /** A refused piece, one without '=' for instance, does not change which pairs the others give. */
  lemma SkippedPieceChangesNothing(xs: seq<seq<char>>, p: seq<char>, ys: seq<seq<char>>)
    requires ScanPair(p).None?
    ensures Accepted(xs + [p] + ys) == Accepted(xs + ys)
  {
    AcceptedConcat(xs + [p], ys);
    AcceptedConcat(xs, [p]);
    AcceptedConcat(xs, ys);
    AcceptedOne(p);
    assert Accepted(xs) + [] == Accepted(xs);
  }

  lemma AcceptedOne(p: seq<char>)
    ensures Accepted([p]) == PairOf(p)
  {
    assert [p][..0] == [] && [p][0] == p;
    assert FlatMap(PairOf, [p]) == FlatMap(PairOf, []) + PairOf(p);
    assert [] + PairOf(p) == PairOf(p);
  }

  /**
   * With a working partition, a key whose length NVS accepts ends with the
   * value of the LAST pair that names it.
   */
  lemma {:induction false} LastWriteWins(spaces: Namespaces, pairs: seq<Pair>, j: nat)
    requires j < |pairs| && |pairs[j].key| <= KEY_MAX && |pairs[j].value| <= VALUE_WIDTH
    requires forall k :: j < k < |pairs| ==> pairs[k].key != pairs[j].key
    ensures Read(ApplySaves(spaces, pairs, false), NAMESPACE, pairs[j].key, VALUE_WIDTH + 1) == Ok(Stored(pairs[j]))
    decreases |pairs|
  {
    var init := pairs[..|pairs| - 1];
    var last := pairs[|pairs| - 1];
    var before := ApplySaves(spaces, init, false);
    if j == |pairs| - 1 {
      DecodedNoLonger(last.value);
      ReadAfterWrite(before, NAMESPACE, last.key, Stored(last), VALUE_WIDTH + 1);
    } else {
      LastWriteWins(spaces, init, j);
      ReadOtherAfterWrite(before, NAMESPACE, last.key, Stored(last), false, NAMESPACE, pairs[j].key, VALUE_WIDTH + 1);
    }
  }

  /** Keys no pair names, and every other namespace, read as before. */
  lemma {:induction false} SavesKeepOthers(spaces: Namespaces, pairs: seq<Pair>, full: bool, ns: string, key: string, cap: nat)
    requires ns != NAMESPACE || forall i :: 0 <= i < |pairs| ==> pairs[i].key != key
    ensures Read(ApplySaves(spaces, pairs, full), ns, key, cap) == Read(spaces, ns, key, cap)
    decreases |pairs|
  {
    if pairs != [] {
      var last := pairs[|pairs| - 1];
      SavesKeepOthers(spaces, pairs[..|pairs| - 1], full, ns, key, cap);
      ReadOtherAfterWrite(ApplySaves(spaces, pairs[..|pairs| - 1], full), NAMESPACE, last.key, Stored(last), full, ns, key, cap);
    }
  }

  /** On a full partition the handler changes nothing, though it still answers as usual. */
  lemma {:induction false} SavesOnFullStore(spaces: Namespaces, pairs: seq<Pair>)
    ensures ApplySaves(spaces, pairs, true) == spaces
    decreases |pairs|
  {
    if pairs != [] {
      SavesOnFullStore(spaces, pairs[..|pairs| - 1]);
    }
  }

  /** A pair a browser form could send: the key and value fit the pattern's fields. */
  predicate Sendable(pr: Pair) {
    1 <= |pr.key| <= KEY_WIDTH && '=' !in pr.key && '&' !in pr.key && NUL !in pr.key
    && 1 <= |pr.value| <= VALUE_WIDTH && '&' !in pr.value && NUL !in pr.value
    && forall i :: 0 <= i < |pr.value| ==> !IsSpace(pr.value[i])
  }

  function PairText(pr: Pair): seq<char> {
    pr.key + ['='] + pr.value
  }

  /** The body a form sends for `pairs`: `key=value` pieces joined with '&'. */
  function FormBody(pairs: seq<Pair>): seq<char> {
    Join(seq(|pairs|, i requires 0 <= i < |pairs| => PairText(pairs[i])), '&')
  }

  /** A trailing '&' or a doubled one in the body changes no pair the handler sees. */
  lemma ExtraAmpersandsIgnored(x: seq<char>, y: seq<char>)
    requires NUL !in x && NUL !in y
    ensures BodyPairs(x + ['&']) == BodyPairs(x)
    ensures BodyPairs(x + ['&', '&'] + y) == BodyPairs(x + ['&'] + y)
  {
    assert forall c :: c in x + ['&'] ==> c in x || c == '&';
    assert forall c :: c in x + ['&'] + y ==> c in x || c == '&' || c in y;
    assert forall c :: c in x + ['&', '&'] + y ==> c in x || c == '&' || c in y;
    CStrOfCString(x);
    CStrOfCString(x + ['&']);
    CStrOfCString(x + ['&'] + y);
    CStrOfCString(x + ['&', '&'] + y);
    TokensExtraDelimiters(x, '&', y);
  }

  /** The handler recovers exactly the pairs a form sends, in order. */
  lemma BodyRoundTrip(pairs: seq<Pair>)
    requires forall i :: 0 <= i < |pairs| ==> Sendable(pairs[i])
    ensures BodyPairs(FormBody(pairs)) == pairs
  {
    var pieces := seq(|pairs|, i requires 0 <= i < |pairs| => PairText(pairs[i]));
    forall i | 0 <= i < |pieces|
      ensures pieces[i] != [] && '&' !in pieces[i] && NUL !in pieces[i]
      ensures PairOf(pieces[i]) == [pairs[i]]
    {
      SendablePiece(pairs[i]);
    }
    JoinCString(pieces, '&');
    CStrOfCString(FormBody(pairs));
    TokensOfJoin(pieces, '&');
    FlatMapSingletons(PairOf, pieces, pairs);
  }

  /** The text of a sendable pair is one '&'-free piece that scans back to the pair. */
  lemma SendablePiece(pr: Pair)
    requires Sendable(pr)
    ensures PairText(pr) != [] && '&' !in PairText(pr) && NUL !in PairText(pr)
    ensures PairOf(PairText(pr)) == [pr]
  {
    PairTextChars(pr.key, pr.value);
    ScanPairOfKey(pr.key, pr.value);
    ScanWordWhole(pr.value, VALUE_WIDTH);
  }

  lemma PairTextChars(k: seq<char>, v: seq<char>)
    ensures forall c :: c in k + ['='] + v ==> c in k || c == '=' || c in v
  {
  }

  lemma {:induction false} JoinCString(ts: seq<seq<char>>, d: char)
    requires d != NUL && forall i :: 0 <= i < |ts| ==> NUL !in ts[i]
    ensures NUL !in Join(ts, d)
    decreases |ts|
  {
    if |ts| > 1 {
      JoinCString(ts[1..], d);
      assert NUL !in ts[0];
    }
  }

  lemma {:induction false} FlatMapSingletons<A, B>(f: A -> seq<B>, xs: seq<A>, ys: seq<B>)
    requires |xs| == |ys| && forall i :: 0 <= i < |xs| ==> f(xs[i]) == [ys[i]]
    ensures FlatMap(f, xs) == ys
    decreases |xs|
  {
    if xs != [] {
      var n := |xs| - 1;
      FlatMapSingletons(f, xs[..n], ys[..n]);
      assert ys == ys[..n] + [ys[n]];
    }
  }

  /** The form fields a browser sends for new credentials lead to a restart. */
  lemma CredentialsFormReboots(ssid: string, pass: string)
    requires Sendable(Pair("ssid", ssid)) && Sendable(Pair("pass", pass))
    ensures BodyPairs(FormBody([Pair("ssid", ssid), Pair("pass", pass)])) == [Pair("ssid", ssid), Pair("pass", pass)]
    ensures NeedsReboot(BodyPairs(FormBody([Pair("ssid", ssid), Pair("pass", pass)])))
  {
    var pairs := [Pair("ssid", ssid), Pair("pass", pass)];
    BodyRoundTrip(pairs);
    assert IsCredentialKey(pairs[0].key);
  }

  /** The stored value is the decoded field, up to the first NUL an escape `%00` produces. */
  lemma StoredStopsAtNul(k: string, a: string, b: string)
    requires '%' !in a && '+' !in a && NUL !in a
    ensures Stored(Pair(k, a + ['%', '0', '0'] + b)) == a
  {
    assert a + ['%', '0', '0'] + b == a + (['%', '0', '0'] + b);
    DecodeKeepsPrefix(a, ['%', '0', '0'] + b);
    DecodeEscapeIsByte('0', '0', b);
    assert (16 * HexValue('0') + HexValue('0')) as char == NUL;
    assert UrlDecoded(a + ['%', '0', '0'] + b) == a + ([NUL] + UrlDecoded(b));
    assert a + ([NUL] + UrlDecoded(b)) == a + [NUL] + UrlDecoded(b);
    CStrStopsAtNul(a, UrlDecoded(b));
  }

  // =====================================================================
  // GET /

  /** The colour the page shows: the stored one if it fits `led_color[8]`, else the default. */
  function PageColor(spaces: Namespaces): string {
    Setting(spaces, "led_color", COLOR_BUF, DEFAULT_COLOR)
  }

  /**
   * The page `index_get_handler` builds: the first placeholder replaced by
   * `color`; with no placeholder, the template cut to 1023 characters.
   */
  function Rendered(template: string, color: string): string {
    match FindFirst(template, PLACEHOLDER)
    case Some(i) => template[..i] + color + template[i + |PLACEHOLDER|..]
    case None => template[..Min(|template|, INDEX_BUF - 1)]
  }

  /** The page, with its NUL, fits `buf[1024]`. */
  predicate RenderFits(template: string, color: string) {
    FindFirst(template, PLACEHOLDER).Some? ==> |template| - |PLACEHOLDER| + |color| < INDEX_BUF
  }

  /**
   * `index_get_handler`: the embedded template, up to its NUL, with the
   * current colour filled in. The page must fit the render buffer.
   */
  method IndexGet(store: Store, asset: seq<char>) returns (resp: Response)
    requires RenderFits(CStr(asset), PageColor(store.spaces))
    ensures resp == Page("text/html", Rendered(CStr(asset), PageColor(store.spaces)))
    ensures |resp.body| < INDEX_BUF
  {
    var color := DEFAULT_COLOR;
    var loaded := LoadSetting(store, "led_color", COLOR_BUF);
    if loaded.Ok? {
      color := loaded.value;
    }
    var template := CStr(asset);
    var pos := FindFirst(template, PLACEHOLDER);
    var buf: string;
    if pos.Some? {
      var prefixLen := pos.value;
      buf := template[..prefixLen] + color + template[prefixLen + |PLACEHOLDER|..];
    } else {
      buf := template[..Min(|template|, INDEX_BUF - 1)];
    }
    resp := Page("text/html", buf);
  }

  /**
   * Text before the first placeholder and everything after it are kept as
   * they are; only that placeholder is replaced.
   */
  lemma RenderReplacesFirst(a: string, b: string, color: string)
    requires forall j :: 0 <= j < |a| ==> !OccursAt(a + PLACEHOLDER + b, PLACEHOLDER, j)
    ensures Rendered(a + PLACEHOLDER + b, color) == a + color + b
  {
    var t := a + PLACEHOLDER + b;
    assert t[|a|..|a| + |PLACEHOLDER|] == PLACEHOLDER;
    assert OccursAt(t, PLACEHOLDER, |a|);
    var i := FindFirst(t, PLACEHOLDER).value;
    assert i == |a|;
    assert t[..i] == a;
    assert t[i + |PLACEHOLDER|..] == b;
  }

  /** No occurrence can start inside text without '{'. */
  lemma RenderAfterPlainText(a: string, b: string, color: string)
    requires '{' !in a
    ensures Rendered(a + PLACEHOLDER + b, color) == a + color + b
  {
    var t := a + PLACEHOLDER + b;
    forall j | 0 <= j < |a|
      ensures !OccursAt(t, PLACEHOLDER, j)
    {
      assert t[j] == a[j] != '{';
      assert j + |PLACEHOLDER| <= |t| ==> t[j..j + |PLACEHOLDER|][0] == t[j];
    }
    RenderReplacesFirst(a, b, color);
  }

  /** Without a placeholder the template is served as it is, cut to 1023 characters. */
  lemma RenderWithoutPlaceholder(t: string, color: string)
    requires forall j :: 0 <= j ==> !OccursAt(t, PLACEHOLDER, j)
    ensures Rendered(t, color) == t[..Min(|t|, INDEX_BUF - 1)]
    ensures |t| < INDEX_BUF ==> Rendered(t, color) == t
  {
  }

  // =====================================================================
  // GET /settings.json

  /** The JSON object `settings_get_handler` formats. */
  function SettingsJson(ssid: string, pass: string, color: string): string {
    "{ \"ssid\": \"" + ssid + "\", \"pass\": \"" + pass + "\", \"led_color\": \"" + color + "\" }"
  }

  /** The three settings as the handler loads them, each preset to its default. */
  function CurrentJson(spaces: Namespaces): string {
    SettingsJson(Setting(spaces, "ssid", SSID_BUF, ""),
                 Setting(spaces, "pass", PASS_BUF, ""),
                 Setting(spaces, "led_color", COLOR_BUF, DEFAULT_COLOR))
  }

  /** `settings_get_handler`. */
  method SettingsGet(store: Store) returns (resp: Response)
    ensures resp == Page("application/json", CurrentJson(store.spaces))
    ensures |resp.body| < JSON_BUF
  {
    var ssid, pass, color := "", "", DEFAULT_COLOR;
    var r := LoadSetting(store, "ssid", SSID_BUF);
    if r.Ok? { ssid := r.value; }
    r := LoadSetting(store, "pass", PASS_BUF);
    if r.Ok? { pass := r.value; }
    r := LoadSetting(store, "led_color", COLOR_BUF);
    if r.Ok? { color := r.value; }
    JsonFits(store.spaces);
    resp := Page("application/json", SettingsJson(ssid, pass, color));
  }

  /**
   * Whatever is stored, the object fits `buf[256]`, so the length `snprintf`
   * returns is the length of what it wrote.
   */
  lemma JsonFits(spaces: Namespaces)
    ensures |CurrentJson(spaces)| < JSON_BUF
  {
    var s := Setting(spaces, "ssid", SSID_BUF, "");
    var p := Setting(spaces, "pass", PASS_BUF, "");
    var c := Setting(spaces, "led_color", COLOR_BUF, DEFAULT_COLOR);
    assert |s| < SSID_BUF && |p| < PASS_BUF && |c| < COLOR_BUF;
  }

  /** A key never written, or written too long for its buffer, shows its preset. */
  lemma JsonShowsDefaults(spaces: Namespaces)
    requires Read(spaces, NAMESPACE, "ssid", SSID_BUF).Err? && Read(spaces, NAMESPACE, "pass", PASS_BUF).Err?
    requires Read(spaces, NAMESPACE, "led_color", COLOR_BUF).Err?
    ensures CurrentJson(spaces) == SettingsJson("", "", DEFAULT_COLOR)
  {
  }

  // =====================================================================
  // Server lifetime

  /** `config_portal_start` (the handler registrations are not modelled). */
  method Start(httpd: Daemon, ok: bool) returns (server: Handle)
    requires httpd.Valid()
    modifies httpd
    ensures httpd.Valid()
    ensures ok ==> server != NULL && server !in old(httpd.live) && httpd.live == old(httpd.live) + {server}
    ensures !ok ==> server == NULL && httpd.live == old(httpd.live)
  {
    server := httpd.Start(ok);
  }

  /** `config_portal_stop`: stops the server unless the handle is NULL. */
  method Stop(httpd: Daemon, server: Handle)
    requires server == NULL || server in httpd.live
    modifies httpd`live
    ensures server == NULL ==> httpd.live == old(httpd.live)
    ensures server != NULL ==> httpd.live == old(httpd.live) - {server}
  {
    if server != NULL {
      httpd.Stop(server);
    }
  }
}
