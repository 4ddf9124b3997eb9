/**
 * `encodeURIComponent` as ECMA-262 defines it (section 19.2.6.5, the
 * abstract operation Encode, with no extra unescaped characters): the
 * unreserved ASCII characters pass through, every other code point is
 * written as the `%HH` escapes of its UTF-8 bytes, and an unpaired
 * surrogate raises a URIError. Its partner here is percent-decoding
 * followed by strict UTF-8 decoding.
 */
module Uri {
  import opened Wrappers
  import opened Utf

  /** ECMA-262's uriUnescaped: ASCII letters and digits and `-_.!~*'()`. */
  predicate Unescaped(c: char) {
    ('a' <= c <= 'z') || ('A' <= c <= 'Z') || ('0' <= c <= '9')
    || c == '-' || c == '_' || c == '.' || c == '!' || c == '~' || c == '*' || c == '\'' || c == '(' || c == ')'
  }

  predicate IsUpperHex(c: char) {
    ('0' <= c <= '9') || ('A' <= c <= 'F')
  }

  /** The hexadecimal digits a decoder accepts, in either letter case. */
  predicate IsHex(c: char) {
    IsUpperHex(c) || ('a' <= c <= 'f')
  }

  /** The upper-case hexadecimal digit for `n`. */
  function HexDigit(n: int): (c: char)
    requires 0 <= n < 16
    ensures IsUpperHex(c)
  {
    if n < 10 then ('0' as int + n) as char else ('A' as int + n - 10) as char
  }

  function HexValue(c: char): (n: int)
    requires IsHex(c)
    ensures 0 <= n < 16
  {
    if '0' <= c <= '9' then c as int - '0' as int
    else if 'A' <= c <= 'F' then c as int - 'A' as int + 10
    else c as int - 'a' as int + 10
  }

  /** `%` followed by the byte in two upper-case hexadecimal digits. */
  function Escape(b: Byte): (t: string)
    ensures |t| == 3 && t[0] == '%' && IsUpperHex(t[1]) && IsUpperHex(t[2])
    ensures HexValue(t[1]) * 16 + HexValue(t[2]) == b
  {
    ['%', HexDigit(b / 16), HexDigit(b % 16)]
  }

  function EscapeBytes(bs: seq<Byte>): (t: string)
    ensures |t| == 3 * |bs|
  {
    if bs == [] then [] else Escape(bs[0]) + EscapeBytes(bs[1..])
  }

  /**
   * Text fit for a URL component: only unreserved characters and `%`, and
   * every `%` opens an escape of two upper-case hexadecimal digits.
   */
  predicate Safe(t: string) {
    && (forall i | 0 <= i < |t| :: Unescaped(t[i]) || t[i] == '%')
    && (forall i | 0 <= i < |t| && t[i] == '%' :: i + 2 < |t| && IsUpperHex(t[i + 1]) && IsUpperHex(t[i + 2]))
  }

  lemma SafeConcat(a: string, b: string)
    requires Safe(a) && Safe(b)
    ensures Safe(a + b)
  {
    var t := a + b;
    forall i | 0 <= i < |t|
      ensures Unescaped(t[i]) || t[i] == '%'
    {
      if i >= |a| {
        assert t[i] == b[i - |a|];
      }
    }
    forall i | 0 <= i < |t| && t[i] == '%'
      ensures i + 2 < |t| && IsUpperHex(t[i + 1]) && IsUpperHex(t[i + 2])
    {
      if i >= |a| {
        assert t[i] == b[i - |a|];
        assert t[i + 1] == b[i + 1 - |a|];
        assert t[i + 2] == b[i + 2 - |a|];
      }
    }
  }

  lemma {:induction false} SafeEscapeBytes(bs: seq<Byte>)
    ensures Safe(EscapeBytes(bs))
  {
    if bs != [] {
      var e := Escape(bs[0]);
      assert Safe(e) by {
        assert forall i | 0 <= i < 3 && e[i] == '%' :: i == 0;
      }
      SafeEscapeBytes(bs[1..]);
      SafeConcat(e, EscapeBytes(bs[1..]));
    }
  }

  /** The exception `encodeURIComponent` throws on an unpaired surrogate. */
  datatype UriError = UriError

  /**
   * `encodeURIComponent` on the code units of a JavaScript string: an
   * unreserved unit is copied; otherwise the code point starting there is
   * read, and either it is an unpaired surrogate and the call throws, or its
   * UTF-8 bytes are appended as escapes and the scan moves past it.
   */
  function Encode(us: seq<Unit>): (r: Result<string, UriError>)
    ensures r.Success? ==> Safe(r.value)
    decreases |us|
  {
    if us == [] then Success([])
    else
      var c := us[0];
      if c < 0x80 && Unescaped(c as char) then
        match Encode(us[1..])
        case Failure(e) => Failure(e)
        case Success(t) =>
          assert Safe([c as char]);
          SafeConcat([c as char], t);
          Success([c as char] + t)
      else
        var cp := CodePointAt(us);
        if cp.unpaired then Failure(UriError)
        else
          match Encode(us[cp.count..])
          case Failure(e) => Failure(e)
          case Success(t) =>
            SafeEscapeBytes(Utf8(cp.point));
            SafeConcat(EscapeBytes(Utf8(cp.point)), t);
            Success(EscapeBytes(Utf8(cp.point)) + t)
  }

  /** A well-formed head unit or pair, in front of well-formed units, keeps them well formed. */
  lemma PairedCons(us: seq<Unit>, n: nat)
    requires 1 <= n <= 2 && n <= |us| && Paired(us[n..])
    requires n == 1 ==> !IsLeading(us[0]) && !IsTrailing(us[0])
    requires n == 2 ==> IsLeading(us[0]) && IsTrailing(us[1])
    ensures Paired(us)
  {
    var t := us[n..];
    forall k | 0 <= k < |us| && IsLeading(us[k])
      ensures k + 1 < |us| && IsTrailing(us[k + 1])
    {
      if k >= n {
        assert us[k] == t[k - n];
        assert us[k + 1] == t[k + 1 - n];
      }
    }
    forall k | 0 <= k < |us| && IsTrailing(us[k])
      ensures k > 0 && IsLeading(us[k - 1])
    {
      if k >= n {
        assert us[k] == t[k - n];
        if k > n {
          assert us[k - 1] == t[k - 1 - n];
        }
      }
    }
  }

  /** The encoder throws exactly when the code units hold an unpaired surrogate. */
  lemma {:induction false} EncodeSucceedsIffPaired(us: seq<Unit>)
    ensures Encode(us).Success? <==> Paired(us)
    decreases |us|
  {
    if us != [] {
      var c := us[0];
      var cp := CodePointAt(us);
      var n := if c < 0x80 && Unescaped(c as char) then 1 else cp.count;
      EncodeSucceedsIffPaired(us[n..]);
      if Paired(us) {
        if IsLeading(c) {
          assert IsTrailing(us[1]);
        }
        PairedTail(us, n);
      }
      if Encode(us).Success? {
        PairedCons(us, n);
      }
    }
  }

  /** What `encodeURIComponent` makes of one character, read directly. */
  function EscapeChar(c: char): (t: string) {
    if Unescaped(c) then [c] else EscapeBytes(Utf8(c as int))
  }

  /** The reference reading of `encodeURIComponent` on a string of characters. */
  function EscapeText(s: string): (t: string) {
    if s == [] then [] else EscapeChar(s[0]) + EscapeText(s[1..])
  }

  /**
   * On the code units of any string of characters the encoder never throws
   * and agrees with the character-by-character reading.
   */
  lemma {:induction false} EncodeUnits(s: string)
    ensures Encode(Units(s)) == Success(EscapeText(s))
  {
    if s != [] {
      var c := s[0];
      var us := Units(s);
      var head := Utf16(c as int);
      assert us == head + Units(s[1..]);
      EncodeUnits(s[1..]);
      CodePointAtUtf16(c as int, Units(s[1..]));
      assert us[|head|..] == Units(s[1..]);
      if Unescaped(c) {
        assert head == [c as int];
        assert (us[0] as char) == c;
      } else {
        assert !(us[0] < 0x80 && Unescaped(us[0] as char)) by {
          if us[0] < 0x80 {
            assert head[0] == c as int;
            assert (us[0] as char) == c;
          }
        }
      }
    }
  }

  /** A string of characters encodes to safe text, whatever it holds. */
  lemma EscapeTextSafe(s: string)
    ensures Safe(EscapeText(s))
  {
    EncodeUnits(s);
  }

  /** No `#`, `&`, `,`, `;`, `=`, `/`, `?`, space or line break survives into safe text. */
  lemma SafeExcludes(t: string)
    requires Safe(t)
    ensures '#' !in t && '&' !in t && ',' !in t && ';' !in t && '=' !in t && '/' !in t && '?' !in t
    ensures ' ' !in t && '\n' !in t && '\r' !in t
  {
  }

  /**
   * Percent-decoding of ASCII text into bytes, as `decodeURIComponent` does
   * before it reads the bytes as UTF-8: escapes in either letter case
   * become their byte, any other ASCII character its own code; anything
   * else is refused.
   */
  function PercentDecode(t: string): (r: Option<seq<Byte>>)
    decreases |t|
  {
    if t == [] then Some([])
    else if t[0] == '%' then
      if |t| >= 3 && IsHex(t[1]) && IsHex(t[2]) then
        match PercentDecode(t[3..])
        case None => None
        case Some(bs) => Some([HexValue(t[1]) * 16 + HexValue(t[2])] + bs)
      else None
    else if (t[0] as int) < 0x80 then
      match PercentDecode(t[1..])
      case None => None
      case Some(bs) => Some([t[0] as int] + bs)
    else None
  }

  /** `decodeURIComponent` on ASCII text: percent-decoding, then strict UTF-8 decoding. */
  function DecodeComponent(t: string): Option<string> {
    match PercentDecode(t)
    case None => None
    case Some(bs) => DecodeUtf8(bs)
  }

  lemma ConsAppend<T>(x: T, a: seq<T>, b: seq<T>)
    ensures [x] + (a + b) == ([x] + a) + b
  {
  }

  lemma {:induction false} PercentDecodeEscapes(bs: seq<Byte>, rest: string, more: seq<Byte>)
    requires PercentDecode(rest) == Some(more)
    ensures PercentDecode(EscapeBytes(bs) + rest) == Some(bs + more)
  {
    if bs == [] {
      assert EscapeBytes(bs) + rest == rest;
      assert bs + more == more;
    } else {
      var e := Escape(bs[0]);
      var tail := EscapeBytes(bs[1..]) + rest;
      var t := EscapeBytes(bs) + rest;
      assert t == e + tail;
      assert t[0] == '%' && t[1] == e[1] && t[2] == e[2];
      assert t[3..] == tail;
      PercentDecodeEscapes(bs[1..], rest, more);
      assert PercentDecode(t) == Some([bs[0]] + (bs[1..] + more));
      ConsAppend(bs[0], bs[1..], more);
      assert bs == [bs[0]] + bs[1..];
    }
  }

  /** Percent-decoding the encoding of a string gives its UTF-8 bytes. */
  lemma {:induction false} PercentDecodeEscapeText(s: string)
    ensures PercentDecode(EscapeText(s)) == Some(Utf8Of(s))
  {
    if s != [] {
      var c := s[0];
      var t := EscapeText(s);
      PercentDecodeEscapeText(s[1..]);
      if Unescaped(c) {
        assert t == [c] + EscapeText(s[1..]);
        assert t[1..] == EscapeText(s[1..]);
        assert Utf8(c as int) == [c as int];
      } else {
        PercentDecodeEscapes(Utf8(c as int), EscapeText(s[1..]), Utf8Of(s[1..]));
      }
    }
  }

  /** Decoding undoes `encodeURIComponent` on every string of characters. */
  lemma DecodeEscapeText(s: string)
    ensures DecodeComponent(EscapeText(s)) == Some(s)
  {
    PercentDecodeEscapeText(s);
    DecodeUtf8Of(s);
  }

  /** A lone leading surrogate makes the encoder throw. */
  lemma LoneSurrogateThrows()
    ensures Encode([0xD800]).Failure?
    ensures Encode([0xD83D, 0x41]).Failure?
  {
    EncodeSucceedsIffPaired([0xD800]);
    EncodeSucceedsIffPaired([0xD83D, 0x41]);
    assert [0xD83D, 0x41][0] == 0xD83D;
  }
}
