/**
 * The Unicode encoding forms the browser uses on the way from a JavaScript
 * string to a URL: a string is a sequence of UTF-16 code units, and
 * `encodeURIComponent` turns each code point into its UTF-8 bytes. Code
 * points are Unicode scalar values; Dafny's `char` is exactly such a value.
 */
module Utf {
  import opened Wrappers

  type Byte = b: int | 0 <= b < 0x100
  type Unit = u: int | 0 <= u < 0x1_0000

  /** Code points that are not surrogates: the values a Dafny `char` can hold. */
  predicate IsScalar(cp: int) {
    0 <= cp < 0xD800 || 0xE000 <= cp < 0x11_0000
  }

  predicate IsLeading(u: int) {
    0xD800 <= u <= 0xDBFF
  }

  predicate IsTrailing(u: int) {
    0xDC00 <= u <= 0xDFFF
  }

  /** A byte of the form `10xxxxxx`. */
  predicate IsContinuation(b: Byte) {
    0x80 <= b < 0xC0
  }

  /** The UTF-8 encoding of one code point, as in section 3 of RFC 3629. */
  function Utf8(cp: int): (bs: seq<Byte>)
    requires IsScalar(cp)
    ensures 1 <= |bs| <= 4
    ensures |bs| == 1 <==> cp < 0x80
    ensures forall j | 1 <= j < |bs| :: IsContinuation(bs[j])
  {
    if cp < 0x80 then [cp]
    else if cp < 0x800 then [0xC0 + cp / 0x40, 0x80 + cp % 0x40]
    else if cp < 0x1_0000 then [0xE0 + cp / 0x1000, 0x80 + cp / 0x40 % 0x40, 0x80 + cp % 0x40]
    else [0xF0 + cp / 0x4_0000, 0x80 + cp / 0x1000 % 0x40, 0x80 + cp / 0x40 % 0x40, 0x80 + cp % 0x40]
  }

  /** The UTF-8 encoding of a whole string. */
  function Utf8Of(s: string): (bs: seq<Byte>)
    ensures |bs| >= |s|
  {
    if s == [] then [] else Utf8(s[0] as int) + Utf8Of(s[1..])
  }

  /** The low six bits carried by a continuation byte. */
  function Payload(b: Byte): int
    requires IsContinuation(b)
  {
    b - 0x80
  }

  /**
   * The first code point of `bs` and the number of bytes it takes, for a
   * strict decoder: overlong forms, surrogates, values past U+10FFFF and
   * stray continuation bytes are rejected.
   */
  function DecodeHead(bs: seq<Byte>): (r: Option<(int, nat)>)
    ensures r.Some? ==> IsScalar(r.value.0) && 1 <= r.value.1 <= |bs|
  {
    if bs == [] then None
    else
      var b0 := bs[0];
      if b0 < 0x80 then Some((b0, 1))
      else if 0xC0 <= b0 < 0xE0 && |bs| >= 2 && IsContinuation(bs[1]) then
        var cp := (b0 - 0xC0) * 0x40 + Payload(bs[1]);
        if cp < 0x80 then None else Some((cp, 2))
      else if 0xE0 <= b0 < 0xF0 && |bs| >= 3 && IsContinuation(bs[1]) && IsContinuation(bs[2]) then
        var cp := (b0 - 0xE0) * 0x1000 + Payload(bs[1]) * 0x40 + Payload(bs[2]);
        if cp < 0x800 || !IsScalar(cp) then None else Some((cp, 3))
      else if 0xF0 <= b0 < 0xF8 && |bs| >= 4 && IsContinuation(bs[1]) && IsContinuation(bs[2]) && IsContinuation(bs[3]) then
        var cp := (b0 - 0xF0) * 0x4_0000 + Payload(bs[1]) * 0x1000 + Payload(bs[2]) * 0x40 + Payload(bs[3]);
        if cp < 0x1_0000 || !IsScalar(cp) then None else Some((cp, 4))
      else None
  }

  /** Strict UTF-8 decoding of a whole byte sequence. */
  function DecodeUtf8(bs: seq<Byte>): (r: Option<string>)
    ensures r.Some? ==> |r.value| <= |bs|
    decreases |bs|
  {
    if bs == [] then Some([])
    else
      match DecodeHead(bs)
      case None => None
      case Some((cp, n)) =>
        match DecodeUtf8(bs[n..])
        case None => None
        case Some(rest) => Some([cp as char] + rest)
  }

  /** Six bits at a time: the bits of `x` above the lowest twelve, and the six between them. */
  lemma SixBits(x: nat)
    ensures x / 0x40 / 0x40 == x / 0x1000
    ensures x / 0x40 % 0x40 * 0x40 + x % 0x40 == x % 0x1000
  {
  }

  /** The decoder reads back the first code point of any encoding, and only its bytes. */
  lemma DecodeHeadUtf8(cp: int, rest: seq<Byte>)
    requires IsScalar(cp)
    ensures DecodeHead(Utf8(cp) + rest) == Some((cp, |Utf8(cp)|))
  {
    if cp < 0x80 {
    } else if cp < 0x800 {
      DecodeTwo(cp, rest);
    } else if cp < 0x1_0000 {
      DecodeThree(cp, rest);
    } else {
      DecodeFour(cp, rest);
    }
  }

  lemma DecodeTwo(cp: int, rest: seq<Byte>)
    requires 0x80 <= cp < 0x800
    ensures DecodeHead(Utf8(cp) + rest) == Some((cp, 2))
  {
    var bs := Utf8(cp) + rest;
    assert bs[0] == 0xC0 + cp / 0x40 && bs[1] == 0x80 + cp % 0x40;
  }

  lemma DecodeThree(cp: int, rest: seq<Byte>)
    requires 0x800 <= cp < 0x1_0000 && IsScalar(cp)
    ensures DecodeHead(Utf8(cp) + rest) == Some((cp, 3))
  {
    var bs := Utf8(cp) + rest;
    var hi, mid, lo := cp / 0x1000, cp / 0x40 % 0x40, cp % 0x40;
    SixBits(cp);
    assert bs[0] == 0xE0 + hi && bs[1] == 0x80 + mid && bs[2] == 0x80 + lo;
    assert hi * 0x1000 + mid * 0x40 + lo == cp;
  }

  lemma DecodeFour(cp: int, rest: seq<Byte>)
    requires 0x1_0000 <= cp < 0x11_0000
    ensures DecodeHead(Utf8(cp) + rest) == Some((cp, 4))
  {
    var bs := Utf8(cp) + rest;
    var top, upper, mid, lo := cp / 0x4_0000, cp / 0x1000 % 0x40, cp / 0x40 % 0x40, cp % 0x40;
    SixBits(cp);
    SixBits(cp / 0x1000);
    assert cp / 0x1000 / 0x40 == top;
    assert bs[0] == 0xF0 + top && bs[1] == 0x80 + upper && bs[2] == 0x80 + mid && bs[3] == 0x80 + lo;
    assert top * 0x4_0000 + upper * 0x1000 + mid * 0x40 + lo == cp;
  }

  /** Decoding undoes encoding: every string survives a trip through its UTF-8 bytes. */
  lemma {:induction false} DecodeUtf8Of(s: string)
    ensures DecodeUtf8(Utf8Of(s)) == Some(s)
  {
    if s != [] {
      var head := Utf8(s[0] as int);
      var bs := Utf8Of(s);
      assert bs == head + Utf8Of(s[1..]);
      DecodeHeadUtf8(s[0] as int, Utf8Of(s[1..]));
      assert bs[|head|..] == Utf8Of(s[1..]);
      DecodeUtf8Of(s[1..]);
      assert s == [s[0]] + s[1..];
    }
  }

  /** The UTF-16 encoding of one code point: one unit, or a leading and a trailing surrogate. */
  function Utf16(cp: int): (us: seq<Unit>)
    requires IsScalar(cp)
    ensures |us| == 1 <==> cp < 0x1_0000
    ensures |us| == 1 ==> us[0] == cp && !IsLeading(cp) && !IsTrailing(cp)
    ensures |us| != 1 ==> |us| == 2 && IsLeading(us[0]) && IsTrailing(us[1])
  {
    if cp < 0x1_0000 then [cp]
    else [0xD800 + (cp - 0x1_0000) / 0x400, 0xDC00 + (cp - 0x1_0000) % 0x400]
  }

  /** The code units of a JavaScript string holding the characters of `s`. */
  function Units(s: string): (us: seq<Unit>)
    ensures |us| >= |s|
  {
    if s == [] then [] else Utf16(s[0] as int) + Units(s[1..])
  }

  /** The outcome of reading a code point out of code units (ECMA-262, static semantics CodePointAt). */
  datatype CodePoint = CodePoint(point: int, count: nat, unpaired: bool)

  /** ECMA-262's CodePointAt at the head of `us`: a surrogate pair combines, any other surrogate is unpaired. */
  function CodePointAt(us: seq<Unit>): (r: CodePoint)
    requires us != []
    ensures 1 <= r.count <= |us|
    ensures !r.unpaired ==> IsScalar(r.point)
    ensures r.count == 2 <==> |us| >= 2 && IsLeading(us[0]) && IsTrailing(us[1])
    ensures r.unpaired <==> (IsLeading(us[0]) || IsTrailing(us[0])) && r.count == 1
  {
    var first := us[0];
    if !IsLeading(first) && !IsTrailing(first) then CodePoint(first, 1, false)
    else if IsTrailing(first) || |us| == 1 then CodePoint(first, 1, true)
    else if !IsTrailing(us[1]) then CodePoint(first, 1, true)
    else CodePoint((first as int - 0xD800) * 0x400 + (us[1] as int - 0xDC00) + 0x1_0000, 2, false)
  }

  /** Reading a code point back out of its own UTF-16 encoding gives it back, whole. */
  lemma CodePointAtUtf16(cp: int, rest: seq<Unit>)
    requires IsScalar(cp)
    ensures CodePointAt(Utf16(cp) + rest) == CodePoint(cp, |Utf16(cp)|, false)
  {
    var us := Utf16(cp) + rest;
    if cp >= 0x1_0000 {
      var v := cp - 0x1_0000;
      assert us[0] == 0xD800 + v / 0x400 && us[1] == 0xDC00 + v % 0x400;
      assert (v / 0x400) * 0x400 + v % 0x400 == v;
    }
  }

  /** Well-formed UTF-16: every leading surrogate is followed by a trailing one, and every trailing one is preceded by a leading one. */
  predicate Paired(us: seq<Unit>) {
    && (forall k | 0 <= k < |us| && IsLeading(us[k]) :: k + 1 < |us| && IsTrailing(us[k + 1]))
    && (forall k | 0 <= k < |us| && IsTrailing(us[k]) :: k > 0 && IsLeading(us[k - 1]))
  }

  /** The code units of any Dafny string are well formed. */
  lemma {:induction false} UnitsPaired(s: string)
    ensures Paired(Units(s))
  {
    if s != [] {
      UnitsPaired(s[1..]);
      var h, t := Utf16(s[0] as int), Units(s[1..]);
      var us := Units(s);
      assert us == h + t;
      forall k | 0 <= k < |us| && IsLeading(us[k])
        ensures k + 1 < |us| && IsTrailing(us[k + 1])
      {
        if k >= |h| {
          assert us[k] == t[k - |h|];
          assert us[k + 1] == t[k + 1 - |h|];
        }
      }
      forall k | 0 <= k < |us| && IsTrailing(us[k])
        ensures k > 0 && IsLeading(us[k - 1])
      {
        if k >= |h| {
          assert us[k] == t[k - |h|];
          if k - |h| > 0 {
            assert us[k - 1] == t[k - 1 - |h|];
          }
        }
      }
    }
  }

  /** Dropping a leading pair, or a leading unit that is not a surrogate, keeps units well formed. */
  lemma PairedTail(us: seq<Unit>, n: nat)
    requires Paired(us) && 1 <= n <= |us|
    requires n == 1 ==> !IsLeading(us[0])
    requires n == 2 ==> IsLeading(us[0]) && IsTrailing(us[1])
    requires n <= 2
    ensures Paired(us[n..])
  {
    var t := us[n..];
    forall k | 0 <= k < |t| && IsTrailing(t[k])
      ensures k > 0 && IsLeading(t[k - 1])
    {
      assert t[k] == us[k + n];
      assert IsLeading(us[k + n - 1]);
    }
  }
}
