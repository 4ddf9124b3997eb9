/**
 * Character classes, substring tests and trimming shared by the JavaScript
 * front end and the Python back end. The two languages disagree on what
 * white space is, so every white-space notion is indexed by a `Flavour`.
 */
module Text {
  import opened Wrappers

  /** Whose white space: ECMAScript's (regex `\s`, `String.prototype.trim`)
      or Python's (`str.isspace`, `str.strip` without arguments). */
  datatype Flavour = Ecma | Python

  /** ECMAScript WhiteSpace and LineTerminator code points, or the code points
      for which Python's `str.isspace` holds. */
  predicate IsSpace(f: Flavour, c: char) {
    match f
    case Ecma =>
      c == '\t' || c == '\n' || c == '\U{000B}' || c == '\U{000C}' || c == '\r' || c == ' '
      || c == '\U{00A0}' || c == '\U{1680}' || ('\U{2000}' <= c <= '\U{200A}')
      || c == '\U{2028}' || c == '\U{2029}' || c == '\U{202F}' || c == '\U{205F}'
      || c == '\U{3000}' || c == '\U{FEFF}'
    case Python =>
      ('\t' <= c <= '\r') || ('\U{001C}' <= c <= '\U{001F}') || c == ' '
      || c == '\U{0085}' || c == '\U{00A0}' || c == '\U{1680}' || ('\U{2000}' <= c <= '\U{200A}')
      || c == '\U{2028}' || c == '\U{2029}' || c == '\U{202F}' || c == '\U{205F}'
      || c == '\U{3000}'
  }

  predicate AllSpace(f: Flavour, s: string) {
    forall i | 0 <= i < |s| :: IsSpace(f, s[i])
  }

  /** The ASCII digits, the class `\d` of an ECMAScript regex without the `u` flag. */
  predicate IsDigit(c: char) {
    '0' <= c <= '9'
  }

  predicate AllDigits(s: string) {
    forall i | 0 <= i < |s| :: IsDigit(s[i])
  }

  /** `w` occurs in `s` starting at index `i`. */
  predicate IsAt(s: string, i: nat, w: string) {
    i + |w| <= |s| && s[i..i + |w|] == w
  }

  lemma IsAtSelf(s: string)
    ensures IsAt(s, 0, s)
  {
    assert s[0..|s|] == s;
  }

  lemma SliceHead(s: string, a: nat, n: nat)
    requires a < n <= |s|
    ensures s[a..n] == [s[a]] + s[a + 1..n]
  {
  }

  lemma ConsAssoc(c: char, x: string, y: string)
    ensures ([c] + x) + y == [c] + (x + y)
  {
  }

  lemma IsAtChar(s: string, i: nat)
    requires i < |s|
    ensures IsAt(s, i, [s[i]])
  {
    assert s[i..i + 1] == [s[i]];
  }

  lemma IsAtConcat(s: string, i: nat, a: string, b: string)
    requires IsAt(s, i, a) && IsAt(s, i + |a|, b)
    ensures IsAt(s, i, a + b)
  {
    assert s[i..i + |a| + |b|] == s[i..i + |a|] + s[i + |a|..i + |a| + |b|];
  }

  lemma IsAtSplit(s: string, i: nat, a: string, b: string)
    requires IsAt(s, i, a + b)
    ensures IsAt(s, i, a) && IsAt(s, i + |a|, b)
  {
    assert s[i..i + |a|] == (a + b)[..|a|];
    assert s[i + |a|..i + |a| + |b|] == (a + b)[|a|..];
  }

  /** The first index at or after `q` where `w` occurs in `s`. */
  function Find(s: string, w: string, q: nat): (r: Option<nat>)
    requires q <= |s|
    ensures r.Some? ==> q <= r.value && IsAt(s, r.value, w)
    ensures forall j | q <= j && (r.None? || j < r.value) :: !IsAt(s, j, w)
    decreases |s| - q
  {
    if IsAt(s, q, w) then Some(q)
    else if q == |s| then None
    else Find(s, w, q + 1)
  }

  /** The search for a single character stops at its first occurrence. */
  lemma {:induction false} FindChar(s: string, c: char, q: nat, k: nat)
    requires q <= k < |s| && s[k] == c
    requires forall j | q <= j < k :: s[j] != c
    ensures Find(s, [c], q) == Some(k)
    decreases k - q
  {
    IsAtChar(s, k);
    if q < k {
      IsAtChar(s, q);
      FindChar(s, c, q + 1, k);
    }
  }

  /** The pieces joined back with `sep` between them. */
  function JoinWith(parts: seq<string>, sep: char): string
    requires parts != []
  {
    if |parts| == 1 then parts[0] else parts[0] + [sep] + JoinWith(parts[1..], sep)
  }

  /** `s.split(sep)`: the pieces between the separators, at least one. */
  function Split(s: string, sep: char): (parts: seq<string>)
    ensures parts != [] && JoinWith(parts, sep) == s
    ensures forall j | 0 <= j < |parts| :: sep !in parts[j]
  {
    if s == [] then [[]]
    else
      var rest := Split(s[1..], sep);
      if s[0] == sep then
        assert [[]] + rest != [] && ([[]] + rest)[1..] == rest;
        [[]] + rest
      else
        var parts := [[s[0]] + rest[0]] + rest[1..];
        assert parts[1..] == rest[1..];
        assert s == [s[0]] + s[1..];
        parts
  }

  /** Splitting undoes joining, when no piece holds the separator. */
  lemma {:induction false} SplitJoin(parts: seq<string>, sep: char)
    requires parts != [] && forall j | 0 <= j < |parts| :: sep !in parts[j]
    ensures Split(JoinWith(parts, sep), sep) == parts
    decreases |parts|, |parts[0]|
  {
    var s := JoinWith(parts, sep);
    if parts[0] == [] {
      if |parts| > 1 {
        assert s == [sep] + JoinWith(parts[1..], sep);
        assert s[1..] == JoinWith(parts[1..], sep);
        SplitJoin(parts[1..], sep);
        assert parts == [[]] + parts[1..];
      }
    } else {
      var c := parts[0][0];
      var shorter := [parts[0][1..]] + parts[1..];
      assert shorter[1..] == parts[1..];
      assert c != sep by {
        assert c == parts[0][0];
      }
      assert s == [c] + JoinWith(shorter, sep) by {
        assert parts[0] == [c] + parts[0][1..];
      }
      assert s[1..] == JoinWith(shorter, sep);
      SplitJoin(shorter, sep);
      assert parts[0] == [c] + shorter[0];
      assert parts == [[c] + shorter[0]] + shorter[1..];
    }
  }

  /** The length of the longest run of `f`-white space starting at `i`. */
  function SpaceRun(f: Flavour, s: string, i: nat): (n: nat)
    requires i <= |s|
    ensures i + n <= |s|
    ensures AllSpace(f, s[i..i + n])
    ensures i + n == |s| || !IsSpace(f, s[i + n])
    decreases |s| - i
  {
    if i < |s| && IsSpace(f, s[i]) then
      var n := SpaceRun(f, s, i + 1);
      assert s[i..i + 1 + n] == [s[i]] + s[i + 1..i + 1 + n];
      1 + n
    else 0
  }

  /** An occurrence of `w` is an equality of characters, one by one. */
  lemma IsAtChars(s: string, i: nat, w: string)
    ensures IsAt(s, i, w) ==> forall j | 0 <= j < |w| :: s[i + j] == w[j]
  {
    if IsAt(s, i, w) {
      forall j | 0 <= j < |w|
        ensures s[i + j] == w[j]
      {
        assert s[i + j] == s[i..i + |w|][j];
      }
    }
  }

  /** Occurrences in a suffix are occurrences in the whole text, shifted. */
  lemma IsAtSuffix(s: string, p: nat, i: nat, w: string)
    requires p <= |s|
    ensures IsAt(s[p..], i, w) <==> IsAt(s, p + i, w)
  {
    if p + i + |w| <= |s| {
      assert s[p..][i..i + |w|] == s[p + i..p + i + |w|];
    }
  }

  /** Occurrences inside a slice are occurrences in the whole text, shifted. */
  lemma IsAtSlice(s: string, q: nat, k: nat, j: nat, w: string)
    requires q <= k <= |s|
    ensures IsAt(s[q..k], j, w) ==> IsAt(s, q + j, w)
  {
    if IsAt(s[q..k], j, w) {
      forall i | 0 <= i < |w|
        ensures s[q + j + i] == w[i]
      {
        assert w[i] == s[q..k][j..j + |w|][i] == s[q..k][j + i];
      }
      assert s[q + j..q + j + |w|] == w;
    }
  }

  /** `s` without its trailing white space. */
  function TrimEnd(f: Flavour, s: string): (r: string)
    ensures |r| <= |s| && r == s[..|r|]
    ensures AllSpace(f, s[|r|..])
    ensures r == [] || !IsSpace(f, r[|r| - 1])
  {
    if s == [] || !IsSpace(f, s[|s| - 1]) then s
    else
      var r := TrimEnd(f, s[..|s| - 1]);
      assert s[|r|..] == s[..|s| - 1][|r|..] + [s[|s| - 1]];
      r
  }

  /**
   * `s` without leading and trailing white space: ECMAScript's `trim()` for
   * `Ecma`, Python's `strip()` for `Python`. The result is the middle part of
   * `s` that begins and ends with a non-space character.
   */
  function Trim(f: Flavour, s: string): (r: string)
    ensures SpaceRun(f, s, 0) + |r| <= |s|
    ensures r == s[SpaceRun(f, s, 0)..SpaceRun(f, s, 0) + |r|]
    ensures AllSpace(f, s[..SpaceRun(f, s, 0)])
    ensures AllSpace(f, s[SpaceRun(f, s, 0) + |r|..])
    ensures r == [] || (!IsSpace(f, r[0]) && !IsSpace(f, r[|r| - 1]))
  {
    var lead := SpaceRun(f, s, 0);
    var r := TrimEnd(f, s[lead..]);
    assert s[lead + |r|..] == s[lead..][|r|..];
    r
  }

  /** Trimming removes everything exactly when the text is blank. */
  lemma TrimEmptyIffBlank(f: Flavour, s: string)
    ensures Trim(f, s) == [] <==> AllSpace(f, s)
  {
    var lead := SpaceRun(f, s, 0);
    if Trim(f, s) == [] {
      assert s == s[..lead] + s[lead..];
    } else {
      var r := Trim(f, s);
      assert s[lead] == r[0];
    }
  }

  /**
   * The characterisation of trimming: whatever is wrapped in white space on
   * both sides and itself starts and ends with a non-space character is
   * exactly what trimming returns.
   */
  lemma {:induction false} TrimUnique(f: Flavour, a: string, t: string, b: string)
    requires AllSpace(f, a) && AllSpace(f, b)
    requires t == [] || (!IsSpace(f, t[0]) && !IsSpace(f, t[|t| - 1]))
    ensures Trim(f, a + t + b) == t
  {
    var s := a + t + b;
    var lead := SpaceRun(f, s, 0);
    var r := Trim(f, s);
    if t == [] {
      assert AllSpace(f, s);
      TrimEmptyIffBlank(f, s);
    } else {
      SpaceRunStops(f, s, 0, |a|);
      assert lead == |a|;
      assert r == s[|a|..|a| + |t|];
      assert s[|a|..|a| + |t|] == t;
    }
  }

  /** A run of white space from `i` ends exactly where the first non-space character after `i` stands. */
  lemma {:induction false} SpaceRunStops(f: Flavour, s: string, i: nat, j: nat)
    requires i <= j <= |s|
    requires AllSpace(f, s[i..j]) && (j == |s| || !IsSpace(f, s[j]))
    ensures SpaceRun(f, s, i) == j - i
    decreases j - i
  {
    if i < j {
      assert s[i] == s[i..j][0];
      assert s[i + 1..j] == s[i..j][1..];
      SpaceRunStops(f, s, i + 1, j);
    }
  }

  /** Trimming twice is trimming once. */
  lemma TrimIdempotent(f: Flavour, s: string)
    ensures Trim(f, Trim(f, s)) == Trim(f, s)
  {
    var t := Trim(f, s);
    assert t == [] + t + [];
    TrimUnique(f, [], t, []);
  }
}
