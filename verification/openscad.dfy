/**
 * The primitive extractor of the CAD renderer component: three global
 * regular expressions that find `cube([w, d, h])`, `sphere(r = R)` and
 * `cylinder(h = H, r = R)` calls in generated OpenSCAD text.
 *
 * Each regular expression is a fixed sequence of tokens: literal words,
 * runs of ECMAScript white space (`\s*`) and unsigned numerals
 * (`\d+\.?\d*`). Because every white-space run and every numeral is followed
 * by something that cannot extend it, the backtracking matcher never has a
 * choice to make; `MatchTokens` therefore matches greedily, and
 * `MatchTokensComplete` shows that it accepts every text the pattern
 * describes. `Scan` is the `exec` loop of a global regular expression:
 * leftmost match first, the next search resuming where the last match ended.
 */
module OpenScad {
  import opened Wrappers
  import opened Text

  /** Ten to the power `n`. */
  function Pow10(n: nat): (p: nat)
    ensures p >= 1
  {
    if n == 0 then 1 else 10 * Pow10(n - 1)
  }

  /** The value of a string of decimal digits read most significant first. */
  function DigitsValue(s: string): nat
    requires AllDigits(s)
  {
    if s == [] then 0
    else DigitsValue(s[..|s| - 1]) * 10 + (s[|s| - 1] as int - '0' as int)
  }

  /**
   * An unsigned decimal numeral as `\d+\.?\d*` admits it: one or more whole
   * digits, an optional point, and fraction digits only after a point.
   * "12", "12." and "12.5" are numerals; "-1", ".5" and "1e3" are not.
   */
  datatype Numeral = Numeral(whole: string, point: bool, fraction: string) {

    predicate Valid() {
      |whole| > 0 && AllDigits(whole) && AllDigits(fraction) && (!point ==> fraction == [])
    }

    /** The numeral as it is written in the source text. */
    function Spelling(): string {
      whole + (if point then "." else "") + fraction
    }

    /** The exact decimal value that `parseFloat` rounds to the nearest double. */
    function Value(): real
      requires Valid()
    {
      DigitsValue(whole) as real + DigitsValue(fraction) as real / Pow10(|fraction|) as real
    }
  }

  /** The longest run of ASCII digits starting at `i`. */
  function DigitRun(s: string, i: nat): (d: string)
    requires i <= |s|
    ensures i + |d| <= |s|
    decreases |s| - i
  {
    if i < |s| && IsDigit(s[i]) then [s[i]] + DigitRun(s, i + 1) else []
  }

  /** The run is made of digits, it is written at `i`, and no digit follows it. */
  lemma {:induction false} DigitRunFacts(s: string, i: nat)
    requires i <= |s|
    ensures AllDigits(DigitRun(s, i)) && IsAt(s, i, DigitRun(s, i))
    ensures var e := i + |DigitRun(s, i)|; e == |s| || !IsDigit(s[e])
    decreases |s| - i
  {
    var d := DigitRun(s, i);
    if i < |s| && IsDigit(s[i]) {
      var rest := DigitRun(s, i + 1);
      DigitRunFacts(s, i + 1);
      assert d == [s[i]] + rest;
      IsAtChar(s, i);
      IsAtConcat(s, i, [s[i]], rest);
      assert forall j | 1 <= j < |d| :: d[j] == rest[j - 1];
    } else {
      assert s[i..i] == d;
    }
  }

  /** Digits written at `i` and not followed by a digit are the run. */
  lemma {:induction false} DigitRunStops(s: string, i: nat, d: string)
    requires AllDigits(d) && IsAt(s, i, d)
    requires var e := i + |d|; e == |s| || !IsDigit(s[e])
    ensures DigitRun(s, i) == d
    decreases |d|
  {
    if d != [] {
      var rest := d[1..];
      IsAtChars(s, i, d);
      assert d == [d[0]] + rest;
      IsAtSplit(s, i, [d[0]], rest);
      assert AllDigits(rest) by {
        assert forall j | 0 <= j < |rest| :: rest[j] == d[j + 1];
      }
      DigitRunStops(s, i + 1, rest);
    }
  }

  /**
   * The numeral `\d+\.?\d*` at `i`, if any: the digit run, then, when a
   * point follows it, the point and the digit run after that.
   */
  function NumeralAt(s: string, i: nat): (r: Option<Numeral>)
    requires i <= |s|
    ensures r.Some? ==> i + |r.value.Spelling()| <= |s|
    ensures r.None? <==> i == |s| || !IsDigit(s[i])
  {
    var w := DigitRun(s, i);
    if w == [] then None
    else if i + |w| < |s| && s[i + |w|] == '.' then Some(Numeral(w, true, DigitRun(s, i + |w| + 1)))
    else Some(Numeral(w, false, []))
  }

  /**
   * The numeral found is well formed and written at `i`, and it is the
   * longest one: the next character is not a digit, and not a point unless
   * the numeral already has one.
   */
  lemma NumeralAtSound(s: string, i: nat)
    requires i <= |s|
    ensures NumeralAt(s, i).Some? ==>
      var n := NumeralAt(s, i).value;
      var e := i + |n.Spelling()|;
      && n.Valid() && IsAt(s, i, n.Spelling())
      && (e == |s| || (!IsDigit(s[e]) && (n.point || s[e] != '.')))
  {
    DigitRunFacts(s, i);
    var w := DigitRun(s, i);
    if w != [] {
      if i + |w| < |s| && s[i + |w|] == '.' {
        PointSound(s, i, w);
      } else {
        assert NumeralAt(s, i) == Some(Numeral(w, false, []));
        assert Numeral(w, false, []).Spelling() == w;
      }
    }
  }

  /** `NumeralAtSound` for digits followed by a point. */
  lemma PointSound(s: string, i: nat, w: string)
    requires w != [] && AllDigits(w) && IsAt(s, i, w) && i + |w| < |s| && s[i + |w|] == '.'
    ensures var n := Numeral(w, true, DigitRun(s, i + |w| + 1));
      var e := i + |n.Spelling()|;
      && n.Valid() && IsAt(s, i, n.Spelling())
      && (e == |s| || !IsDigit(s[e]))
  {
    var f := DigitRun(s, i + |w| + 1);
    DigitRunFacts(s, i + |w| + 1);
    IsAtChar(s, i + |w|);
    assert [s[i + |w|]] == ".";
    IsAtConcat(s, i, w, ".");
    IsAtConcat(s, i, w + ".", f);
    assert Numeral(w, true, f).Spelling() == w + "." + f;
  }

  /** Where the parts of a numeral written at `i` stand. */
  lemma SpellingParts(s: string, i: nat, n: Numeral)
    requires IsAt(s, i, n.Spelling())
    ensures IsAt(s, i, n.whole)
    ensures n.point ==> i + |n.whole| < |s| && s[i + |n.whole|] == '.' && IsAt(s, i + |n.whole| + 1, n.fraction)
  {
    var p := if n.point then "." else "";
    IsAtSplit(s, i, n.whole + p, n.fraction);
    IsAtSplit(s, i, n.whole, p);
  }

  /** Any numeral written at `i` and not followed by a digit or a point is the one `NumeralAt` finds. */
  lemma NumeralAtGreedy(s: string, i: nat, n: Numeral)
    requires n.Valid() && IsAt(s, i, n.Spelling())
    requires var e := i + |n.Spelling()|; e == |s| || (!IsDigit(s[e]) && s[e] != '.')
    ensures NumeralAt(s, i) == Some(n)
  {
    SpellingParts(s, i, n);
    if n.point {
      PointCase(s, i, n);
    } else {
      assert n.Spelling() == n.whole;
      DigitRunStops(s, i, n.whole);
    }
  }

  /** `NumeralAtGreedy` for a numeral with a point. */
  lemma PointCase(s: string, i: nat, n: Numeral)
    requires n.Valid() && n.point
    requires IsAt(s, i, n.whole) && i + |n.whole| < |s| && s[i + |n.whole|] == '.'
    requires IsAt(s, i + |n.whole| + 1, n.fraction)
    requires var e := i + |n.whole| + 1 + |n.fraction|; e == |s| || !IsDigit(s[e])
    ensures NumeralAt(s, i) == Some(n)
  {
    DigitRunStops(s, i, n.whole);
    DigitRunStops(s, i + |n.whole| + 1, n.fraction);
  }

  /** The longest run of ECMAScript white space starting at `i`: what `\s*` takes. */
  function SpacesAt(s: string, i: nat): (sp: string)
    requires i <= |s|
    ensures i + |sp| <= |s|
    decreases |s| - i
  {
    if i < |s| && IsSpace(Ecma, s[i]) then [s[i]] + SpacesAt(s, i + 1) else []
  }

  /** The run is white space written at `i`, and no white space follows it. */
  lemma {:induction false} SpacesAtFacts(s: string, i: nat)
    requires i <= |s|
    ensures AllSpace(Ecma, SpacesAt(s, i)) && IsAt(s, i, SpacesAt(s, i))
    ensures var e := i + |SpacesAt(s, i)|; e == |s| || !IsSpace(Ecma, s[e])
    decreases |s| - i
  {
    var sp := SpacesAt(s, i);
    if i < |s| && IsSpace(Ecma, s[i]) {
      var rest := SpacesAt(s, i + 1);
      SpacesAtFacts(s, i + 1);
      assert sp == [s[i]] + rest;
      IsAtChar(s, i);
      IsAtConcat(s, i, [s[i]], rest);
      assert forall j | 1 <= j < |sp| :: sp[j] == rest[j - 1];
    } else {
      assert s[i..i] == sp;
    }
  }

  /** White space written at `i` and not followed by white space is the run. */
  lemma {:induction false} SpacesAtStops(s: string, i: nat, sp: string)
    requires AllSpace(Ecma, sp) && IsAt(s, i, sp)
    requires var e := i + |sp|; e == |s| || !IsSpace(Ecma, s[e])
    ensures SpacesAt(s, i) == sp
    decreases |sp|
  {
    if sp != [] {
      var rest := sp[1..];
      IsAtChars(s, i, sp);
      assert sp == [sp[0]] + rest;
      IsAtSplit(s, i, [sp[0]], rest);
      assert AllSpace(Ecma, rest) by {
        assert forall j | 0 <= j < |rest| :: rest[j] == sp[j + 1];
      }
      SpacesAtStops(s, i + 1, rest);
    }
  }

  /** One element of a pattern: a literal word, `\s*`, or a captured `(\d+\.?\d*)`. */
  datatype Token = Word(text: string) | Blank | Num

  /** The text one token consumed. */
  datatype Lexeme = WordLex(word: string) | BlankLex(spaces: string) | NumLex(numeral: Numeral)

  function LexemeText(x: Lexeme): string {
    match x
    case WordLex(w) => w
    case BlankLex(sp) => sp
    case NumLex(n) => n.Spelling()
  }

  /** `x` is text that token `t` accepts. */
  predicate Fits(t: Token, x: Lexeme) {
    match t
    case Word(w) => x == WordLex(w)
    case Blank => x.BlankLex? && AllSpace(Ecma, x.spaces)
    case Num => x.NumLex? && x.numeral.Valid()
  }

  /** `xs` spells pattern `p`, token by token. */
  predicate Spells(p: seq<Token>, xs: seq<Lexeme>) {
    |p| == |xs| && forall k | 0 <= k < |p| :: Fits(p[k], xs[k])
  }

  /** The text a spelling stands for. */
  function Flatten(xs: seq<Lexeme>): string {
    if xs == [] then [] else LexemeText(xs[0]) + Flatten(xs[1..])
  }

  /** The lexeme one token matches at `i`; white space and numerals take the longest run. */
  function LexAt(t: Token, s: string, i: nat): (r: Option<Lexeme>)
    requires i <= |s|
    ensures r.Some? ==> i + |LexemeText(r.value)| <= |s|
  {
    match t
    case Word(w) => if IsAt(s, i, w) then Some(WordLex(w)) else None
    case Blank => Some(BlankLex(SpacesAt(s, i)))
    case Num =>
      match NumeralAt(s, i)
      case None => None
      case Some(n) => Some(NumLex(n))
  }

  /** The lexeme a token matches fits the token and is written at `i`. */
  lemma LexAtSound(t: Token, s: string, i: nat)
    requires i <= |s|
    ensures LexAt(t, s, i).Some? ==> Fits(t, LexAt(t, s, i).value) && IsAt(s, i, LexemeText(LexAt(t, s, i).value))
  {
    match t
    case Word(w) =>
    case Blank =>
      SpacesAtFacts(s, i);
    case Num =>
      NumeralAtSound(s, i);
  }

  /** A lexer of one text: the lexeme each token matches at each position, if any. */
  type Lexer = (Token, nat) -> Option<Lexeme>

  /** The lexer of `s` that `LexAt` describes. */
  function Lex(s: string): Lexer {
    (t: Token, j: nat) => if j <= |s| then LexAt(t, s, j) else None
  }

  /** Every lexeme `lex` returns fits its token and is written in `s` at its position. */
  ghost predicate Honest(lex: Lexer, s: string) {
    forall t: Token, j: nat :: lex(t, j).Some? ==> Fits(t, lex(t, j).value) && IsAt(s, j, LexemeText(lex(t, j).value))
  }

  /** Wherever `s` spells a well-formed pattern, `lex` returns the spelling's first lexeme. */
  ghost predicate Greedy(lex: Lexer, s: string) {
    forall p: seq<Token>, xs: seq<Lexeme>, j: nat {:trigger lex(p[0], j), Spells(p, xs)}
      | p != [] && WellFormed(p) && Spells(p, xs) && IsAt(s, j, Flatten(xs)) ::
      lex(p[0], j) == Some(xs[0])
  }

  /** The pattern `p` matched from `i`, token after token, each token taking what `lex` gives it. */
  function MatchWith(lex: Lexer, p: seq<Token>, i: nat): Option<seq<Lexeme>>
    decreases |p|
  {
    if p == [] then Some([])
    else
      match lex(p[0], i)
      case None => None
      case Some(x) =>
        match MatchWith(lex, p[1..], i + |LexemeText(x)|)
        case None => None
        case Some(xs) => Some([x] + xs)
  }

  /** The pattern `p` matched at `i` of `s`, as the regular expression engine would. */
  function MatchTokens(p: seq<Token>, s: string, i: nat): Option<seq<Lexeme>> {
    MatchWith(Lex(s), p, i)
  }

  /** The lexer of `s` is honest. */
  lemma LexHonest(s: string)
    ensures Honest(Lex(s), s)
  {
    forall t: Token, j: nat
      ensures Lex(s)(t, j).Some? ==> Fits(t, Lex(s)(t, j).value) && IsAt(s, j, LexemeText(Lex(s)(t, j).value))
    {
      if j <= |s| {
        LexAtSound(t, s, j);
      }
    }
  }

  /** The lexer of `s` is greedy enough. */
  lemma LexGreedy(s: string)
    ensures Greedy(Lex(s), s)
  {
    forall p: seq<Token>, xs: seq<Lexeme>, j: nat | p != [] && WellFormed(p) && Spells(p, xs) && IsAt(s, j, Flatten(xs))
      ensures Lex(s)(p[0], j) == Some(xs[0])
    {
      LexAtComplete(p, xs, s, j);
    }
  }

  /** What the matcher returns spells the pattern and is written at `i`. */
  lemma MatchTokensSound(p: seq<Token>, s: string, i: nat, xs: seq<Lexeme>)
    requires i <= |s| && MatchTokens(p, s, i) == Some(xs)
    ensures Spells(p, xs) && IsAt(s, i, Flatten(xs))
  {
    LexHonest(s);
    MatchWithSound(Lex(s), s, p, i, xs);
  }

  /** Whatever an honest lexer's matcher returns spells the pattern and is written at `i`. */
  lemma {:induction false} MatchWithSound(lex: Lexer, s: string, p: seq<Token>, i: nat, xs: seq<Lexeme>)
    requires Honest(lex, s) && i <= |s| && MatchWith(lex, p, i) == Some(xs)
    ensures Spells(p, xs) && IsAt(s, i, Flatten(xs))
    decreases |p|
  {
    if p == [] {
      NilSound(lex, s, p, i, xs);
    } else {
      var x, rest := MatchWithCons(lex, p, i, xs);
      var j := HonestEnd(lex, s, p[0], i, x);
      MatchWithSound(lex, s, p[1..], j, rest);
      ConsSound(lex, s, p, i, x, rest, xs);
    }
  }

  lemma NilSound(lex: Lexer, s: string, p: seq<Token>, i: nat, xs: seq<Lexeme>)
    requires p == [] && i <= |s| && MatchWith(lex, p, i) == Some(xs)
    ensures Spells(p, xs) && IsAt(s, i, Flatten(xs))
  {
    assert s[i..i] == [];
  }

  /** Where an honest lexer's lexeme ends: still inside the text. */
  lemma HonestEnd(lex: Lexer, s: string, t: Token, i: nat, x: Lexeme) returns (j: nat)
    requires Honest(lex, s) && lex(t, i) == Some(x)
    ensures j == i + |LexemeText(x)| && j <= |s|
  {
    j := i + |LexemeText(x)|;
  }

  /** A match of a non-empty pattern is the first token's lexeme followed by a match of the rest. */
  lemma MatchWithCons(lex: Lexer, p: seq<Token>, i: nat, xs: seq<Lexeme>) returns (x: Lexeme, rest: seq<Lexeme>)
    requires p != [] && MatchWith(lex, p, i) == Some(xs)
    ensures lex(p[0], i) == Some(x)
    ensures MatchWith(lex, p[1..], i + |LexemeText(x)|) == Some(rest) && xs == [x] + rest
  {
    x := lex(p[0], i).value;
    rest := MatchWith(lex, p[1..], i + |LexemeText(x)|).value;
  }

  /** An honest lexer's first lexeme, followed by a spelling of the rest of the pattern, spells the pattern. */
  lemma ConsSound(lex: Lexer, s: string, p: seq<Token>, i: nat, x: Lexeme, rest: seq<Lexeme>, xs: seq<Lexeme>)
    requires Honest(lex, s) && p != [] && lex(p[0], i) == Some(x) && xs == [x] + rest
    requires Spells(p[1..], rest) && IsAt(s, i + |LexemeText(x)|, Flatten(rest))
    ensures Spells(p, xs) && IsAt(s, i, Flatten(xs))
  {
    assert Fits(p[0], x) && IsAt(s, i, LexemeText(x));
    assert xs[0] == x && xs[1..] == rest;
    var a, b := FlattenHead(xs);
    IsAtConcat(s, i, a, b);
    forall k | 0 <= k < |p|
      ensures Fits(p[k], xs[k])
    {
      if k > 0 {
        assert p[k] == p[1..][k - 1] && xs[k] == rest[k - 1];
      }
    }
  }

  /** A white-space run must be followed by a numeral or by a word that starts with a non-space. */
  predicate StopsBlank(t: Token) {
    t.Num? || (t.Word? && t.text != [] && !IsSpace(Ecma, t.text[0]))
  }

  /** The word after a numeral's trailing blank cannot extend the numeral. */
  predicate StopsNumeral(t: Token) {
    t.Word? && t.text != [] && !IsDigit(t.text[0]) && t.text[0] != '.'
  }

  /** The condition on the token at index `k` of a pattern that makes greedy matching exact there. */
  predicate LocalOk(p: seq<Token>, k: nat)
    requires k < |p|
  {
    match p[k]
    case Word(w) => w != []
    case Blank => k + 1 < |p| && StopsBlank(p[k + 1])
    case Num => k + 2 < |p| && p[k + 1].Blank? && StopsNumeral(p[k + 2])
  }

  /**
   * The shape of pattern for which greedy matching is exact: words are not
   * empty, a blank is never last and is stopped by what follows it, and a
   * numeral is followed by a blank and then a word that cannot continue it.
   */
  predicate WellFormed(p: seq<Token>) {
    forall k | 0 <= k < |p| :: LocalOk(p, k)
  }

  /** A spelling of a pattern, less its first lexeme, spells the rest of the pattern. */
  lemma SpellsTail(p: seq<Token>, xs: seq<Lexeme>)
    requires Spells(p, xs) && p != []
    ensures Spells(p[1..], xs[1..])
  {
    forall k | 0 <= k < |p| - 1
      ensures Fits(p[1..][k], xs[1..][k])
    {
      assert Fits(p[k + 1], xs[k + 1]);
    }
  }

  lemma WellFormedTail(p: seq<Token>)
    requires WellFormed(p) && p != []
    ensures WellFormed(p[1..])
  {
    forall k | 0 <= k < |p| - 1
      ensures LocalOk(p[1..], k)
    {
      assert LocalOk(p, k + 1);
    }
  }

  /** Where the text of the first lexeme ends, the text of the others begins. */
  lemma RestAt(xs: seq<Lexeme>, s: string, i: nat)
    requires xs != [] && IsAt(s, i, Flatten(xs))
    ensures IsAt(s, i, LexemeText(xs[0])) && IsAt(s, i + |LexemeText(xs[0])|, Flatten(xs[1..]))
  {
    var a, b := FlattenHead(xs);
    IsAtSplit(s, i, a, b);
  }

  lemma FlattenHead(xs: seq<Lexeme>) returns (a: string, b: string)
    requires xs != []
    ensures a == LexemeText(xs[0]) && b == Flatten(xs[1..]) && Flatten(xs) == a + b
  {
    a, b := LexemeText(xs[0]), Flatten(xs[1..]);
  }

  /**
   * The text of a spelling whose pattern starts with a non-empty word or a
   * numeral starts with the word's first character or with a digit.
   */
  lemma HeadChar(p: seq<Token>, xs: seq<Lexeme>)
    requires Spells(p, xs) && p != [] && ((p[0].Word? && p[0].text != []) || p[0].Num?)
    ensures Flatten(xs) != []
    ensures p[0].Word? ==> Flatten(xs)[0] == p[0].text[0]
    ensures p[0].Num? ==> IsDigit(Flatten(xs)[0])
  {
    var a, b := FlattenHead(xs);
    assert Fits(p[0], xs[0]);
  }

  /** What follows the first lexeme of a spelling written at `i`, when there is anything. */
  lemma NextChar(xs: seq<Lexeme>, s: string, i: nat)
    requires xs != [] && IsAt(s, i, Flatten(xs)) && Flatten(xs[1..]) != []
    ensures i + |LexemeText(xs[0])| < |s| && s[i + |LexemeText(xs[0])|] == Flatten(xs[1..])[0]
  {
    RestAt(xs, s, i);
  }

  /** One step of the matcher: the first token's lexeme followed by the rest of the pattern's. */
  lemma MatchWithStep(lex: Lexer, p: seq<Token>, i: nat, x: Lexeme, rest: seq<Lexeme>)
    requires p != [] && lex(p[0], i) == Some(x)
    requires MatchWith(lex, p[1..], i + |LexemeText(x)|) == Some(rest)
    ensures MatchWith(lex, p, i) == Some([x] + rest)
  {
  }

  /** Every spelling of a well-formed pattern written at `i` is what the matcher returns there. */
  lemma MatchTokensComplete(p: seq<Token>, xs: seq<Lexeme>, s: string, i: nat)
    requires WellFormed(p) && Spells(p, xs)
    requires IsAt(s, i, Flatten(xs))
    ensures MatchTokens(p, s, i) == Some(xs)
  {
    LexGreedy(s);
    MatchWithComplete(Lex(s), s, p, xs, i);
  }

  lemma {:induction false} MatchWithComplete(lex: Lexer, s: string, p: seq<Token>, xs: seq<Lexeme>, i: nat)
    requires Greedy(lex, s) && WellFormed(p) && Spells(p, xs)
    requires IsAt(s, i, Flatten(xs))
    ensures MatchWith(lex, p, i) == Some(xs)
    decreases |p|
  {
    if p != [] {
      var x, rest := CompleteHead(lex, s, p, xs, i);
      MatchWithComplete(lex, s, p[1..], rest, i + |LexemeText(x)|);
      MatchWithStep(lex, p, i, x, rest);
    }
  }

  /** The first step of `MatchWithComplete`: the lexer takes the spelling's first lexeme, and the rest is spelled after it. */
  lemma CompleteHead(lex: Lexer, s: string, p: seq<Token>, xs: seq<Lexeme>, i: nat) returns (x: Lexeme, rest: seq<Lexeme>)
    requires Greedy(lex, s) && p != [] && WellFormed(p) && Spells(p, xs)
    requires IsAt(s, i, Flatten(xs))
    ensures lex(p[0], i) == Some(x) && xs == [x] + rest
    ensures WellFormed(p[1..]) && Spells(p[1..], rest) && IsAt(s, i + |LexemeText(x)|, Flatten(rest))
  {
    x, rest := xs[0], xs[1..];
    RestAt(xs, s, i);
    WellFormedTail(p);
    SpellsTail(p, xs);
    assert lex(p[0], i) == Some(x);
    assert [x] + rest == xs;
  }

  /** The first token of a well-formed pattern takes exactly the first lexeme of any spelling present at `i`. */
  lemma LexAtComplete(p: seq<Token>, xs: seq<Lexeme>, s: string, i: nat)
    requires WellFormed(p) && Spells(p, xs) && p != []
    requires IsAt(s, i, Flatten(xs))
    ensures LexAt(p[0], s, i) == Some(xs[0])
  {
    assert LocalOk(p, 0) && Fits(p[0], xs[0]);
    RestAt(xs, s, i);
    match p[0]
    case Word(w) =>
    case Blank =>
      BlankComplete(p, xs, s, i);
    case Num =>
      NumComplete(p, xs, s, i);
  }

  /** A blank takes the whole white-space run: what follows it starts with a non-space. */
  lemma BlankComplete(p: seq<Token>, xs: seq<Lexeme>, s: string, i: nat)
    requires Spells(p, xs) && |p| >= 2 && p[0].Blank? && StopsBlank(p[1])
    requires IsAt(s, i, Flatten(xs))
    ensures LexAt(p[0], s, i) == Some(xs[0])
  {
    assert Fits(p[0], xs[0]);
    BlankFollower(p, xs, s, i);
    SpacesAtStops(s, i, xs[0].spaces);
    LexAtBlank(s, i);
  }

  /** The white space of a blank is written at `i`, and what follows it is not white space. */
  lemma BlankFollower(p: seq<Token>, xs: seq<Lexeme>, s: string, i: nat)
    requires Spells(p, xs) && |p| >= 2 && p[0].Blank? && StopsBlank(p[1])
    requires IsAt(s, i, Flatten(xs))
    ensures xs[0].BlankLex? && IsAt(s, i, xs[0].spaces)
    ensures var e := i + |xs[0].spaces|; e == |s| || !IsSpace(Ecma, s[e])
  {
    assert Fits(p[0], xs[0]);
    RestAt(xs, s, i);
    SpellsTail(p, xs);
    var q, ys := p[1..], xs[1..];
    assert q[0] == p[1];
    HeadChar(q, ys);
    NextChar(xs, s, i);
    var c := Flatten(ys)[0];
    if q[0].Word? {
      assert c == q[0].text[0];
    } else {
      assert IsDigit(c);
    }
  }

  lemma LexAtBlank(s: string, i: nat)
    requires i <= |s|
    ensures LexAt(Blank, s, i) == Some(BlankLex(SpacesAt(s, i)))
  {
  }

  /** A numeral takes the longest numeral: it is followed by white space or by a word that cannot extend it. */
  lemma NumComplete(p: seq<Token>, xs: seq<Lexeme>, s: string, i: nat)
    requires Spells(p, xs) && |p| >= 3 && p[0].Num? && p[1].Blank? && StopsNumeral(p[2])
    requires IsAt(s, i, Flatten(xs))
    ensures LexAt(p[0], s, i) == Some(xs[0])
  {
    assert Fits(p[0], xs[0]);
    var n := xs[0].numeral;
    var e := i + |n.Spelling()|;
    assert IsAt(s, i, n.Spelling()) by {
      RestAt(xs, s, i);
    }
    assert e == |s| || (!IsDigit(s[e]) && s[e] != '.') by {
      NumFollower(p, xs, s, i);
    }
    NumeralAtGreedy(s, i, n);
    LexAtNum(s, i, n);
  }

  /** The character after a numeral's text, when the pattern puts a blank and a stopping word after it. */
  lemma NumFollower(p: seq<Token>, xs: seq<Lexeme>, s: string, i: nat)
    requires Spells(p, xs) && |p| >= 3 && p[1].Blank? && StopsNumeral(p[2])
    requires IsAt(s, i, Flatten(xs))
    ensures var e := i + |LexemeText(xs[0])|; e < |s| && !IsDigit(s[e]) && s[e] != '.'
  {
    assert Fits(p[1], xs[1]);
    var e := i + |LexemeText(xs[0])|;
    var ys := xs[1..];
    var sp := xs[1].spaces;
    var tail := Flatten(ys[1..]);
    assert AllSpace(Ecma, sp);
    SpellsTail(p, xs);
    SpellsTail(p[1..], ys);
    assert p[1..][1..] == p[2..];
    HeadChar(p[2..], ys[1..]);
    var a, b := FlattenHead(ys);
    assert Flatten(ys) == sp + tail;
    NextChar(xs, s, i);
    assert s[e] == (sp + tail)[0];
    if sp != [] {
      assert s[e] == sp[0] && IsSpace(Ecma, sp[0]);
    } else {
      assert s[e] == tail[0] == p[2].text[0];
    }
  }

  lemma LexAtNum(s: string, i: nat, n: Numeral)
    requires i <= |s| && NumeralAt(s, i) == Some(n)
    ensures LexAt(Num, s, i) == Some(NumLex(n))
  {
  }

  /** The three call forms the extractor looks for. */
  datatype Kind = CubeKind | SphereKind | CylinderKind

  /**
   * The regular expressions, token by token:
   * `cube\(\s*\[\s*(N)\s*,\s*(N)\s*,\s*(N)\s*\]\s*\)`,
   * `sphere\(\s*r\s*=\s*(N)\s*\)` and
   * `cylinder\(\s*h\s*=\s*(N)\s*,\s*r\s*=\s*(N)\s*\)`, where N is `\d+\.?\d*`.
   */
  function Pattern(k: Kind): seq<Token> {
    match k
    case CubeKind =>
      [Word("cube("), Blank, Word("["), Blank, Num, Blank, Word(","), Blank, Num, Blank,
       Word(","), Blank, Num, Blank, Word("]"), Blank, Word(")")]
    case SphereKind =>
      [Word("sphere("), Blank, Word("r"), Blank, Word("="), Blank, Num, Blank, Word(")")]
    case CylinderKind =>
      [Word("cylinder("), Blank, Word("h"), Blank, Word("="), Blank, Num, Blank, Word(","), Blank,
       Word("r"), Blank, Word("="), Blank, Num, Blank, Word(")")]
  }

  /** The call name every match of kind `k` begins with. */
  function Keyword(k: Kind): string {
    Pattern(k)[0].text
  }

  lemma PatternFacts(k: Kind)
    ensures WellFormed(Pattern(k))
    ensures Pattern(k)[0].Word? && Keyword(k) != []
  {
    var p := Pattern(k);
    forall j | 0 <= j < |p|
      ensures LocalOk(p, j)
    {
    }
  }

  /** The token indices of a pattern's capture groups, group 1 first. */
  function Groups(k: Kind): seq<nat> {
    match k
    case CubeKind => [4, 8, 12]
    case SphereKind => [6]
    case CylinderKind => [6, 14]
  }

  lemma GroupsAreNumerals(k: Kind, xs: seq<Lexeme>)
    requires Spells(Pattern(k), xs)
    ensures forall g | g in Groups(k) :: g < |xs| && xs[g].NumLex? && xs[g].numeral.Valid()
  {
    forall g | g in Groups(k)
      ensures g < |xs| && xs[g].NumLex? && xs[g].numeral.Valid()
    {
      assert Fits(Pattern(k)[g], xs[g]);
    }
  }

  /**
   * A primitive descriptor: the numerals of one recognised call, in the
   * order the call writes them (`cube([width, depth, height])`).
   */
  datatype Primitive =
    | Cube(width: Numeral, depth: Numeral, height: Numeral)
    | Sphere(radius: Numeral)
    | Cylinder(height: Numeral, radius: Numeral)
  {
    predicate Valid() {
      match this
      case Cube(w, d, h) => w.Valid() && d.Valid() && h.Valid()
      case Sphere(r) => r.Valid()
      case Cylinder(h, r) => h.Valid() && r.Valid()
    }

    function KindOf(): Kind {
      match this
      case Cube(_, _, _) => CubeKind
      case Sphere(_) => SphereKind
      case Cylinder(_, _) => CylinderKind
    }
  }

  /** The descriptor built from the capture groups of a match, group 1 first. */
  function Build(k: Kind, xs: seq<Lexeme>): (r: Primitive)
    requires Spells(Pattern(k), xs)
    ensures r.Valid() && r.KindOf() == k
  {
    GroupsAreNumerals(k, xs);
    match k
    case CubeKind => Cube(xs[4].numeral, xs[8].numeral, xs[12].numeral)
    case SphereKind => Sphere(xs[6].numeral)
    case CylinderKind => Cylinder(xs[6].numeral, xs[14].numeral)
  }

  /** One match of a global regular expression: where it starts, what it consumed, what it describes. */
  datatype Hit = Hit(start: nat, lexemes: seq<Lexeme>, call: Primitive) {
    function End(): nat {
      start + |Flatten(lexemes)|
    }
  }

  /**
   * The match of the regular expression for `k` anchored at `i`, if there is
   * one: a spelling of the pattern written at `i`, and the descriptor built
   * from its capture groups. A match is never empty.
   */
  function MatchAt(k: Kind, s: string, i: nat): (r: Option<Hit>)
    requires i <= |s|
    ensures r.Some? ==> r.value.start == i && i < r.value.End() <= |s|
  {
    match MatchTokens(Pattern(k), s, i)
    case None => None
    case Some(xs) =>
      MatchTokensSound(Pattern(k), s, i, xs);
      KeywordFirst(k, xs, s, i);
      Some(Hit(i, xs, Build(k, xs)))
  }

  /** A spelling of a pattern written at `i` starts with the pattern's keyword. */
  lemma KeywordFirst(k: Kind, xs: seq<Lexeme>, s: string, i: nat)
    requires Spells(Pattern(k), xs) && IsAt(s, i, Flatten(xs))
    ensures IsAt(s, i, Keyword(k)) && 0 < |Keyword(k)| <= |Flatten(xs)|
  {
    PatternFacts(k);
    assert Fits(Pattern(k)[0], xs[0]);
    RestAt(xs, s, i);
    var a, b := FlattenHead(xs);
  }

  /** A match spells the pattern at its start, and its descriptor is built from that spelling. */
  lemma MatchAtSound(k: Kind, s: string, i: nat)
    requires i <= |s|
    ensures MatchAt(k, s, i).Some? ==>
      var h := MatchAt(k, s, i).value;
      && Spells(Pattern(k), h.lexemes) && IsAt(s, i, Flatten(h.lexemes))
      && h.call == Build(k, h.lexemes) && IsAt(s, i, Keyword(k))
  {
    match MatchTokens(Pattern(k), s, i)
    case None =>
    case Some(xs) =>
      MatchTokensSound(Pattern(k), s, i, xs);
      KeywordFirst(k, xs, s, i);
  }

  /** Every spelling of the pattern for `k` written at `i` is matched there, with the numerals it spells. */
  lemma MatchAtComplete(k: Kind, xs: seq<Lexeme>, s: string, i: nat)
    requires Spells(Pattern(k), xs) && IsAt(s, i, Flatten(xs))
    ensures MatchAt(k, s, i) == Some(Hit(i, xs, Build(k, xs)))
  {
    PatternFacts(k);
    MatchTokensComplete(Pattern(k), xs, s, i);
  }

  /**
   * The anchored matches of `k` at every position of `s`, `|s|` included:
   * the table a global regular expression consults as it advances.
   */
  function Table(k: Kind, s: string): (t: seq<Option<Hit>>)
    ensures |t| == |s| + 1 && Anchored(t)
    ensures forall p | 0 <= p <= |s| :: t[p] == MatchAt(k, s, p)
  {
    seq(|s| + 1, p requires 0 <= p <= |s| => MatchAt(k, s, p))
  }

  /** A match recorded at position `p` starts at `p`, is not empty, and ends inside the text. */
  predicate Anchored(t: seq<Option<Hit>>) {
    forall p | 0 <= p < |t| :: t[p].Some? ==> t[p].value.start == p && p < t[p].value.End() < |t|
  }

  /** No match starts in `[a, b)`. */
  predicate NoneIn(t: seq<Option<Hit>>, a: nat, b: nat) {
    forall p | a <= p < b && p < |t| :: t[p].None?
  }

  /**
   * `hits` is what a global regular expression finds from `from` on: each
   * match is the leftmost one at or after the end of the previous match, and
   * nothing matches after the last one.
   */
  predicate IsScan(t: seq<Option<Hit>>, from: nat, hits: seq<Hit>)
    decreases |hits|
  {
    && from < |t|
    && if hits == [] then NoneIn(t, from, |t|)
       else
         && from <= hits[0].start < |t|
         && NoneIn(t, from, hits[0].start)
         && t[hits[0].start] == Some(hits[0])
         && IsScan(t, hits[0].End(), hits[1..])
  }

  /**
   * The `while ((m = re.exec(code)) !== null)` loop over the table of
   * anchored matches: the matches from `from` on, left to right. Every
   * match takes at least one character.
   */
  function ScanFrom(t: seq<Option<Hit>>, from: nat): (hits: seq<Hit>)
    requires Anchored(t) && from < |t|
    ensures |hits| < |t| - from
    decreases |t| - from
  {
    if from == |t| - 1 then []
    else
      match t[from]
      case Some(h) => [h] + ScanFrom(t, h.End())
      case None => ScanFrom(t, from + 1)
  }

  /** `ScanFrom` is a scan: leftmost matches, each search resuming where the last match ended. */
  lemma {:induction false} ScanSound(t: seq<Option<Hit>>, from: nat)
    requires Anchored(t) && from < |t|
    ensures IsScan(t, from, ScanFrom(t, from))
    decreases |t| - from
  {
    if from < |t| - 1 {
      match t[from]
      case Some(h) =>
        var rest := ScanFrom(t, h.End());
        ScanSound(t, h.End());
        assert ScanFrom(t, from) == [h] + rest;
        assert ([h] + rest)[1..] == rest;
      case None =>
        ScanSound(t, from + 1);
    }
  }

  /** There is only one way to scan a text: anything that scans it is `ScanFrom`. */
  lemma {:induction false} ScanUnique(t: seq<Option<Hit>>, from: nat, hits: seq<Hit>)
    requires Anchored(t) && IsScan(t, from, hits)
    ensures hits == ScanFrom(t, from)
    decreases |t| - from
  {
    if from < |t| - 1 {
      match t[from]
      case Some(h) =>
        assert hits != [] && hits[0] == h;
        var rest := hits[1..];
        ScanUnique(t, h.End(), rest);
        assert hits == [h] + rest;
      case None =>
        if hits != [] {
          assert hits[0].start != from;
        }
        ScanUnique(t, from + 1, hits);
    }
  }

  /** Every match a scan reports is the table's entry at its start. */
  lemma {:induction false} ScanHits(t: seq<Option<Hit>>, from: nat, hits: seq<Hit>)
    requires IsScan(t, from, hits)
    ensures forall j | 0 <= j < |hits| :: hits[j].start < |t| && t[hits[j].start] == Some(hits[j])
    decreases |hits|
  {
    if hits != [] {
      ScanHits(t, hits[0].End(), hits[1..]);
      assert forall j | 1 <= j < |hits| :: hits[j] == hits[1..][j - 1];
    }
  }

  /** A scan reports matches left to right, none overlapping the one before it. */
  lemma {:induction false} ScanOrdered(t: seq<Option<Hit>>, from: nat, hits: seq<Hit>)
    requires Anchored(t) && IsScan(t, from, hits)
    ensures forall j | 0 <= j < |hits| :: from <= hits[j].start < hits[j].End() < |t|
    ensures forall j | 0 <= j < |hits| - 1 :: hits[j].End() <= hits[j + 1].start
    decreases |hits|
  {
    if hits != [] {
      var h := hits[0];
      var rest := hits[1..];
      ScanOrdered(t, h.End(), rest);
      assert forall j | 1 <= j < |hits| :: hits[j] == rest[j - 1];
    }
  }

  /** All matches of `k` in `s`, left to right, as the `exec` loop finds them from index 0. */
  function Scan(k: Kind, s: string): (hits: seq<Hit>)
    ensures |hits| <= |s|
  {
    ScanFrom(Table(k, s), 0)
  }

  /** The descriptors of a list of matches. */
  function Calls(hits: seq<Hit>): (r: seq<Primitive>)
    ensures |r| == |hits|
    ensures forall j | 0 <= j < |hits| :: r[j] == hits[j].call
  {
    if hits == [] then [] else [hits[0].call] + Calls(hits[1..])
  }

  /** Every match a scan of `k` reports is a match of `k` in the text, with a well-formed descriptor of kind `k`. */
  lemma ScanMatches(k: Kind, s: string)
    ensures forall h | h in Scan(k, s) :: h.start <= |s| && MatchAt(k, s, h.start) == Some(h)
    ensures forall h | h in Scan(k, s) :: h.call.Valid() && h.call.KindOf() == k
  {
    var t := Table(k, s);
    ScanSound(t, 0);
    ScanHits(t, 0, Scan(k, s));
    forall h | h in Scan(k, s)
      ensures h.start <= |s| && MatchAt(k, s, h.start) == Some(h)
      ensures h.call.Valid() && h.call.KindOf() == k
    {
      MatchAtSound(k, s, h.start);
    }
  }
}
