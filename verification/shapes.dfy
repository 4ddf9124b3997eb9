/**
 * The exact call shapes the three regular expressions accept, written out as
 * text: `cube(` `[` w `,` d `,` h `]` `)`, `sphere(` `r` `=` r `)` and
 * `cylinder(` `h` `=` h `,` `r` `=` r `)`, with any ECMAScript white space
 * before every element after the call name and nothing else in between.
 * Each shape is matched wherever it is written, and nothing else is.
 */
module Shapes {
  import opened Wrappers
  import opened Text
  import opened OpenScad

  /** `\s*w`: optional white space, then the literal `w`. */
  function Sep(w: string): seq<Token> {
    [Blank, Word(w)]
  }

  /** `\s*(N)`: optional white space, then a captured numeral. */
  function Arg(): seq<Token> {
    [Blank, Num]
  }

  /** The three regular expressions, read as runs of separators and arguments. */
  lemma PatternShapes()
    ensures Pattern(CubeKind)
      == [Word("cube(")] + Sep("[") + Arg() + Sep(",") + Arg() + Sep(",") + Arg() + Sep("]") + Sep(")")
    ensures Pattern(SphereKind) == [Word("sphere(")] + Sep("r") + Sep("=") + Arg() + Sep(")")
    ensures Pattern(CylinderKind)
      == [Word("cylinder(")] + Sep("h") + Sep("=") + Arg() + Sep(",") + Sep("r") + Sep("=") + Arg() + Sep(")")
  {
  }

  function SepLex(b: string, w: string): seq<Lexeme> {
    [BlankLex(b), WordLex(w)]
  }

  function ArgLex(b: string, n: Numeral): seq<Lexeme> {
    [BlankLex(b), NumLex(n)]
  }

  lemma SpellsAppend(p1: seq<Token>, x1: seq<Lexeme>, p2: seq<Token>, x2: seq<Lexeme>)
    requires Spells(p1, x1) && Spells(p2, x2)
    ensures Spells(p1 + p2, x1 + x2)
  {
    forall k | 0 <= k < |p1| + |p2|
      ensures Fits((p1 + p2)[k], (x1 + x2)[k])
    {
      if k < |p1| {
        assert Fits(p1[k], x1[k]);
      } else {
        assert Fits(p2[k - |p1|], x2[k - |p1|]);
      }
    }
  }

  lemma {:induction false} FlattenAppend(a: seq<Lexeme>, b: seq<Lexeme>)
    ensures Flatten(a + b) == Flatten(a) + Flatten(b)
    decreases |a|
  {
    if a == [] {
      assert a + b == b;
    } else {
      assert (a + b)[1..] == a[1..] + b;
      FlattenAppend(a[1..], b);
    }
  }

  lemma SepSpells(b: string, w: string)
    requires AllSpace(Ecma, b)
    ensures Spells(Sep(w), SepLex(b, w)) && Flatten(SepLex(b, w)) == b + w
  {
    assert Fits(Blank, BlankLex(b)) && Fits(Word(w), WordLex(w));
    assert Flatten([WordLex(w)]) == w by {
      assert [WordLex(w)][1..] == [];
    }
    assert SepLex(b, w)[1..] == [WordLex(w)];
  }

  lemma ArgSpells(b: string, n: Numeral)
    requires AllSpace(Ecma, b) && n.Valid()
    ensures Spells(Arg(), ArgLex(b, n)) && Flatten(ArgLex(b, n)) == b + n.Spelling()
  {
    assert Fits(Blank, BlankLex(b)) && Fits(Num, NumLex(n));
    assert Flatten([NumLex(n)]) == n.Spelling() by {
      assert [NumLex(n)][1..] == [];
    }
    assert ArgLex(b, n)[1..] == [NumLex(n)];
  }

  /** `n` runs of ECMAScript white space. */
  predicate Blanks(b: seq<string>, n: nat) {
    |b| == n && forall j | 0 <= j < n :: AllSpace(Ecma, b[j])
  }

  /** `cube([w, d, h])` with the white-space runs `b` in the places the pattern allows them. */
  function CubeCall(b: seq<string>, w: Numeral, d: Numeral, h: Numeral): string
    requires |b| == 8
  {
    "cube(" + b[0] + "[" + b[1] + w.Spelling() + b[2] + "," + b[3] + d.Spelling() + b[4] + ","
    + b[5] + h.Spelling() + b[6] + "]" + b[7] + ")"
  }

  function CubeLexemes(b: seq<string>, w: Numeral, d: Numeral, h: Numeral): seq<Lexeme>
    requires |b| == 8
  {
    [WordLex("cube(")] + SepLex(b[0], "[") + ArgLex(b[1], w) + SepLex(b[2], ",") + ArgLex(b[3], d)
    + SepLex(b[4], ",") + ArgLex(b[5], h) + SepLex(b[6], "]") + SepLex(b[7], ")")
  }

  /** Spelling and text of a pattern grow together when a separator is appended. */
  lemma ExtendSep(p: seq<Token>, x: seq<Lexeme>, t: string, b: string, w: string)
    requires Spells(p, x) && Flatten(x) == t && AllSpace(Ecma, b)
    ensures Spells(p + Sep(w), x + SepLex(b, w)) && Flatten(x + SepLex(b, w)) == t + b + w
  {
    SepSpells(b, w);
    SpellsAppend(p, x, Sep(w), SepLex(b, w));
    FlattenAppend(x, SepLex(b, w));
    assert t + (b + w) == t + b + w;
  }

  /** Spelling and text of a pattern grow together when an argument is appended. */
  lemma ExtendArg(p: seq<Token>, x: seq<Lexeme>, t: string, b: string, n: Numeral)
    requires Spells(p, x) && Flatten(x) == t && AllSpace(Ecma, b) && n.Valid()
    ensures Spells(p + Arg(), x + ArgLex(b, n)) && Flatten(x + ArgLex(b, n)) == t + b + n.Spelling()
  {
    ArgSpells(b, n);
    SpellsAppend(p, x, Arg(), ArgLex(b, n));
    FlattenAppend(x, ArgLex(b, n));
    assert t + (b + n.Spelling()) == t + b + n.Spelling();
  }

  lemma WordSpells(w: string)
    ensures Spells([Word(w)], [WordLex(w)]) && Flatten([WordLex(w)]) == w
  {
    assert Fits(Word(w), WordLex(w));
    assert [WordLex(w)][1..] == [];
  }

  lemma CubeSpells(b: seq<string>, w: Numeral, d: Numeral, h: Numeral)
    requires Blanks(b, 8) && w.Valid() && d.Valid() && h.Valid()
    ensures Spells(Pattern(CubeKind), CubeLexemes(b, w, d, h))
    ensures Flatten(CubeLexemes(b, w, d, h)) == CubeCall(b, w, d, h)
  {
    PatternShapes();
    assert AllSpace(Ecma, b[0]) && AllSpace(Ecma, b[1]) && AllSpace(Ecma, b[2]) && AllSpace(Ecma, b[3]);
    assert AllSpace(Ecma, b[4]) && AllSpace(Ecma, b[5]) && AllSpace(Ecma, b[6]) && AllSpace(Ecma, b[7]);
    WordSpells("cube(");
    var p, x, t := [Word("cube(")], [WordLex("cube(")], "cube(";
    ExtendSep(p, x, t, b[0], "[");
    p, x, t := p + Sep("["), x + SepLex(b[0], "["), t + b[0] + "[";
    ExtendArg(p, x, t, b[1], w);
    p, x, t := p + Arg(), x + ArgLex(b[1], w), t + b[1] + w.Spelling();
    ExtendSep(p, x, t, b[2], ",");
    p, x, t := p + Sep(","), x + SepLex(b[2], ","), t + b[2] + ",";
    ExtendArg(p, x, t, b[3], d);
    p, x, t := p + Arg(), x + ArgLex(b[3], d), t + b[3] + d.Spelling();
    ExtendSep(p, x, t, b[4], ",");
    p, x, t := p + Sep(","), x + SepLex(b[4], ","), t + b[4] + ",";
    ExtendArg(p, x, t, b[5], h);
    p, x, t := p + Arg(), x + ArgLex(b[5], h), t + b[5] + h.Spelling();
    ExtendSep(p, x, t, b[6], "]");
    p, x, t := p + Sep("]"), x + SepLex(b[6], "]"), t + b[6] + "]";
    ExtendSep(p, x, t, b[7], ")");
    p, x, t := p + Sep(")"), x + SepLex(b[7], ")"), t + b[7] + ")";
    assert p == Pattern(CubeKind);
    assert x == CubeLexemes(b, w, d, h);
    assert t == CubeCall(b, w, d, h);
  }

  /** A cube call written at `i` is matched there, and describes the cube with its three numbers in order. */
  lemma CubeMatched(s: string, i: nat, b: seq<string>, w: Numeral, d: Numeral, h: Numeral)
    requires Blanks(b, 8) && w.Valid() && d.Valid() && h.Valid()
    requires IsAt(s, i, CubeCall(b, w, d, h))
    ensures MatchAt(CubeKind, s, i) == Some(Hit(i, CubeLexemes(b, w, d, h), Cube(w, d, h)))
  {
    var xs := CubeLexemes(b, w, d, h);
    CubeSpells(b, w, d, h);
    MatchAtComplete(CubeKind, xs, s, i);
    CubeBuild(b, w, d, h);
  }

  lemma CubeBuild(b: seq<string>, w: Numeral, d: Numeral, h: Numeral)
    requires Blanks(b, 8) && w.Valid() && d.Valid() && h.Valid()
    ensures Spells(Pattern(CubeKind), CubeLexemes(b, w, d, h))
    ensures Build(CubeKind, CubeLexemes(b, w, d, h)) == Cube(w, d, h)
  {
    var xs := CubeLexemes(b, w, d, h);
    CubeSpells(b, w, d, h);
    assert xs[4] == NumLex(w) && xs[8] == NumLex(d) && xs[12] == NumLex(h);
  }

  /** The white-space runs of a spelling of the cube pattern. */
  function CubeBlanks(xs: seq<Lexeme>): (b: seq<string>)
    requires Spells(Pattern(CubeKind), xs)
    ensures Blanks(b, 8)
  {
    var p := Pattern(CubeKind);
    assert Fits(p[1], xs[1]) && Fits(p[3], xs[3]) && Fits(p[5], xs[5]) && Fits(p[7], xs[7]);
    assert Fits(p[9], xs[9]) && Fits(p[11], xs[11]) && Fits(p[13], xs[13]) && Fits(p[15], xs[15]);
    [xs[1].spaces, xs[3].spaces, xs[5].spaces, xs[7].spaces, xs[9].spaces, xs[11].spaces, xs[13].spaces, xs[15].spaces]
  }

  /** Every spelling of the cube pattern is a cube call. */
  lemma CubeSpellingsOnly(xs: seq<Lexeme>)
    requires Spells(Pattern(CubeKind), xs)
    ensures xs[4].NumLex? && xs[8].NumLex? && xs[12].NumLex?
    ensures xs == CubeLexemes(CubeBlanks(xs), xs[4].numeral, xs[8].numeral, xs[12].numeral)
  {
    var p := Pattern(CubeKind);
    var ys := CubeLexemes(CubeBlanks(xs), xs[4].numeral, xs[8].numeral, xs[12].numeral);
    forall k | 0 <= k < 17
      ensures xs[k] == ys[k]
    {
      assert Fits(p[k], xs[k]);
    }
  }

  /** A cube match is there exactly when a cube call is written there. */
  lemma CubeMatchIff(s: string, i: nat)
    requires i <= |s|
    ensures MatchAt(CubeKind, s, i).Some? <==>
      exists b: seq<string>, w: Numeral, d: Numeral, h: Numeral | Blanks(b, 8) && w.Valid() && d.Valid() && h.Valid() :: IsAt(s, i, CubeCall(b, w, d, h))
  {
    if MatchAt(CubeKind, s, i).Some? {
      var xs := MatchAt(CubeKind, s, i).value.lexemes;
      MatchAtSound(CubeKind, s, i);
      CubeSpellingsOnly(xs);
      var b, w, d, h := CubeBlanks(xs), xs[4].numeral, xs[8].numeral, xs[12].numeral;
      assert Fits(Pattern(CubeKind)[4], xs[4]) && Fits(Pattern(CubeKind)[8], xs[8]) && Fits(Pattern(CubeKind)[12], xs[12]);
      CubeSpells(b, w, d, h);
      assert IsAt(s, i, CubeCall(b, w, d, h));
    }
    if exists b: seq<string>, w: Numeral, d: Numeral, h: Numeral | Blanks(b, 8) && w.Valid() && d.Valid() && h.Valid() :: IsAt(s, i, CubeCall(b, w, d, h)) {
      var b: seq<string>, w: Numeral, d: Numeral, h: Numeral :| Blanks(b, 8) && w.Valid() && d.Valid() && h.Valid() && IsAt(s, i, CubeCall(b, w, d, h));
      CubeMatched(s, i, b, w, d, h);
    }
  }

  /** `sphere(r = n)` with the white-space runs `b` in the places the pattern allows them. */
  function SphereCall(b: seq<string>, r: Numeral): string
    requires |b| == 4
  {
    "sphere(" + b[0] + "r" + b[1] + "=" + b[2] + r.Spelling() + b[3] + ")"
  }

  function SphereLexemes(b: seq<string>, r: Numeral): seq<Lexeme>
    requires |b| == 4
  {
    [WordLex("sphere(")] + SepLex(b[0], "r") + SepLex(b[1], "=") + ArgLex(b[2], r) + SepLex(b[3], ")")
  }

  lemma SphereSpells(b: seq<string>, r: Numeral)
    requires Blanks(b, 4) && r.Valid()
    ensures Spells(Pattern(SphereKind), SphereLexemes(b, r))
    ensures Flatten(SphereLexemes(b, r)) == SphereCall(b, r)
  {
    PatternShapes();
    assert AllSpace(Ecma, b[0]) && AllSpace(Ecma, b[1]) && AllSpace(Ecma, b[2]) && AllSpace(Ecma, b[3]);
    WordSpells("sphere(");
    var p, x, t := [Word("sphere(")], [WordLex("sphere(")], "sphere(";
    ExtendSep(p, x, t, b[0], "r");
    p, x, t := p + Sep("r"), x + SepLex(b[0], "r"), t + b[0] + "r";
    ExtendSep(p, x, t, b[1], "=");
    p, x, t := p + Sep("="), x + SepLex(b[1], "="), t + b[1] + "=";
    ExtendArg(p, x, t, b[2], r);
    p, x, t := p + Arg(), x + ArgLex(b[2], r), t + b[2] + r.Spelling();
    ExtendSep(p, x, t, b[3], ")");
    p, x, t := p + Sep(")"), x + SepLex(b[3], ")"), t + b[3] + ")";
    assert p == Pattern(SphereKind);
    assert x == SphereLexemes(b, r);
    assert t == SphereCall(b, r);
  }

  lemma SphereBuild(b: seq<string>, r: Numeral)
    requires Blanks(b, 4) && r.Valid()
    ensures Spells(Pattern(SphereKind), SphereLexemes(b, r))
    ensures Build(SphereKind, SphereLexemes(b, r)) == Sphere(r)
  {
    var xs := SphereLexemes(b, r);
    SphereSpells(b, r);
    assert xs[6] == NumLex(r);
  }

  /** A sphere call written at `i` is matched there, and describes the sphere with that radius. */
  lemma SphereMatched(s: string, i: nat, b: seq<string>, r: Numeral)
    requires Blanks(b, 4) && r.Valid()
    requires IsAt(s, i, SphereCall(b, r))
    ensures MatchAt(SphereKind, s, i) == Some(Hit(i, SphereLexemes(b, r), Sphere(r)))
  {
    SphereSpells(b, r);
    MatchAtComplete(SphereKind, SphereLexemes(b, r), s, i);
    SphereBuild(b, r);
  }

  /** The white-space runs of a spelling of the sphere pattern. */
  function SphereBlanks(xs: seq<Lexeme>): (b: seq<string>)
    requires Spells(Pattern(SphereKind), xs)
    ensures Blanks(b, 4)
  {
    var p := Pattern(SphereKind);
    assert Fits(p[1], xs[1]) && Fits(p[3], xs[3]) && Fits(p[5], xs[5]) && Fits(p[7], xs[7]);
    [xs[1].spaces, xs[3].spaces, xs[5].spaces, xs[7].spaces]
  }

  /** Every spelling of the sphere pattern is a sphere call. */
  lemma SphereSpellingsOnly(xs: seq<Lexeme>)
    requires Spells(Pattern(SphereKind), xs)
    ensures xs[6].NumLex? && xs == SphereLexemes(SphereBlanks(xs), xs[6].numeral)
  {
    var p := Pattern(SphereKind);
    assert Fits(p[6], xs[6]);
    var ys := SphereLexemes(SphereBlanks(xs), xs[6].numeral);
    forall k | 0 <= k < 9
      ensures xs[k] == ys[k]
    {
      assert Fits(p[k], xs[k]);
    }
  }

  /** A sphere match is there exactly when a sphere call is written there. */
  lemma SphereMatchIff(s: string, i: nat)
    requires i <= |s|
    ensures MatchAt(SphereKind, s, i).Some? <==>
      exists b: seq<string>, r: Numeral | Blanks(b, 4) && r.Valid() :: IsAt(s, i, SphereCall(b, r))
  {
    if MatchAt(SphereKind, s, i).Some? {
      var xs := MatchAt(SphereKind, s, i).value.lexemes;
      MatchAtSound(SphereKind, s, i);
      SphereSpellingsOnly(xs);
      var b, r := SphereBlanks(xs), xs[6].numeral;
      assert Fits(Pattern(SphereKind)[6], xs[6]);
      SphereSpells(b, r);
      assert IsAt(s, i, SphereCall(b, r));
    }
    if exists b: seq<string>, r: Numeral | Blanks(b, 4) && r.Valid() :: IsAt(s, i, SphereCall(b, r)) {
      var b: seq<string>, r: Numeral :| Blanks(b, 4) && r.Valid() && IsAt(s, i, SphereCall(b, r));
      SphereMatched(s, i, b, r);
    }
  }

  /** `cylinder(h = n, r = m)` with the white-space runs `b` in the places the pattern allows them. */
  function CylinderCall(b: seq<string>, h: Numeral, r: Numeral): string
    requires |b| == 8
  {
    "cylinder(" + b[0] + "h" + b[1] + "=" + b[2] + h.Spelling() + b[3] + "," + b[4] + "r" + b[5] + "="
    + b[6] + r.Spelling() + b[7] + ")"
  }

  function CylinderLexemes(b: seq<string>, h: Numeral, r: Numeral): seq<Lexeme>
    requires |b| == 8
  {
    [WordLex("cylinder(")] + SepLex(b[0], "h") + SepLex(b[1], "=") + ArgLex(b[2], h) + SepLex(b[3], ",")
    + SepLex(b[4], "r") + SepLex(b[5], "=") + ArgLex(b[6], r) + SepLex(b[7], ")")
  }

  lemma CylinderSpells(b: seq<string>, h: Numeral, r: Numeral)
    requires Blanks(b, 8) && h.Valid() && r.Valid()
    ensures Spells(Pattern(CylinderKind), CylinderLexemes(b, h, r))
    ensures Flatten(CylinderLexemes(b, h, r)) == CylinderCall(b, h, r)
  {
    PatternShapes();
    assert AllSpace(Ecma, b[0]) && AllSpace(Ecma, b[1]) && AllSpace(Ecma, b[2]) && AllSpace(Ecma, b[3]);
    assert AllSpace(Ecma, b[4]) && AllSpace(Ecma, b[5]) && AllSpace(Ecma, b[6]) && AllSpace(Ecma, b[7]);
    WordSpells("cylinder(");
    var p, x, t := [Word("cylinder(")], [WordLex("cylinder(")], "cylinder(";
    ExtendSep(p, x, t, b[0], "h");
    p, x, t := p + Sep("h"), x + SepLex(b[0], "h"), t + b[0] + "h";
    ExtendSep(p, x, t, b[1], "=");
    p, x, t := p + Sep("="), x + SepLex(b[1], "="), t + b[1] + "=";
    ExtendArg(p, x, t, b[2], h);
    p, x, t := p + Arg(), x + ArgLex(b[2], h), t + b[2] + h.Spelling();
    ExtendSep(p, x, t, b[3], ",");
    p, x, t := p + Sep(","), x + SepLex(b[3], ","), t + b[3] + ",";
    ExtendSep(p, x, t, b[4], "r");
    p, x, t := p + Sep("r"), x + SepLex(b[4], "r"), t + b[4] + "r";
    ExtendSep(p, x, t, b[5], "=");
    p, x, t := p + Sep("="), x + SepLex(b[5], "="), t + b[5] + "=";
    ExtendArg(p, x, t, b[6], r);
    p, x, t := p + Arg(), x + ArgLex(b[6], r), t + b[6] + r.Spelling();
    ExtendSep(p, x, t, b[7], ")");
    p, x, t := p + Sep(")"), x + SepLex(b[7], ")"), t + b[7] + ")";
    assert p == Pattern(CylinderKind);
    assert x == CylinderLexemes(b, h, r);
    assert t == CylinderCall(b, h, r);
  }

  lemma CylinderBuild(b: seq<string>, h: Numeral, r: Numeral)
    requires Blanks(b, 8) && h.Valid() && r.Valid()
    ensures Spells(Pattern(CylinderKind), CylinderLexemes(b, h, r))
    ensures Build(CylinderKind, CylinderLexemes(b, h, r)) == Cylinder(h, r)
  {
    var xs := CylinderLexemes(b, h, r);
    CylinderSpells(b, h, r);
    assert xs[6] == NumLex(h) && xs[14] == NumLex(r);
  }

  /** A cylinder call written at `i` is matched there, and describes the cylinder with that height and radius. */
  lemma CylinderMatched(s: string, i: nat, b: seq<string>, h: Numeral, r: Numeral)
    requires Blanks(b, 8) && h.Valid() && r.Valid()
    requires IsAt(s, i, CylinderCall(b, h, r))
    ensures MatchAt(CylinderKind, s, i) == Some(Hit(i, CylinderLexemes(b, h, r), Cylinder(h, r)))
  {
    CylinderSpells(b, h, r);
    MatchAtComplete(CylinderKind, CylinderLexemes(b, h, r), s, i);
    CylinderBuild(b, h, r);
  }

  /** The white-space runs of a spelling of the cylinder pattern. */
  function CylinderBlanks(xs: seq<Lexeme>): (b: seq<string>)
    requires Spells(Pattern(CylinderKind), xs)
    ensures Blanks(b, 8)
  {
    var p := Pattern(CylinderKind);
    assert Fits(p[1], xs[1]) && Fits(p[3], xs[3]) && Fits(p[5], xs[5]) && Fits(p[7], xs[7]);
    assert Fits(p[9], xs[9]) && Fits(p[11], xs[11]) && Fits(p[13], xs[13]) && Fits(p[15], xs[15]);
    [xs[1].spaces, xs[3].spaces, xs[5].spaces, xs[7].spaces, xs[9].spaces, xs[11].spaces, xs[13].spaces, xs[15].spaces]
  }

  /** Every spelling of the cylinder pattern is a cylinder call. */
  lemma CylinderSpellingsOnly(xs: seq<Lexeme>)
    requires Spells(Pattern(CylinderKind), xs)
    ensures xs[6].NumLex? && xs[14].NumLex?
    ensures xs == CylinderLexemes(CylinderBlanks(xs), xs[6].numeral, xs[14].numeral)
  {
    var p := Pattern(CylinderKind);
    assert Fits(p[6], xs[6]) && Fits(p[14], xs[14]);
    var ys := CylinderLexemes(CylinderBlanks(xs), xs[6].numeral, xs[14].numeral);
    forall k | 0 <= k < 17
      ensures xs[k] == ys[k]
    {
      assert Fits(p[k], xs[k]);
    }
  }

  /** A cylinder match is there exactly when a cylinder call is written there. */
  lemma CylinderMatchIff(s: string, i: nat)
    requires i <= |s|
    ensures MatchAt(CylinderKind, s, i).Some? <==>
      exists b: seq<string>, h: Numeral, r: Numeral | Blanks(b, 8) && h.Valid() && r.Valid() :: IsAt(s, i, CylinderCall(b, h, r))
  {
    if MatchAt(CylinderKind, s, i).Some? {
      var xs := MatchAt(CylinderKind, s, i).value.lexemes;
      MatchAtSound(CylinderKind, s, i);
      CylinderSpellingsOnly(xs);
      var b, h, r := CylinderBlanks(xs), xs[6].numeral, xs[14].numeral;
      assert Fits(Pattern(CylinderKind)[6], xs[6]) && Fits(Pattern(CylinderKind)[14], xs[14]);
      CylinderSpells(b, h, r);
      assert IsAt(s, i, CylinderCall(b, h, r));
    }
    if exists b: seq<string>, h: Numeral, r: Numeral | Blanks(b, 8) && h.Valid() && r.Valid() :: IsAt(s, i, CylinderCall(b, h, r)) {
      var b: seq<string>, h: Numeral, r: Numeral :| Blanks(b, 8) && h.Valid() && r.Valid() && IsAt(s, i, CylinderCall(b, h, r));
      CylinderMatched(s, i, b, h, r);
    }
  }
}
