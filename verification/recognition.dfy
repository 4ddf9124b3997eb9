/**
 * What the extractor makes of whole programs: a single cube, sphere or
 * cylinder call becomes a single mesh with the call's numbers in Three.js's
 * argument order, and a sphere given by its diameter, an argument form the
 * regular expressions do not describe, is skipped, leaving only the
 * placeholder and the warning.
 */
module Recognition {
  import opened Wrappers
  import opened Text
  import opened OpenScad
  import opened Shapes
  import opened Scene

  /** A text in which some character of a call name never occurs holds no call of that name. */
  lemma ScanEmptyWithout(k: Kind, s: string, c: char)
    requires c in Keyword(k) && c !in s
    ensures Scan(k, s) == []
  {
    var t := Table(k, s);
    forall p | 0 <= p < |t|
      ensures t[p].None?
    {
      MatchAtSound(k, s, p);
    }
    assert IsScan(t, 0, []);
    ScanUnique(t, 0, []);
  }

  /** A text holding exactly one match, from its first to its last character, scans to that match alone. */
  lemma ScanWhole(k: Kind, s: string, h: Hit)
    requires MatchAt(k, s, 0) == Some(h) && h.End() == |s|
    ensures Scan(k, s) == [h]
  {
    var t := Table(k, s);
    assert t[0] == Some(h);
    assert ScanFrom(t, |s|) == [];
  }

  lemma NotInSpelling(n: Numeral, c: char)
    requires n.Valid() && !IsDigit(c) && c != '.'
    ensures c !in n.Spelling()
  {
  }

  lemma NotInBlank(b: string, c: char)
    requires AllSpace(Ecma, b) && !IsSpace(Ecma, c)
    ensures c !in b
  {
  }

  /** Only the characters of the literals, white space, digits and points occur in a cube call. */
  lemma CubeCallLacks(b: seq<string>, w: Numeral, d: Numeral, h: Numeral, c: char)
    requires Blanks(b, 8) && w.Valid() && d.Valid() && h.Valid()
    requires !IsSpace(Ecma, c) && !IsDigit(c) && c != '.'
    requires c != 'c' && c != 'u' && c != 'b' && c != 'e' && c != '(' && c != '[' && c != ',' && c != ']' && c != ')'
    ensures c !in CubeCall(b, w, d, h)
  {
    forall j | 0 <= j < 8
      ensures c !in b[j]
    {
      assert AllSpace(Ecma, b[j]);
    }
    NotInSpelling(w, c);
    NotInSpelling(d, c);
    NotInSpelling(h, c);
  }

  /** Three scans that find one call between them make one mesh and no warning. */
  lemma ParseOne(code: string, k: Kind, h: Hit)
    requires Scan(k, code) == [h] && forall j: Kind | j != k :: Scan(j, code) == []
    requires h.call.Valid()
    ensures ParseOpenScad(code) == Parsed([MeshOf(h.call)], None)
  {
    assert Calls([h]) == [h.call];
    var cubes := Calls(Scan(CubeKind, code));
    var spheres := Calls(Scan(SphereKind, code));
    var cylinders := Calls(Scan(CylinderKind, code));
    assert Extract(code) == cubes + spheres + cylinders;
    match k
    case CubeKind =>
      assert spheres == [] && cylinders == [];
      assert Extract(code) == [h.call];
    case SphereKind =>
      assert cubes == [] && cylinders == [];
      assert Extract(code) == [h.call];
    case CylinderKind =>
      assert cubes == [] && spheres == [];
      assert Extract(code) == [h.call];
  }

  /** A text that is one cube match from end to end, and holds no other call name, scans to that match alone. */
  lemma OnlyCube(code: string, h: Hit)
    requires MatchAt(CubeKind, code, 0) == Some(h) && h.End() == |code|
    requires 's' !in code && 'y' !in code
    ensures Scan(CubeKind, code) == [h] && Scan(SphereKind, code) == [] && Scan(CylinderKind, code) == []
  {
    ScanWhole(CubeKind, code, h);
    ScanEmptyWithout(SphereKind, code, 's');
    ScanEmptyWithout(CylinderKind, code, 'y');
  }

  /**
   * A program that is one cube call, with any white space the pattern
   * allows, becomes one blue box whose arguments are the width, the height
   * and the depth: the call's second and third numbers trade places.
   */
  lemma SingleCube(b: seq<string>, w: Numeral, d: Numeral, h: Numeral)
    requires Blanks(b, 8) && w.Valid() && d.Valid() && h.Valid()
    ensures ParseOpenScad(CubeCall(b, w, d, h))
      == Parsed([Mesh(BoxGeometry(w.Value(), h.Value(), d.Value()), PartMaterial)], None)
  {
    var code := CubeCall(b, w, d, h);
    var hit := CubeCallScans(b, w, d, h);
    ParseOne(code, CubeKind, hit);
  }

  /** The three scans of a program that is one cube call: the cube scan finds that call, the others nothing. */
  lemma CubeCallScans(b: seq<string>, w: Numeral, d: Numeral, h: Numeral) returns (hit: Hit)
    requires Blanks(b, 8) && w.Valid() && d.Valid() && h.Valid()
    ensures hit.call == Cube(w, d, h)
    ensures var code := CubeCall(b, w, d, h);
      Scan(CubeKind, code) == [hit] && Scan(SphereKind, code) == [] && Scan(CylinderKind, code) == []
  {
    var code := CubeCall(b, w, d, h);
    hit := Hit(0, CubeLexemes(b, w, d, h), Cube(w, d, h));
    IsAtSelf(code);
    CubeMatched(code, 0, b, w, d, h);
    CubeSpells(b, w, d, h);
    CubeCallLacks(b, w, d, h, 's');
    CubeCallLacks(b, w, d, h, 'y');
    OnlyCube(code, hit);
  }

  /** Only the characters of the literals, white space, digits and points occur in a sphere call. */
  lemma SphereCallLacks(b: seq<string>, r: Numeral, c: char)
    requires Blanks(b, 4) && r.Valid()
    requires !IsSpace(Ecma, c) && !IsDigit(c) && c != '.' && c !in "sphere(r=)"
    ensures c !in SphereCall(b, r)
  {
    forall j | 0 <= j < 4
      ensures c !in b[j]
    {
      assert AllSpace(Ecma, b[j]);
    }
    NotInSpelling(r, c);
  }

  /**
   * A program that is one sphere call `sphere(r = R)`, with any white space
   * the pattern allows, becomes one blue sphere of radius R with 32 by 16
   * segments and no warning.
   */
  lemma SingleSphere(b: seq<string>, r: Numeral)
    requires Blanks(b, 4) && r.Valid()
    ensures ParseOpenScad(SphereCall(b, r))
      == Parsed([Mesh(SphereGeometry(r.Value(), 32, 16), PartMaterial)], None)
  {
    var hit := SphereCallScans(b, r);
    ParseOne(SphereCall(b, r), SphereKind, hit);
  }

  /** The three scans of a program that is one sphere call: the sphere scan finds that call, the others nothing. */
  lemma SphereCallScans(b: seq<string>, r: Numeral) returns (hit: Hit)
    requires Blanks(b, 4) && r.Valid()
    ensures hit.call == Sphere(r)
    ensures var code := SphereCall(b, r);
      Scan(SphereKind, code) == [hit] && Scan(CubeKind, code) == [] && Scan(CylinderKind, code) == []
  {
    var code := SphereCall(b, r);
    SphereSpells(b, r);
    hit := WholeCall(SphereKind, code, SphereLexemes(b, r));
    assert hit.call == Sphere(r) by {
      SphereBuild(b, r);
    }
    SphereCallHasNoC(b, r);
    NoCubeNoCylinder(code);
  }

  lemma SphereCallHasNoC(b: seq<string>, r: Numeral)
    requires Blanks(b, 4) && r.Valid()
    ensures 'c' !in SphereCall(b, r)
  {
    SphereCallLacks(b, r, 'c');
  }

  /** Without the letter `c`, neither the cube nor the cylinder scan finds anything. */
  lemma NoCubeNoCylinder(code: string)
    requires 'c' !in code
    ensures Scan(CubeKind, code) == [] && Scan(CylinderKind, code) == []
  {
    assert 'c' in Keyword(CubeKind) && 'c' in Keyword(CylinderKind);
    ScanEmptyWithout(CubeKind, code, 'c');
    ScanEmptyWithout(CylinderKind, code, 'c');
  }

  /** A program that is a spelling of a pattern from end to end scans to that one match. */
  lemma WholeCall(k: Kind, code: string, xs: seq<Lexeme>) returns (hit: Hit)
    requires Spells(Pattern(k), xs) && Flatten(xs) == code
    ensures hit == Hit(0, xs, Build(k, xs)) && Scan(k, code) == [hit]
  {
    IsAtSelf(code);
    MatchAtComplete(k, xs, code, 0);
    hit := Hit(0, xs, Build(k, xs));
    ScanWhole(k, code, hit);
  }

  /** Only the characters of the literals, white space, digits and points occur in a cylinder call. */
  lemma CylinderCallLacks(b: seq<string>, h: Numeral, r: Numeral, c: char)
    requires Blanks(b, 8) && h.Valid() && r.Valid()
    requires !IsSpace(Ecma, c) && !IsDigit(c) && c != '.' && c !in "cylinder(h=,r)"
    ensures c !in CylinderCall(b, h, r)
  {
    forall j | 0 <= j < 8
      ensures c !in b[j]
    {
      assert AllSpace(Ecma, b[j]);
    }
    NotInSpelling(h, c);
    NotInSpelling(r, c);
  }

  /**
   * A program that is one cylinder call `cylinder(h = H, r = R)` becomes one
   * blue cylinder whose top and bottom radius are both R and whose height
   * is H, with 32 radial segments and no warning.
   */
  lemma SingleCylinder(b: seq<string>, h: Numeral, r: Numeral)
    requires Blanks(b, 8) && h.Valid() && r.Valid()
    ensures ParseOpenScad(CylinderCall(b, h, r))
      == Parsed([Mesh(CylinderGeometry(r.Value(), r.Value(), h.Value(), 32), PartMaterial)], None)
  {
    var hit := CylinderCallScans(b, h, r);
    ParseOne(CylinderCall(b, h, r), CylinderKind, hit);
  }

  /** The three scans of a program that is one cylinder call: the cylinder scan finds that call, the others nothing. */
  lemma CylinderCallScans(b: seq<string>, h: Numeral, r: Numeral) returns (hit: Hit)
    requires Blanks(b, 8) && h.Valid() && r.Valid()
    ensures hit.call == Cylinder(h, r)
    ensures var code := CylinderCall(b, h, r);
      Scan(CylinderKind, code) == [hit] && Scan(CubeKind, code) == [] && Scan(SphereKind, code) == []
  {
    var code := CylinderCall(b, h, r);
    CylinderSpells(b, h, r);
    hit := WholeCall(CylinderKind, code, CylinderLexemes(b, h, r));
    assert hit.call == Cylinder(h, r) by {
      CylinderBuild(b, h, r);
    }
    CylinderCallHasNoUS(b, h, r);
    NoCubeNoSphere(code);
  }

  lemma CylinderCallHasNoUS(b: seq<string>, h: Numeral, r: Numeral)
    requires Blanks(b, 8) && h.Valid() && r.Valid()
    ensures 'u' !in CylinderCall(b, h, r) && 's' !in CylinderCall(b, h, r)
  {
    CylinderCallLacks(b, h, r, 'u');
    CylinderCallLacks(b, h, r, 's');
  }

  /** Without the letters `u` and `s`, neither the cube nor the sphere scan finds anything. */
  lemma NoCubeNoSphere(code: string)
    requires 'u' !in code && 's' !in code
    ensures Scan(CubeKind, code) == [] && Scan(SphereKind, code) == []
  {
    assert 'u' in Keyword(CubeKind) && 's' in Keyword(SphereKind);
    ScanEmptyWithout(CubeKind, code, 'u');
    ScanEmptyWithout(SphereKind, code, 's');
  }

  /** The eighth character of a sphere call is the `r` of its argument or the white space before it. */
  lemma SphereCallEighth(b: seq<string>, r: Numeral)
    requires Blanks(b, 4) && r.Valid()
    ensures |SphereCall(b, r)| > 7
    ensures SphereCall(b, r)[7] == 'r' || IsSpace(Ecma, SphereCall(b, r)[7])
  {
    var rest := b[0] + "r" + b[1] + "=" + b[2] + r.Spelling() + b[3] + ")";
    assert SphereCall(b, r) == "sphere(" + rest;
    assert SphereCall(b, r)[7] == rest[0];
    if b[0] != [] {
      assert AllSpace(Ecma, b[0]);
      assert rest[0] == b[0][0];
    } else {
      assert rest[0] == 'r';
    }
  }

  /** A sphere match starts with `sphere(`, and after it stands the `r` of the argument or white space. */
  lemma SphereMatchShape(s: string, p: nat)
    requires p <= |s| && MatchAt(SphereKind, s, p).Some?
    ensures IsAt(s, p, "sphere(") && p + 7 < |s| && (s[p + 7] == 'r' || IsSpace(Ecma, s[p + 7]))
  {
    MatchAtSound(SphereKind, s, p);
    var xs := MatchAt(SphereKind, s, p).value.lexemes;
    SphereSpellingsOnly(xs);
    var b, r := SphereBlanks(xs), xs[6].numeral;
    assert Fits(Pattern(SphereKind)[6], xs[6]);
    SphereSpells(b, r);
    SphereCallEighth(b, r);
    IsAtChars(s, p, SphereCall(b, r));
  }

  /** `sphere(d=n)`: a sphere given by its diameter. */
  function DiameterSphere(n: Numeral): string {
    "sphere(d=" + n.Spelling() + ")"
  }

  lemma DiameterSphereChars(n: Numeral)
    requires n.Valid()
    ensures |DiameterSphere(n)| > 9 && DiameterSphere(n)[7] == 'd'
    ensures forall p | 0 < p < |DiameterSphere(n)| :: DiameterSphere(n)[p] != 's'
    ensures 'c' !in DiameterSphere(n)
  {
    var code := DiameterSphere(n);
    NotInSpelling(n, 's');
    NotInSpelling(n, 'c');
    forall p | 0 < p < |code|
      ensures code[p] != 's'
    {
      if 9 <= p < |code| - 1 {
        assert code[p] == n.Spelling()[p - 9];
      }
    }
  }

  /**
   * The sphere expression only knows the radius form: a program that is one
   * sphere given by its diameter holds no match of any of the three
   * expressions, so the result is the placeholder with the warning.
   */
  lemma DiameterSphereSkipped(n: Numeral)
    requires n.Valid()
    ensures ParseOpenScad(DiameterSphere(n)) == Parsed([Placeholder], Some(ParseWarning))
  {
    var code := DiameterSphere(n);
    DiameterSphereChars(n);
    NoCubeNoCylinder(code);
    var t := Table(SphereKind, code);
    forall p | 0 <= p < |t|
      ensures t[p].None?
    {
      DiameterNoSphereAt(n, p);
    }
    assert IsScan(t, 0, []);
    ScanUnique(t, 0, []);
  }

  /** No position of a diameter sphere starts a match of the sphere expression. */
  lemma DiameterNoSphereAt(n: Numeral, p: nat)
    requires n.Valid() && p <= |DiameterSphere(n)|
    ensures MatchAt(SphereKind, DiameterSphere(n), p).None?
  {
    var code := DiameterSphere(n);
    DiameterSphereChars(n);
    if MatchAt(SphereKind, code, p).Some? {
      SphereMatchShape(code, p);
      IsAtChars(code, p, "sphere(");
      assert false;
    }
  }
}
