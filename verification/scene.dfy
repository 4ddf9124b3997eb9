/**
 * The CAD renderer component's view of a generated program: the meshes
 * `parseOpenSCADToThree` builds from the three primitive scans, the
 * placeholder it falls back to, the refresh of the scene's children that the
 * render effect performs, and the guard of the generate button.
 *
 * Three.js objects are modelled by value: a geometry with its constructor
 * arguments and a material with its colour, metalness and roughness.
 */
module Scene {
  import opened Wrappers
  import opened Text
  import opened OpenScad

  /** `THREE.BoxGeometry(width, height, depth)`, `THREE.SphereGeometry(radius, widthSegments, heightSegments)`
      and `THREE.CylinderGeometry(radiusTop, radiusBottom, height, radialSegments)`. */
  datatype Geometry =
    | BoxGeometry(width: real, height: real, depth: real)
    | SphereGeometry(radius: real, widthSegments: nat, heightSegments: nat)
    | CylinderGeometry(radiusTop: real, radiusBottom: real, height: real, radialSegments: nat)
  {
    /** Every size argument is at least zero. */
    predicate NonNegative() {
      match this
      case BoxGeometry(w, h, d) => w >= 0.0 && h >= 0.0 && d >= 0.0
      case SphereGeometry(r, _, _) => r >= 0.0
      case CylinderGeometry(top, bottom, h, _) => top >= 0.0 && bottom >= 0.0 && h >= 0.0
    }
  }

  /** `THREE.MeshStandardMaterial({ color, metalness, roughness })`. */
  datatype Material = Material(colour: nat, metalness: real, roughness: real)

  datatype Mesh = Mesh(geometry: Geometry, material: Material)

  /** The material of every mesh built from the code: dodger blue. */
  const PartMaterial := Material(0x1E90FF, 0.1, 0.5)

  /** The sample object shown when nothing could be parsed: an orange-red 2 x 2 x 2 box. */
  const Placeholder := Mesh(BoxGeometry(2.0, 2.0, 2.0), Material(0xFF4500, 0.1, 0.5))

  const ParseWarning := "Warning: Could not parse any objects from the generated code. Showing sample object instead."

  /** The sphere's segment counts and the cylinder's radial segment count. */
  const SphereWidthSegments := 32
  const SphereHeightSegments := 16
  const CylinderSegments := 32

  lemma ValueNonNegative(n: Numeral)
    requires n.Valid()
    ensures n.Value() >= 0.0
  {
  }

  /**
   * The mesh one recognised call becomes. A cube's second and third numbers
   * (depth and height) go to the box's third and second arguments; a
   * cylinder's single radius is both its top and its bottom radius.
   */
  function MeshOf(c: Primitive): (m: Mesh)
    requires c.Valid()
    ensures m.material == PartMaterial && m.geometry.NonNegative()
    ensures c.Cube? <==> m.geometry.BoxGeometry?
    ensures c.Sphere? <==> m.geometry.SphereGeometry?
    ensures c.Cylinder? <==> m.geometry.CylinderGeometry?
    ensures m.geometry.CylinderGeometry? ==> m.geometry.radiusTop == m.geometry.radiusBottom
    ensures c.Cube? ==> m.geometry == BoxGeometry(c.width.Value(), c.height.Value(), c.depth.Value())
    ensures c.Sphere? ==> m.geometry.radius == c.radius.Value()
    ensures c.Cylinder? ==> m.geometry.radiusTop == c.radius.Value() && m.geometry.height == c.height.Value()
  {
    match c
    case Cube(w, d, h) =>
      ValueNonNegative(w);
      ValueNonNegative(d);
      ValueNonNegative(h);
      Mesh(BoxGeometry(w.Value(), h.Value(), d.Value()), PartMaterial)
    case Sphere(r) =>
      ValueNonNegative(r);
      Mesh(SphereGeometry(r.Value(), SphereWidthSegments, SphereHeightSegments), PartMaterial)
    case Cylinder(h, r) =>
      ValueNonNegative(h);
      ValueNonNegative(r);
      Mesh(CylinderGeometry(r.Value(), r.Value(), h.Value(), CylinderSegments), PartMaterial)
  }

  /** The order in which the three scans run. */
  function Rank(k: Kind): nat {
    match k
    case CubeKind => 0
    case SphereKind => 1
    case CylinderKind => 2
  }

  /** All cubes come before all spheres, and all spheres before all cylinders. */
  predicate Grouped(cs: seq<Primitive>) {
    forall i, j | 0 <= i < j < |cs| :: Rank(cs[i].KindOf()) <= Rank(cs[j].KindOf())
  }

  /** The primitives of kind `k` in `cs`, in order. */
  function OfKind(cs: seq<Primitive>, k: Kind): (r: seq<Primitive>)
    ensures |r| <= |cs|
    ensures forall c | c in r :: c in cs && c.KindOf() == k
  {
    if cs == [] then []
    else (if cs[0].KindOf() == k then [cs[0]] else []) + OfKind(cs[1..], k)
  }

  /** The descriptors of a scan of `k` are well formed and of kind `k`. */
  lemma CallsOfScan(k: Kind, code: string)
    ensures forall c | c in Calls(Scan(k, code)) :: c.Valid() && c.KindOf() == k
  {
    var hits := Scan(k, code);
    var cs := Calls(hits);
    ScanMatches(k, code);
    forall c | c in cs
      ensures c.Valid() && c.KindOf() == k
    {
      var j :| 0 <= j < |cs| && cs[j] == c;
      assert hits[j] in hits;
    }
  }

  /** Three runs of one kind each, in rank order, make a grouped list. */
  lemma GroupedConcat(a: seq<Primitive>, b: seq<Primitive>, c: seq<Primitive>)
    requires forall x | x in a :: x.KindOf() == CubeKind
    requires forall x | x in b :: x.KindOf() == SphereKind
    requires forall x | x in c :: x.KindOf() == CylinderKind
    ensures Grouped(a + b + c)
  {
    var s := a + b + c;
    forall i, j | 0 <= i < j < |s|
      ensures Rank(s[i].KindOf()) <= Rank(s[j].KindOf())
    {
      assert s[i] in a || s[i] in b || s[i] in c;
      assert s[j] in a || s[j] in b || s[j] in c;
      if j < |a| {
        assert s[i] == a[i] && s[j] == a[j];
      } else if i >= |a| + |b| {
        assert s[i] == c[i - |a| - |b|];
      } else if i >= |a| && j < |a| + |b| {
        assert s[i] == b[i - |a|] && s[j] == b[j - |a|];
      }
    }
  }

  /** The descriptors found by the three global scans, cubes first, then spheres, then cylinders. */
  function Extract(code: string): (cs: seq<Primitive>)
    ensures |cs| == |Scan(CubeKind, code)| + |Scan(SphereKind, code)| + |Scan(CylinderKind, code)|
    ensures forall c | c in cs :: c.Valid()
    ensures Grouped(cs)
  {
    var cubes := Calls(Scan(CubeKind, code));
    var spheres := Calls(Scan(SphereKind, code));
    var cylinders := Calls(Scan(CylinderKind, code));
    CallsOfScan(CubeKind, code);
    CallsOfScan(SphereKind, code);
    CallsOfScan(CylinderKind, code);
    GroupedConcat(cubes, spheres, cylinders);
    cubes + spheres + cylinders
  }

  lemma {:induction false} OfKindAppend(a: seq<Primitive>, b: seq<Primitive>, k: Kind)
    ensures OfKind(a + b, k) == OfKind(a, k) + OfKind(b, k)
    decreases |a|
  {
    if a == [] {
      assert a + b == b;
    } else {
      assert (a + b)[1..] == a[1..] + b;
      OfKindAppend(a[1..], b, k);
    }
  }

  /** Keeping one kind of a list whose members all share a kind keeps all of it or nothing. */
  lemma {:induction false} OfKindUniform(a: seq<Primitive>, j: Kind, k: Kind)
    requires forall x | x in a :: x.KindOf() == j
    ensures OfKind(a, k) == if j == k then a else []
    decreases |a|
  {
    if a != [] {
      assert a[0] in a;
      assert forall x | x in a[1..] :: x in a;
      OfKindUniform(a[1..], j, k);
      assert a == [a[0]] + a[1..];
    }
  }

  /** Keeping one kind of three uniform runs of cubes, spheres and cylinders keeps that kind's run. */
  lemma OfKindGroups(a: seq<Primitive>, b: seq<Primitive>, c: seq<Primitive>, k: Kind)
    requires forall x | x in a :: x.KindOf() == CubeKind
    requires forall x | x in b :: x.KindOf() == SphereKind
    requires forall x | x in c :: x.KindOf() == CylinderKind
    ensures OfKind(a + b + c, k) == match k case CubeKind => a case SphereKind => b case CylinderKind => c
  {
    OfKindAppend(a + b, c, k);
    OfKindAppend(a, b, k);
    var oa, ob, oc := OfKind(a, k), OfKind(b, k), OfKind(c, k);
    assert OfKind(a + b + c, k) == oa + ob + oc;
    OfKindUniform(a, CubeKind, k);
    OfKindUniform(b, SphereKind, k);
    OfKindUniform(c, CylinderKind, k);
    match k
    case CubeKind =>
      assert ob == [] && oc == [];
      assert oa + ob + oc == a;
    case SphereKind =>
      assert oa == [] && oc == [];
      assert oa + ob + oc == b;
    case CylinderKind =>
      assert oa == [] && ob == [];
      assert oa + ob + oc == c;
  }

  /**
   * The primitives of any one kind in the extractor's output are exactly
   * that kind's scan, in text order.
   */
  lemma ExtractOfKind(code: string, k: Kind)
    ensures OfKind(Extract(code), k) == Calls(Scan(k, code))
  {
    var cubes := Calls(Scan(CubeKind, code));
    var spheres := Calls(Scan(SphereKind, code));
    var cylinders := Calls(Scan(CylinderKind, code));
    assert Extract(code) == cubes + spheres + cylinders;
    CallsOfScan(CubeKind, code);
    CallsOfScan(SphereKind, code);
    CallsOfScan(CylinderKind, code);
    OfKindGroups(cubes, spheres, cylinders, k);
  }

  /** The meshes of a list of descriptors, in the same order. */
  function Meshes(cs: seq<Primitive>): (ms: seq<Mesh>)
    requires forall c | c in cs :: c.Valid()
    ensures |ms| == |cs|
    ensures forall j | 0 <= j < |cs| :: ms[j] == MeshOf(cs[j])
  {
    if cs == [] then [] else [MeshOf(cs[0])] + Meshes(cs[1..])
  }

  /** What `parseOpenSCADToThree` returns, with the warning it passes to `setError`, if any. */
  datatype Parsed = Parsed(objects: seq<Mesh>, warning: Option<string>)

  /** `parseOpenSCADToThree(code)`. */
  function ParseOpenScad(code: string): (r: Parsed)
    ensures r.objects != []
    ensures r.warning.Some? <==> Scan(CubeKind, code) == [] && Scan(SphereKind, code) == [] && Scan(CylinderKind, code) == []
    ensures r.warning.Some? ==> r.objects == [Placeholder] && r.warning.value == ParseWarning
    ensures r.warning.None? ==>
      && |r.objects| == |Scan(CubeKind, code)| + |Scan(SphereKind, code)| + |Scan(CylinderKind, code)|
      && forall m | m in r.objects :: m.material == PartMaterial && m.geometry.NonNegative()
    ensures r.warning.None? ==> r.objects == Meshes(Extract(code))
  {
    var cs := Extract(code);
    if cs == [] then Parsed([Placeholder], Some(ParseWarning))
    else Parsed(Meshes(cs), None)
  }

  /** The children of a Three.js scene the component deals with. */
  datatype Node =
    | AmbientLight
    | DirectionalLight
    | GridHelper
    | AxesHelper
    | MeshNode(mesh: Mesh)

  /** `child.isLight || child instanceof THREE.GridHelper || child instanceof THREE.AxesHelper`. */
  predicate Kept(n: Node) {
    n.AmbientLight? || n.DirectionalLight? || n.GridHelper? || n.AxesHelper?
  }

  /** `children.filter(Kept)`. */
  function KeepHelpers(ns: seq<Node>): (r: seq<Node>)
    ensures |r| <= |ns|
    ensures forall n | n in r :: Kept(n)
    ensures forall n | n in ns && Kept(n) :: n in r
    ensures forall n | n in r :: n in ns
  {
    if ns == [] then []
    else (if Kept(ns[0]) then [ns[0]] else []) + KeepHelpers(ns[1..])
  }

  /** Every light, grid and axes survives the filter as often as it occurs; nothing else survives. */
  lemma {:induction false} KeepHelpersCounts(ns: seq<Node>, n: Node)
    ensures multiset(KeepHelpers(ns))[n] == if Kept(n) then multiset(ns)[n] else 0
    decreases |ns|
  {
    if ns != [] {
      var head := if Kept(ns[0]) then [ns[0]] else [];
      assert ns == [ns[0]] + ns[1..];
      assert multiset(ns) == multiset([ns[0]]) + multiset(ns[1..]);
      assert multiset(KeepHelpers(ns)) == multiset(head) + multiset(KeepHelpers(ns[1..]));
      KeepHelpersCounts(ns[1..], n);
    }
  }

  /** A single child is kept exactly when it is a light, a grid or axes. */
  lemma KeepHelpersOne(n: Node)
    ensures KeepHelpers([n]) == if Kept(n) then [n] else []
  {
    assert [n][1..] == [];
  }

  /** The meshes among a list of children, in order. */
  function MeshesIn(ns: seq<Node>): (r: seq<Mesh>)
    ensures |r| <= |ns|
  {
    if ns == [] then []
    else (if ns[0].MeshNode? then [ns[0].mesh] else []) + MeshesIn(ns[1..])
  }

  function Nodes(ms: seq<Mesh>): (r: seq<Node>)
    ensures |r| == |ms|
    ensures forall j | 0 <= j < |ms| :: r[j] == MeshNode(ms[j])
  {
    if ms == [] then [] else [MeshNode(ms[0])] + Nodes(ms[1..])
  }

  /** The render effect's update of the scene: keep lights, grid and axes, then add the parsed objects. */
  function Refresh(children: seq<Node>, objects: seq<Mesh>): (r: seq<Node>)
    ensures |r| <= |children| + |objects|
  {
    KeepHelpers(children) + Nodes(objects)
  }

  /** Filtering a concatenation filters each part and keeps them in order. */
  lemma {:induction false} KeepHelpersAppend(a: seq<Node>, b: seq<Node>)
    ensures KeepHelpers(a + b) == KeepHelpers(a) + KeepHelpers(b)
    decreases |a|
  {
    if a != [] {
      assert (a + b)[1..] == a[1..] + b;
      KeepHelpersAppend(a[1..], b);
    } else {
      assert a + b == b;
    }
  }

  lemma {:induction false} MeshesInAppend(a: seq<Node>, b: seq<Node>)
    ensures MeshesIn(a + b) == MeshesIn(a) + MeshesIn(b)
    decreases |a|
  {
    if a != [] {
      assert (a + b)[1..] == a[1..] + b;
      MeshesInAppend(a[1..], b);
    } else {
      assert a + b == b;
    }
  }

  lemma {:induction false} KeepHelpersIdempotent(ns: seq<Node>)
    ensures KeepHelpers(KeepHelpers(ns)) == KeepHelpers(ns)
    decreases |ns|
  {
    if ns != [] {
      var head := if Kept(ns[0]) then [ns[0]] else [];
      KeepHelpersAppend(head, KeepHelpers(ns[1..]));
      KeepHelpersIdempotent(ns[1..]);
    }
  }

  lemma {:induction false} HelpersHaveNoMeshes(ns: seq<Node>)
    ensures MeshesIn(KeepHelpers(ns)) == []
    decreases |ns|
  {
    if ns != [] {
      var head := if Kept(ns[0]) then [ns[0]] else [];
      MeshesInAppend(head, KeepHelpers(ns[1..]));
      HelpersHaveNoMeshes(ns[1..]);
    }
  }

  lemma NodesHead(ms: seq<Mesh>) returns (h: seq<Node>, t: seq<Node>)
    requires ms != []
    ensures h == [MeshNode(ms[0])] && t == Nodes(ms[1..]) && Nodes(ms) == h + t
  {
    h, t := [MeshNode(ms[0])], Nodes(ms[1..]);
  }

  lemma {:induction false} NodesHaveNoHelpers(ms: seq<Mesh>)
    ensures KeepHelpers(Nodes(ms)) == []
    decreases |ms|
  {
    if ms != [] {
      var h, t := NodesHead(ms);
      KeepHelpersAppend(h, t);
      NodesHaveNoHelpers(ms[1..]);
      assert h[1..] == [];
    }
  }

  lemma {:induction false} NodesAreMeshes(ms: seq<Mesh>)
    ensures MeshesIn(Nodes(ms)) == ms
    decreases |ms|
  {
    if ms != [] {
      var h, t := NodesHead(ms);
      MeshesInAppend(h, t);
      NodesAreMeshes(ms[1..]);
      assert h[1..] == [];
      assert ms == [ms[0]] + ms[1..];
    }
  }

  /**
   * After a refresh the helpers are the old helpers in their old order, and
   * the meshes are exactly the new objects: no earlier mesh survives.
   */
  lemma RefreshContents(children: seq<Node>, objects: seq<Mesh>)
    ensures KeepHelpers(Refresh(children, objects)) == KeepHelpers(children)
    ensures MeshesIn(Refresh(children, objects)) == objects
  {
    KeepHelpersAppend(KeepHelpers(children), Nodes(objects));
    MeshesInAppend(KeepHelpers(children), Nodes(objects));
    KeepHelpersIdempotent(children);
    HelpersHaveNoMeshes(children);
    NodesHaveNoHelpers(objects);
    NodesAreMeshes(objects);
  }

  /** Refreshing twice with the same objects is refreshing once. */
  lemma RefreshIdempotent(children: seq<Node>, objects: seq<Mesh>)
    ensures Refresh(Refresh(children, objects), objects) == Refresh(children, objects)
  {
    RefreshContents(children, objects);
  }

  /** The viewer's state: whether it is ready, and the scene's children when the scene exists. */
  datatype Viewer = Viewer(ready: bool, scene: Option<seq<Node>>)

  /**
   * The render effect for a new `cadCode`: when there is code, the viewer is
   * ready and the scene exists, the scene is refreshed with the parsed
   * objects and the parse warning, if any, becomes the error; otherwise
   * nothing changes.
   */
  function RenderEffect(code: string, v: Viewer, error: string): (r: (Viewer, string))
    ensures (code == [] || !v.ready || v.scene.None?) ==> r == (v, error)
    ensures code != [] && v.ready && v.scene.Some? ==>
      && r.0.ready
      && r.0.scene == Some(Refresh(v.scene.value, ParseOpenScad(code).objects))
      && MeshesIn(r.0.scene.value) == ParseOpenScad(code).objects
      && KeepHelpers(r.0.scene.value) == KeepHelpers(v.scene.value)
      && r.1 == (if ParseOpenScad(code).warning.Some? then ParseWarning else error)
  {
    if code != [] && v.ready && v.scene.Some? then
      var parsed := ParseOpenScad(code);
      var children := Refresh(v.scene.value, parsed.objects);
      RefreshContents(v.scene.value, parsed.objects);
      (Viewer(v.ready, Some(children)), if parsed.warning.Some? then parsed.warning.value else error)
    else (v, error)
  }

  /** `disabled={isLoading || !prompt.trim()}`. */
  function GenerateDisabled(loading: bool, prompt: string): (r: bool)
    ensures r <==> loading || AllSpace(Ecma, prompt)
  {
    TrimEmptyIffBlank(Ecma, prompt);
    loading || Trim(Ecma, prompt) == []
  }
}
