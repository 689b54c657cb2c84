// The three tile primitives and the single-tile meshes they build.
// Positions are real-valued; the trigonometry is a parameter (`SinCos`),
// so what is proved is the structure of each mesh: its counts, its index
// buffer, its normals and where each vertex comes from.

module Primitives {

  /** Which plane the grid is drawn in: XY (normal +Z) or XZ (normal +Y). */
  datatype GridAlign = XY | XZ

  datatype HexOrientation = PointyUp | FlatUp

  datatype Vec3 = Vec3(x: real, y: real, z: real)

  /** Triangle tiles. The stored neighbour-counting mode is never read by
      the modelled code and is not part of this record. */
  datatype Triangles = Triangles(size: real, alignment: GridAlign, layer: real)

  datatype Squares = Squares(size: real, alignment: GridAlign, layer: real)

  datatype Hexes = Hexes(size: real, alignment: GridAlign, orientation: HexOrientation, layer: real)

  /** A triangle-list mesh: vertex positions, one normal per vertex, and an
      index buffer whose consecutive triples are the triangles. */
  datatype Mesh = Mesh(positions: seq<Vec3>, normals: seq<Vec3>, indices: seq<nat>)

  /** Sine and cosine (in that order) of an angle given in degrees. */
  type SinCos = int -> (real, real)

  // Angle step between corners and angle of corner 0, in degrees.
  const TriangleStep: int := 120
  const TriangleOffset: int := 90
  const SquareStep: int := 90
  const SquareOffset: int := 45
  const HexStep: int := 60

  /** Angle of hexagon corner 0: pointy-up hexagons are turned by 30 degrees. */
  function HexOffset(orientation: HexOrientation): (a: int)
    ensures a == 0 || a == 30
    ensures a == 30 <==> orientation == PointyUp
  {
    match orientation
    case PointyUp => 30
    case FlatUp => 0
  }

  const Origin: Vec3 := Vec3(0.0, 0.0, 0.0)

  /** The normal of every vertex of a tile in the given plane. */
  function PlaneNormal(align: GridAlign): Vec3
  {
    match align
    case XY => Vec3(0.0, 0.0, 1.0)
    case XZ => Vec3(0.0, 1.0, 0.0)
  }

  function Dot(u: Vec3, v: Vec3): real
  {
    u.x * v.x + u.y * v.y + u.z * v.z
  }

  function Cross(u: Vec3, v: Vec3): Vec3
  {
    Vec3(u.y * v.z - u.z * v.y, u.z * v.x - u.x * v.z, u.x * v.y - u.y * v.x)
  }

  function Midpoint(u: Vec3, v: Vec3): Vec3
  {
    Vec3((u.x + v.x) / 2.0, (u.y + v.y) / 2.0, (u.z + v.z) / 2.0)
  }

  /** The quarter turn about the X axis that carries the XY plane onto the
      XZ plane: (x, y, z) goes to (x, z, -y). */
  function TurnToXZ(v: Vec3): Vec3
  {
    Vec3(v.x, v.z, -v.y)
  }

  function Repeat(v: Vec3, n: nat): (s: seq<Vec3>)
    ensures |s| == n && forall k :: 0 <= k < n ==> s[k] == v
  {
    seq(n, _ => v)
  }

  /** Angle of corner `i`, in degrees. */
  function CornerAngle(i: nat, step: int, offset: int): int
  {
    step * i + offset
  }

  /** `corner_pos`: corner `i` of a tile of the given size, placed in the
      plane; it never leaves the plane, i.e. it is orthogonal to the
      plane's normal. */
  function CornerPos(i: nat, step: int, offset: int, size: real, align: GridAlign, sinCos: SinCos): (p: Vec3)
    ensures Dot(PlaneNormal(align), p) == 0.0
  {
    var (sin, cos) := sinCos(CornerAngle(i, step, offset));
    match align
    case XY => Vec3(size * cos, size * sin, 0.0)
    case XZ => Vec3(size * cos, 0.0, -size * sin)
  }

  /** The first `n` corners, in the order the builders push them. */
  function Corners(n: nat, step: int, offset: int, size: real, align: GridAlign, sinCos: SinCos): (cs: seq<Vec3>)
    ensures |cs| == n
    ensures forall i :: 0 <= i < n ==> cs[i] == CornerPos(i, step, offset, size, align, sinCos)
  {
    if n == 0 then []
    else Corners(n - 1, step, offset, size, align, sinCos) + [CornerPos(n - 1, step, offset, size, align, sinCos)]
  }

  /** The hexagon fan's triangle `i`: centre, corner `i + 1`, and the next
      corner, wrapping from corner 6 back to corner 1. */
  function FanTriangle(i: nat): seq<nat>
  {
    [0, i + 1, if i < 5 then i + 2 else 1]
  }

  /** The first `n` fan triangles, flattened into an index buffer. */
  function FanIndices(n: nat): (ix: seq<nat>)
    ensures |ix| == 3 * n
    ensures forall i :: 0 <= i < n ==>
      ix[3 * i] == 0 && ix[3 * i + 1] == i + 1 && ix[3 * i + 2] == (if i < 5 then i + 2 else 1)
  {
    if n == 0 then [] else FanIndices(n - 1) + FanTriangle(n - 1)
  }

  // ---------------------------------------------------------------------
  // What a built tile is: one reference definition per shape.

  function TriangleTile(t: Triangles, sinCos: SinCos): Mesh
  {
    var corners := Corners(3, TriangleStep, TriangleOffset, t.size, t.alignment, sinCos);
    Mesh(corners + [Midpoint(corners[1], corners[2])],
         Repeat(PlaneNormal(t.alignment), 4),
         [0, 1, 3, 0, 3, 2])
  }

  function SquareTile(s: Squares, sinCos: SinCos): Mesh
  {
    Mesh(Corners(4, SquareStep, SquareOffset, s.size, s.alignment, sinCos),
         Repeat(PlaneNormal(s.alignment), 4),
         [0, 1, 2, 0, 2, 3])
  }

  function HexTile(h: Hexes, sinCos: SinCos): Mesh
  {
    Mesh([Origin] + Corners(6, HexStep, HexOffset(h.orientation), h.size, h.alignment, sinCos),
         Repeat(PlaneNormal(h.alignment), 7),
         FanIndices(6))
  }

  /** Every index names a position, the indices form whole triangles, and
      there is one normal per position. */
  predicate WellFormed(m: Mesh)
  {
    && |m.indices| % 3 == 0
    && |m.normals| == |m.positions|
    && forall k :: 0 <= k < |m.indices| ==> m.indices[k] < |m.positions|
  }

  /** Every normal is the plane's normal. */
  predicate FacesAlong(m: Mesh, align: GridAlign)
  {
    forall k :: 0 <= k < |m.normals| ==> m.normals[k] == PlaneNormal(align)
  }

  /** Every position lies in the plane, orthogonal to its normal. */
  predicate InPlane(m: Mesh, align: GridAlign)
  {
    forall k :: 0 <= k < |m.positions| ==> Dot(PlaneNormal(align), m.positions[k]) == 0.0
  }

  // ---------------------------------------------------------------------
  // The builders (`to_mesh`), which push vertices and indices in loops.

  /** `Triangles::to_mesh`. */
  method TrianglesToMesh(t: Triangles, sinCos: SinCos) returns (m: Mesh)
    ensures m == TriangleTile(t, sinCos)
  {
    var vectors: seq<Vec3> := [];
    var indices: seq<nat> := [0, 1, 3, 0, 3, 2];
    for i := 0 to 3
      invariant vectors == Corners(i, TriangleStep, TriangleOffset, t.size, t.alignment, sinCos)
    {
      vectors := vectors + [CornerPos(i, TriangleStep, TriangleOffset, t.size, t.alignment, sinCos)];
    }
    var vec1, vec2 := vectors[1], vectors[2];
    vectors := vectors + [Midpoint(vec1, vec2)];
    m := Mesh(vectors, Repeat(PlaneNormal(t.alignment), 4), indices);
  }

  /** `Squares::to_mesh`. */
  method SquaresToMesh(s: Squares, sinCos: SinCos) returns (m: Mesh)
    ensures m == SquareTile(s, sinCos)
  {
    var vectors: seq<Vec3> := [];
    var indices: seq<nat> := [0, 1, 2, 0, 2, 3];
    for i := 0 to 4
      invariant vectors == Corners(i, SquareStep, SquareOffset, s.size, s.alignment, sinCos)
    {
      vectors := vectors + [CornerPos(i, SquareStep, SquareOffset, s.size, s.alignment, sinCos)];
    }
    m := Mesh(vectors, Repeat(PlaneNormal(s.alignment), 4), indices);
  }

  /** `Hexes::to_mesh`: the centre, then one corner and one fan triangle
      per step. */
  method HexesToMesh(h: Hexes, sinCos: SinCos) returns (m: Mesh)
    ensures m == HexTile(h, sinCos)
  {
    var vectors: seq<Vec3> := [Origin];
    var indices: seq<nat> := [];
    var offset := HexOffset(h.orientation);
    for i := 0 to 6
      invariant vectors == [Origin] + Corners(i, HexStep, offset, h.size, h.alignment, sinCos)
      invariant indices == FanIndices(i)
    {
      vectors := vectors + [CornerPos(i, HexStep, offset, h.size, h.alignment, sinCos)];
      indices := indices + [0];
      indices := indices + [i + 1];
      if i < 5 {
        indices := indices + [i + 2];
      } else {
        indices := indices + [1];
      }
    }
    m := Mesh(vectors, Repeat(PlaneNormal(h.alignment), 7), indices);
  }

  // ---------------------------------------------------------------------
  // Properties of the tiles.

  /** The triangle tile: three corners 120 degrees apart starting at 90, a
      fourth vertex halfway between corners 1 and 2, the index buffer
      [0, 1, 3, 0, 3, 2] and four normals. */
  lemma TriangleTileShape(t: Triangles, sinCos: SinCos)
    ensures var m := TriangleTile(t, sinCos);
      && |m.positions| == 4
      && (forall i :: 0 <= i < 3 ==>
            m.positions[i] == CornerPos(i, TriangleStep, TriangleOffset, t.size, t.alignment, sinCos))
      && m.positions[3] == Midpoint(m.positions[1], m.positions[2])
      && m.indices == [0, 1, 3, 0, 3, 2]
      && |m.normals| == 4
      && WellFormed(m) && FacesAlong(m, t.alignment) && InPlane(m, t.alignment)
  {
    var m := TriangleTile(t, sinCos);
    var n := PlaneNormal(t.alignment);
    MidpointInPlane(n, m.positions[1], m.positions[2]);
  }

  /** The square tile: four corners 90 degrees apart starting at 45, the
      index buffer [0, 1, 2, 0, 2, 3] and four normals. */
  lemma SquareTileShape(s: Squares, sinCos: SinCos)
    ensures var m := SquareTile(s, sinCos);
      && |m.positions| == 4
      && (forall i :: 0 <= i < 4 ==>
            m.positions[i] == CornerPos(i, SquareStep, SquareOffset, s.size, s.alignment, sinCos))
      && m.indices == [0, 1, 2, 0, 2, 3]
      && |m.normals| == 4
      && WellFormed(m) && FacesAlong(m, s.alignment) && InPlane(m, s.alignment)
  {
  }

  /** The hexagon tile: the origin, six corners 60 degrees apart starting
      at 30 (pointy-up) or 0 (flat-up), seven normals and 18 indices
      forming the fan (0, i+1, i+2) for i < 5 and (0, 6, 1). */
  lemma HexTileShape(h: Hexes, sinCos: SinCos)
    ensures var m := HexTile(h, sinCos);
      && |m.positions| == 7
      && m.positions[0] == Origin
      && (forall i :: 0 <= i < 6 ==>
            m.positions[i + 1] == CornerPos(i, HexStep, HexOffset(h.orientation), h.size, h.alignment, sinCos))
      && m.indices == [0, 1, 2, 0, 2, 3, 0, 3, 4, 0, 4, 5, 0, 5, 6, 0, 6, 1]
      && |m.normals| == 7
      && WellFormed(m) && FacesAlong(m, h.alignment) && InPlane(m, h.alignment)
  {
    HexFanIndices();
  }

  /** The hexagon's index buffer written out: six triangles, the last one
      closing the fan back at corner 1. */
  lemma HexFanIndices()
    ensures FanIndices(6) == [0, 1, 2, 0, 2, 3, 0, 3, 4, 0, 4, 5, 0, 5, 6, 0, 6, 1]
  {
    var f0 := FanIndices(0);
    assert f0 == [];
    var f1 := f0 + FanTriangle(0);
    assert f1 == [0, 1, 2];
    var f2 := f1 + FanTriangle(1);
    assert f2 == [0, 1, 2, 0, 2, 3];
    var f3 := f2 + FanTriangle(2);
    assert f3 == [0, 1, 2, 0, 2, 3, 0, 3, 4];
    var f4 := f3 + FanTriangle(3);
    assert f4 == [0, 1, 2, 0, 2, 3, 0, 3, 4, 0, 4, 5];
    var f5 := f4 + FanTriangle(4);
    assert f5 == [0, 1, 2, 0, 2, 3, 0, 3, 4, 0, 4, 5, 0, 5, 6];
    var f6 := f5 + FanTriangle(5);
    assert f6 == [0, 1, 2, 0, 2, 3, 0, 3, 4, 0, 4, 5, 0, 5, 6, 0, 6, 1];
    assert FanIndices(6) == f6;
  }

  /** Number of triangles of an index buffer that use vertex `v`. */
  function TrianglesUsing(ix: seq<nat>, v: nat): nat
    decreases |ix|
  {
    if |ix| < 3 then 0
    else (if v in ix[..3] then 1 else 0) + TrianglesUsing(ix[3..], v)
  }

  /** Counting triangles is additive over buffers made of whole triangles. */
  lemma {:induction false} TrianglesUsingAppend(a: seq<nat>, b: seq<nat>, v: nat)
    requires |a| % 3 == 0
    ensures TrianglesUsing(a + b, v) == TrianglesUsing(a, v) + TrianglesUsing(b, v)
    decreases |a|
  {
    if |a| == 0 {
      assert a + b == b;
    } else {
      assert (a + b)[..3] == a[..3];
      assert (a + b)[3..] == a[3..] + b;
      TrianglesUsingAppend(a[3..], b, v);
    }
  }

  /** Adding fan triangle `n` adds one use of each of its three vertices. */
  lemma FanStep(n: nat, v: nat)
    ensures TrianglesUsing(FanIndices(n + 1), v)
         == TrianglesUsing(FanIndices(n), v) + (if v in FanTriangle(n) then 1 else 0)
  {
    TrianglesUsingAppend(FanIndices(n), FanTriangle(n), v);
    assert FanTriangle(n)[..3] == FanTriangle(n);
    assert FanTriangle(n)[3..] == [];
  }

  /** In the hexagon fan every corner is shared by exactly two triangles
      and the centre by all six. */
  lemma HexFanSharing(v: nat)
    ensures TrianglesUsing(FanIndices(6), v) == if v == 0 then 6 else if v <= 6 then 2 else 0
  {
    assert TrianglesUsing(FanIndices(0), v) == 0;
    FanStep(0, v);
    FanStep(1, v);
    FanStep(2, v);
    FanStep(3, v);
    FanStep(4, v);
    FanStep(5, v);
  }

  // ---------------------------------------------------------------------
  // Properties of `corner_pos`.

  /** When sine and cosine satisfy sin^2 + cos^2 = 1, every corner lies on
      the circle of radius `size` about the origin. */
  lemma CornerOnCircle(i: nat, step: int, offset: int, size: real, align: GridAlign, sinCos: SinCos)
    requires sinCos(CornerAngle(i, step, offset)).0 * sinCos(CornerAngle(i, step, offset)).0
           + sinCos(CornerAngle(i, step, offset)).1 * sinCos(CornerAngle(i, step, offset)).1 == 1.0
    ensures var p := CornerPos(i, step, offset, size, align, sinCos); Dot(p, p) == size * size
  {
    var (sin, cos) := sinCos(CornerAngle(i, step, offset));
    var p := CornerPos(i, step, offset, size, align, sinCos);
    calc {
      Dot(p, p);
      (size * cos) * (size * cos) + (size * sin) * (size * sin);
      size * size * (cos * cos + sin * sin);
      size * size;
    }
  }

  /** The XZ placement is the XY placement turned onto the XZ plane, and
      so is the XZ normal. */
  lemma XZIsTurnedXY(i: nat, step: int, offset: int, size: real, sinCos: SinCos)
    ensures CornerPos(i, step, offset, size, XZ, sinCos) == TurnToXZ(CornerPos(i, step, offset, size, XY, sinCos))
    ensures PlaneNormal(XZ) == TurnToXZ(PlaneNormal(XY))
  {
    var sc := sinCos(CornerAngle(i, step, offset));
    assert CornerPos(i, step, offset, size, XY, sinCos) == Vec3(size * sc.1, size * sc.0, 0.0);
    assert CornerPos(i, step, offset, size, XZ, sinCos) == Vec3(size * sc.1, 0.0, -size * sc.0);
    assert -size * sc.0 == -(size * sc.0);
  }

  /** The turn keeps cross products, so a triangle wound counter-clockwise
      about the XY normal is wound counter-clockwise about the XZ normal. */
  lemma TurnKeepsWinding(u: Vec3, v: Vec3)
    ensures Cross(TurnToXZ(u), TurnToXZ(v)) == TurnToXZ(Cross(u, v))
  {
    assert (-u.y) * v.z - u.z * (-v.y) == -(u.y * v.z - u.z * v.y);
    assert u.z * v.x - u.x * v.z == u.z * v.x - u.x * v.z;
    assert u.x * (-v.y) - (-u.y) * v.x == -(u.x * v.y - u.y * v.x);
  }

  /** The midpoint of two in-plane points is in the plane. */
  lemma MidpointInPlane(n: Vec3, u: Vec3, v: Vec3)
    requires Dot(n, u) == 0.0 && Dot(n, v) == 0.0
    ensures Dot(n, Midpoint(u, v)) == 0.0
  {
    assert Dot(n, Midpoint(u, v)) == (Dot(n, u) + Dot(n, v)) / 2.0;
  }
}
