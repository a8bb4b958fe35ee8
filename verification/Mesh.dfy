/** The chunk mesher: which faces it emits, what each face looks like, and the discrete
    divergence theorem that its output obeys. Coordinates are in half blocks, so that all of
    them are integers. */
module Mesh {
  datatype Vec = Vec(x: int, y: int, z: int)

  // The six directions, in the order in which they are tried.
  function Face(f: nat): Vec
    requires f < 6
  {
    match f
    case 0 => Vec(1, 0, 0)
    case 1 => Vec(-1, 0, 0)
    case 2 => Vec(0, 1, 0)
    case 3 => Vec(0, -1, 0)
    case 4 => Vec(0, 0, 1)
    case _ => Vec(0, 0, -1)
  }

  function Add(a: Vec, b: Vec): Vec { Vec(a.x + b.x, a.y + b.y, a.z + b.z) }
  function Sub(a: Vec, b: Vec): Vec { Vec(a.x - b.x, a.y - b.y, a.z - b.z) }
  function Neg(a: Vec): Vec { Vec(-a.x, -a.y, -a.z) }
  function Scale(k: int, a: Vec): Vec { Vec(k * a.x, k * a.y, k * a.z) }
  function Dot(a: Vec, b: Vec): int { a.x * b.x + a.y * b.y + a.z * b.z }

  // ivec3_cross
  function Cross(x: Vec, y: Vec): Vec {
    Vec(x.y * y.z - y.y * x.z, x.z * y.x - y.z * x.x, x.x * y.y - y.x * x.y)
  }

  lemma CrossAxis(n: Vec)
    ensures Cross(n, Vec(1, 0, 0)) == Vec(0, n.z, -n.y)
    ensures Cross(n, Vec(0, 1, 0)) == Vec(-n.z, 0, n.x)
    ensures Cross(n, Vec(0, 0, 1)) == Vec(n.y, -n.x, 0)
  {
  }

  // Crossing a unit normal with p turns p by a quarter.
  lemma AxisCross(f: nat, p: Vec)
    requires f < 6
    ensures Cross(Face(f), p) ==
            match f
            case 0 => Vec(0, -p.z, p.y)
            case 1 => Vec(0, p.z, -p.y)
            case 2 => Vec(p.z, 0, -p.x)
            case 3 => Vec(-p.z, 0, p.x)
            case 4 => Vec(-p.y, p.x, 0)
            case _ => Vec(p.y, -p.x, 0)
  {
    AxisCrossX(p);
    AxisCrossY(p);
    AxisCrossZ(p);
  }

  lemma AxisCrossX(p: Vec)
    ensures Cross(Vec(1, 0, 0), p) == Vec(0, -p.z, p.y)
    ensures Cross(Vec(-1, 0, 0), p) == Vec(0, p.z, -p.y)
  {
  }

  lemma AxisCrossY(p: Vec)
    ensures Cross(Vec(0, 1, 0), p) == Vec(p.z, 0, -p.x)
    ensures Cross(Vec(0, -1, 0), p) == Vec(-p.z, 0, p.x)
  {
  }

  lemma AxisCrossZ(p: Vec)
    ensures Cross(Vec(0, 0, 1), p) == Vec(-p.y, p.x, 0)
    ensures Cross(Vec(0, 0, -1), p) == Vec(p.y, -p.x, 0)
  {
  }

  // The blocks of a chunk, each air or not.
  const CELLS: nat := 4096
  type Grid = g: seq<bool> | |g| == 4096 witness seq(4096, _ => true)

  function IndexOf(p: Vec): int { p.z * 256 + p.x * 16 + p.y }
  function PositionOf(c: int): Vec { Vec(c / 16 % 16, c % 16, c / 256) }
  predicate Inside(p: Vec) { 0 <= p.x < 16 && 0 <= p.y < 16 && 0 <= p.z < 16 }

  function IsAirAt(air: Grid, p: Vec): bool {
    if Inside(p) then air[IndexOf(p)] else true
  }

  lemma IndexInverts(p: Vec)
    requires Inside(p)
    ensures 0 <= IndexOf(p) < CELLS && PositionOf(IndexOf(p)) == p
  {
    var row := 16 * p.z + p.x;
    assert IndexOf(p) == 16 * row + p.y;
    assert IndexOf(p) / 16 == row && row / 16 == p.z;
  }

  lemma PositionInverts(c: nat)
    requires c < CELLS
    ensures Inside(PositionOf(c)) && IndexOf(PositionOf(c)) == c
  {
  }

  // ---- One face ------------------------------------------------------------------------------

  datatype Vertex = Vertex(position: Vec, normal: Vec, u: int, v: int)

  // The corners of the face, as offsets from its centre.
  function FirstCorner(normal: Vec): Vec {
    var x, y, z := Cross(normal, Vec(1, 0, 0)), Cross(normal, Vec(0, 1, 0)), Cross(normal, Vec(0, 0, 1));
    Add(Add(x, y), z)
  }

  function Corner(normal: Vec, k: nat): Vec
    requires k < 4
  {
    var p0 := FirstCorner(normal);
    var p1 := Cross(normal, p0);
    if k == 0 then p0 else if k == 1 then p1 else if k == 2 then Neg(p0) else Neg(p1)
  }

  function TextureCorner(normal: Vec, k: nat): (int, int)
    requires k < 4
  {
    var uv := [(0, 1), (1, 1), (1, 0), (0, 0)];
    if normal.x < 0 || normal.y < 0 || normal.z > 0 then uv[(k + 3) % 4]
    else if normal.y > 0 then uv[(k + 2) % 4]
    else uv[k]
  }

  function FaceVertex(position: Vec, normal: Vec, k: nat): Vertex
    requires k < 4
  {
    var (u, v) := TextureCorner(normal, k);
    Vertex(Add(Add(Scale(2, position), normal), Corner(normal, k)), normal, u, v)
  }

  function FaceVertices(position: Vec, normal: Vec): (vs: seq<Vertex>)
    ensures |vs| == 4
  {
    [FaceVertex(position, normal, 0), FaceVertex(position, normal, 1),
     FaceVertex(position, normal, 2), FaceVertex(position, normal, 3)]
  }

  function FaceIndices(offset: nat): (t: seq<nat>)
    ensures |t| == 6
  {
    [offset, offset + 1, offset + 3, offset + 1, offset + 2, offset + 3]
  }

  function Pick<T>(k: nat, a: T, b: T, c: T, d: T): T
    requires k < 4
  {
    if k == 0 then a else if k == 1 then b else if k == 2 then c else d
  }

  // The corners of the six faces, worked out.
  function CornerOf(f: nat, k: nat): Vec
    requires f < 6 && k < 4
  {
    match f
    case 0 => Pick(k, Vec(0, -1, 1), Vec(0, -1, -1), Vec(0, 1, -1), Vec(0, 1, 1))
    case 1 => Pick(k, Vec(0, 1, -1), Vec(0, -1, -1), Vec(0, -1, 1), Vec(0, 1, 1))
    case 2 => Pick(k, Vec(1, 0, -1), Vec(-1, 0, -1), Vec(-1, 0, 1), Vec(1, 0, 1))
    case 3 => Pick(k, Vec(-1, 0, 1), Vec(-1, 0, -1), Vec(1, 0, -1), Vec(1, 0, 1))
    case 4 => Pick(k, Vec(-1, 1, 0), Vec(-1, -1, 0), Vec(1, -1, 0), Vec(1, 1, 0))
    case _ => Pick(k, Vec(1, -1, 0), Vec(-1, -1, 0), Vec(-1, 1, 0), Vec(1, 1, 0))
  }

  lemma FirstCornerIs(n: Vec)
    ensures FirstCorner(n) == Vec(n.y - n.z, n.z - n.x, n.x - n.y)
  {
    hide Cross;
    CrossAxis(n);
  }

  lemma CornerTable(f: nat, k: nat)
    requires f < 6 && k < 4
    ensures Corner(Face(f), k) == CornerOf(f, k)
  {
    hide Cross, FirstCorner;
    FirstCornerIs(Face(f));
    AxisCross(f, FirstCorner(Face(f)));
  }

  // The four corners lie in the plane of the face, one unit (half a block) from its centre
  // along both directions of the plane, and are four different points.
  lemma CornersOfUnitSquare(f: nat, k: nat, l: nat)
    requires f < 6 && k < 4 && l < 4 && k != l
    ensures var n, p := Face(f), Corner(Face(f), k);
            && (if n.x == 0 then p.x == 1 || p.x == -1 else p.x == 0)
            && (if n.y == 0 then p.y == 1 || p.y == -1 else p.y == 0)
            && (if n.z == 0 then p.z == 1 || p.z == -1 else p.z == 0)
            && p != Corner(n, l)
  {
    hide Corner;
    CornerTable(f, k);
    CornerTable(f, l);
  }

  // The area vector of a triangle, twice over.
  function Turn(a: Vec, b: Vec, c: Vec): Vec { Cross(Sub(b, a), Sub(c, a)) }

  lemma TurnShifts(d: Vec, a: Vec, b: Vec, c: Vec)
    ensures Turn(Add(d, a), Add(d, b), Add(d, c)) == Turn(a, b, c)
  {
    hide Cross;
    assert Sub(Add(d, b), Add(d, a)) == Sub(b, a) && Sub(Add(d, c), Add(d, a)) == Sub(c, a);
  }

  lemma TurnOf(a: Vec, b: Vec, c: Vec, d: Vec, e: Vec)
    requires Sub(b, a) == d && Sub(c, a) == e
    ensures Turn(a, b, c) == Cross(d, e)
  {
    hide Cross;
  }

  // A product with twice a unit vector is linear.
  lemma TwiceAxis(p: Vec)
    ensures Cross(Vec(2, 0, 0), p) == Vec(0, -2 * p.z, 2 * p.y)
    ensures Cross(Vec(-2, 0, 0), p) == Vec(0, 2 * p.z, -2 * p.y)
    ensures Cross(Vec(0, 2, 0), p) == Vec(2 * p.z, 0, -2 * p.x)
    ensures Cross(Vec(0, -2, 0), p) == Vec(-2 * p.z, 0, 2 * p.x)
    ensures Cross(Vec(0, 0, 2), p) == Vec(-2 * p.y, 2 * p.x, 0)
    ensures Cross(Vec(0, 0, -2), p) == Vec(2 * p.y, -2 * p.x, 0)
  {
  }

  lemma CornerTurns(f: nat)
    requires f < 6
    ensures Turn(CornerOf(f, 0), CornerOf(f, 1), CornerOf(f, 3)) == Scale(4, Face(f))
    ensures Turn(CornerOf(f, 1), CornerOf(f, 2), CornerOf(f, 3)) == Scale(4, Face(f))
  {
    hide Turn;
    var c0, c1, c2, c3 := CornerOf(f, 0), CornerOf(f, 1), CornerOf(f, 2), CornerOf(f, 3);
    match f {
      case 0 => TurnsOfFace0(c0, c1, c2, c3);
      case 1 => TurnsOfFace1(c0, c1, c2, c3);
      case 2 => TurnsOfFace2(c0, c1, c2, c3);
      case 3 => TurnsOfFace3(c0, c1, c2, c3);
      case 4 => TurnsOfFace4(c0, c1, c2, c3);
      case _ => TurnsOfFace5(c0, c1, c2, c3);
    }
  }

  lemma TurnsOfFace0(c0: Vec, c1: Vec, c2: Vec, c3: Vec)
    requires c0 == Vec(0, -1, 1) && c1 == Vec(0, -1, -1) && c2 == Vec(0, 1, -1) && c3 == Vec(0, 1, 1)
    ensures Turn(c0, c1, c3) == Turn(c1, c2, c3) == Vec(4, 0, 0)
  {
    hide Cross, Turn;
    TurnOf(c0, c1, c3, Vec(0, 0, -2), Vec(0, 2, 0));
    TwiceAxis(Vec(0, 2, 0));
    TurnOf(c1, c2, c3, Vec(0, 2, 0), Vec(0, 2, 2));
    TwiceAxis(Vec(0, 2, 2));
  }

  lemma TurnsOfFace1(c0: Vec, c1: Vec, c2: Vec, c3: Vec)
    requires c0 == Vec(0, 1, -1) && c1 == Vec(0, -1, -1) && c2 == Vec(0, -1, 1) && c3 == Vec(0, 1, 1)
    ensures Turn(c0, c1, c3) == Turn(c1, c2, c3) == Vec(-4, 0, 0)
  {
    hide Cross, Turn;
    TurnOf(c0, c1, c3, Vec(0, -2, 0), Vec(0, 0, 2));
    TwiceAxis(Vec(0, 0, 2));
    TurnOf(c1, c2, c3, Vec(0, 0, 2), Vec(0, 2, 2));
    TwiceAxis(Vec(0, 2, 2));
  }

  lemma TurnsOfFace2(c0: Vec, c1: Vec, c2: Vec, c3: Vec)
    requires c0 == Vec(1, 0, -1) && c1 == Vec(-1, 0, -1) && c2 == Vec(-1, 0, 1) && c3 == Vec(1, 0, 1)
    ensures Turn(c0, c1, c3) == Turn(c1, c2, c3) == Vec(0, 4, 0)
  {
    hide Cross, Turn;
    TurnOf(c0, c1, c3, Vec(-2, 0, 0), Vec(0, 0, 2));
    TwiceAxis(Vec(0, 0, 2));
    TurnOf(c1, c2, c3, Vec(0, 0, 2), Vec(2, 0, 2));
    TwiceAxis(Vec(2, 0, 2));
  }

  lemma TurnsOfFace3(c0: Vec, c1: Vec, c2: Vec, c3: Vec)
    requires c0 == Vec(-1, 0, 1) && c1 == Vec(-1, 0, -1) && c2 == Vec(1, 0, -1) && c3 == Vec(1, 0, 1)
    ensures Turn(c0, c1, c3) == Turn(c1, c2, c3) == Vec(0, -4, 0)
  {
    hide Cross, Turn;
    TurnOf(c0, c1, c3, Vec(0, 0, -2), Vec(2, 0, 0));
    TwiceAxis(Vec(2, 0, 0));
    TurnOf(c1, c2, c3, Vec(2, 0, 0), Vec(2, 0, 2));
    TwiceAxis(Vec(2, 0, 2));
  }

  lemma TurnsOfFace4(c0: Vec, c1: Vec, c2: Vec, c3: Vec)
    requires c0 == Vec(-1, 1, 0) && c1 == Vec(-1, -1, 0) && c2 == Vec(1, -1, 0) && c3 == Vec(1, 1, 0)
    ensures Turn(c0, c1, c3) == Turn(c1, c2, c3) == Vec(0, 0, 4)
  {
    hide Cross, Turn;
    TurnOf(c0, c1, c3, Vec(0, -2, 0), Vec(2, 0, 0));
    TwiceAxis(Vec(2, 0, 0));
    TurnOf(c1, c2, c3, Vec(2, 0, 0), Vec(2, 2, 0));
    TwiceAxis(Vec(2, 2, 0));
  }

  lemma TurnsOfFace5(c0: Vec, c1: Vec, c2: Vec, c3: Vec)
    requires c0 == Vec(1, -1, 0) && c1 == Vec(-1, -1, 0) && c2 == Vec(-1, 1, 0) && c3 == Vec(1, 1, 0)
    ensures Turn(c0, c1, c3) == Turn(c1, c2, c3) == Vec(0, 0, -4)
  {
    hide Cross, Turn;
    TurnOf(c0, c1, c3, Vec(-2, 0, 0), Vec(0, 2, 0));
    TwiceAxis(Vec(0, 2, 0));
    TurnOf(c1, c2, c3, Vec(0, 2, 0), Vec(2, 2, 0));
    TwiceAxis(Vec(2, 2, 0));
  }

  // The two triangles of a face, as its indices give them, turn counter-clockwise around the
  // outward normal, and each has half the area of the face.
  lemma TrianglesFaceOutward(position: Vec, f: nat)
    requires f < 6
    ensures var vs := FaceVertices(position, Face(f));
            && Turn(vs[0].position, vs[1].position, vs[3].position) == Scale(4, Face(f))
            && Turn(vs[1].position, vs[2].position, vs[3].position) == Scale(4, Face(f))
  {
    hide Corner, Turn, Add, Scale, TextureCorner;
    var d := Add(Scale(2, position), Face(f));
    CornerTable(f, 0);
    CornerTable(f, 1);
    CornerTable(f, 2);
    CornerTable(f, 3);
    CornerTurns(f);
    TurnShifts(d, CornerOf(f, 0), CornerOf(f, 1), CornerOf(f, 3));
    TurnShifts(d, CornerOf(f, 1), CornerOf(f, 2), CornerOf(f, 3));
  }

  lemma SideTexture(f: nat, k: nat)
    requires f < 6 && Face(f).y == 0 && k < 4
    ensures TextureCorner(Face(f), k) ==
            if f == 0 || f == 5 then Pick(k, (0, 1), (1, 1), (1, 0), (0, 0))
            else Pick(k, (0, 0), (0, 1), (1, 1), (1, 0))
  {
    match f {
      case 0 => case 1 => case 4 => case 5 =>
    }
  }

  // On the four sides the texture stands upright (its second coordinate grows downwards) and
  // is not mirrored: its first grows to the right of somebody who faces the side, along the
  // product of the vertical and the normal, which is (n.z, 0, -n.x).
  lemma SideTexturesUpright(f: nat, k: nat)
    requires f < 6 && Face(f).y == 0 && k < 4
    ensures var n, p := Face(f), Corner(Face(f), k);
            var (u, v) := TextureCorner(n, k);
            && (u == 0 || u == 1) && (v == 0 || v == 1)
            && p.y == (if v == 0 then 1 else -1)
            && p.x == (if u == 1 then n.z else -n.z)
            && p.z == (if u == 1 then -n.x else n.x)
  {
    hide Corner, TextureCorner;
    CornerTable(f, k);
    SideTexture(f, k);
  }

  lemma FlatTexture(f: nat, k: nat)
    requires (f == 2 || f == 3) && k < 4
    ensures TextureCorner(Face(f), k) ==
            if f == 2 then Pick(k, (1, 0), (0, 0), (0, 1), (1, 1)) else Pick(k, (0, 0), (0, 1), (1, 1), (1, 0))
  {
  }

  // On top the first coordinate grows with x and the second with z; at the bottom the second grows
  // the other way.
  lemma FlatTexturesAligned(f: nat, k: nat)
    requires (f == 2 || f == 3) && k < 4
    ensures var p := Corner(Face(f), k);
            var (u, v) := TextureCorner(Face(f), k);
            && (u == 0 || u == 1) && (v == 0 || v == 1)
            && (u == 1 <==> p.x == 1) && (v == 1 <==> p.z == if f == 2 then 1 else -1)
  {
    hide Corner, TextureCorner;
    CornerTable(f, k);
    FlatTexture(f, k);
  }

  // Of the vertices of a face, each has the direction of the face as its normal and lies at one
  // corner; and it has the texture corner that belongs there.
  lemma VertexOfFace(position: Vec, f: nat, k: nat)
    requires f < 6 && k < 4
    ensures var n, p, w := Face(f), Corner(Face(f), k), FaceVertices(position, Face(f))[k];
            && w.normal == n && w.position == Add(Add(Scale(2, position), n), p)
            && (w.u == 0 || w.u == 1) && (w.v == 0 || w.v == 1)
            && (n.y == 0 ==> (w.v == 0 <==> p.y == 1) && (w.u == 1 <==> p.x == n.z && p.z == -n.x))
            && (n.y == 1 ==> (w.u == 1 <==> p.x == 1) && (w.v == 1 <==> p.z == 1))
            && (n.y == -1 ==> (w.u == 1 <==> p.x == 1) && (w.v == 1 <==> p.z == -1))
  {
    hide Corner, TextureCorner, Add, Scale;
    if f == 2 || f == 3 {
      FlatTexturesAligned(f, k);
    } else {
      SideTexturesUpright(f, k);
    }
  }

  // The four corners of a face get the four corners of the texture.
  lemma WholeTexture(position: Vec, f: nat, k: nat, l: nat)
    requires f < 6 && k < 4 && l < 4 && k != l
    ensures var vs := FaceVertices(position, Face(f));
            vs[k].u != vs[l].u || vs[k].v != vs[l].v
  {
    hide Corner, TextureCorner, Add, Scale;
    if f == 2 || f == 3 {
      FlatTexture(f, k);
      FlatTexture(f, l);
    } else {
      SideTexture(f, k);
      SideTexture(f, l);
    }
  }
}
