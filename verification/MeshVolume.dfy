/** What the mesher emits for a whole chunk, and the divergence theorem for it. */
module Emission {
  import opened Mesh

  datatype Quad = Quad(cell: nat, face: nat)

  // A solid block whose neighbour in the direction is air, or outside the chunk.
  predicate Exposed(air: Grid, c: nat, f: nat)
    requires c < CELLS && f < 6
  {
    !air[c] && IsAirAt(air, Add(PositionOf(c), Face(f)))
  }

  // The faces of one block, up to direction k, and of all blocks before block n.
  function CellQuads(air: Grid, c: nat, k: nat): seq<Quad>
    requires c < CELLS && k <= 6
  {
    if k == 0 then []
    else CellQuads(air, c, k - 1) + if Exposed(air, c, k - 1) then [Quad(c, k - 1)] else []
  }

  function Quads(air: Grid, n: nat): seq<Quad>
    requires n <= CELLS
  {
    if n == 0 then [] else Quads(air, n - 1) + CellQuads(air, n - 1, 6)
  }

  lemma {:induction false} CellQuadsExact(air: Grid, c: nat, k: nat, q: Quad)
    requires c < CELLS && k <= 6
    ensures multiset(CellQuads(air, c, k))[q] == if q.cell == c && q.face < k && Exposed(air, c, q.face) then 1 else 0
  {
    hide Exposed;
    if k > 0 {
      CellQuadsExact(air, c, k - 1, q);
    }
  }

  // Every exposed face is emitted exactly once, and nothing else is.
  lemma {:induction false} QuadsExact(air: Grid, n: nat, q: Quad)
    requires n <= CELLS
    ensures multiset(Quads(air, n))[q] ==
            if q.cell < n && q.face < 6 && Exposed(air, q.cell, q.face) then 1 else 0
  {
    hide Exposed, CellQuads;
    if n > 0 {
      QuadsExact(air, n - 1, q);
      CellQuadsExact(air, n - 1, 6, q);
    }
  }

  predicate Legal(qs: seq<Quad>) {
    forall q :: q in qs ==> q.cell < CELLS && q.face < 6
  }

  function QuadVertices(q: Quad): (vs: seq<Vertex>)
    requires q.face < 6
    ensures |vs| == 4
  {
    FaceVertices(PositionOf(q.cell), Face(q.face))
  }

  function VerticesOf(qs: seq<Quad>): (vs: seq<Vertex>)
    requires Legal(qs)
    ensures |vs| == 4 * |qs|
  {
    if qs == [] then []
    else
      var last := qs[|qs| - 1];
      assert last in qs;
      VerticesOf(qs[..|qs| - 1]) + QuadVertices(last)
  }

  // The vertices of the buffer are those of the faces, four by four.
  lemma {:induction false} EmittedVertex(qs: seq<Quad>, i: nat, k: nat)
    requires Legal(qs) && i < |qs| && k < 4
    ensures qs[i] in qs && VerticesOf(qs)[4 * i + k] == QuadVertices(qs[i])[k]
    decreases |qs|
  {
    hide QuadVertices;
    var last := |qs| - 1;
    assert qs[last] in qs;
    if i < last {
      EmittedVertex(qs[..last], i, k);
    }
  }

  function IndicesOf(n: nat): (t: seq<nat>)
    ensures |t| == 6 * n && |t| % 3 == 0 && forall i :: 0 <= i < |t| ==> t[i] < 4 * n
  {
    if n == 0 then [] else IndicesOf(n - 1) + FaceIndices(4 * (n - 1))
  }

  // `(normal.x == 0) + (normal.y == 0) + (normal.z == 0)`
  function Zeros(n: Vec): nat {
    (if n.x == 0 then 1 else 0) + (if n.y == 0 then 1 else 0) + if n.z == 0 then 1 else 0
  }

  lemma AlongOneAxis(f: nat)
    requires f < 6
    ensures Zeros(Face(f)) == 2
  {
  }

  // ---- The vertex and index buffers ----------------------------------------------------------

  class Buffers {
    var vertices: seq<Vertex>
    var indices: seq<nat>
    ghost var quads: seq<Quad>

    ghost predicate Valid()
      reads this
    {
      Legal(quads) && vertices == VerticesOf(quads) && indices == IndicesOf(|quads|)
    }

    constructor ()
      ensures Valid() && quads == []
    {
      vertices, indices, quads := [], [], [];
    }

    // generate_face; its assertion is that the normal points along one axis.
    method GenerateFace(position: Vec, normal: Vec, ghost q: Quad)
      requires Valid() && q.cell < CELLS && q.face < 6
      requires position == PositionOf(q.cell) && normal == Face(q.face)
      modifies this
      ensures Valid() && quads == old(quads) + [q]
      ensures vertices == old(vertices) + FaceVertices(position, normal)
      ensures indices == old(indices) + FaceIndices(|old(vertices)|)
    {
      hide FaceVertices;
      AlongOneAxis(q.face);
      assert Zeros(normal) == 2;
      var offset := |vertices|;
      indices := indices + [offset + 0, offset + 1, offset + 3, offset + 1, offset + 2, offset + 3];
      vertices := vertices + FaceVertices(position, normal);
      quads := quads + [q];
      assert quads[..|quads| - 1] == old(quads);
    }

    // The body of the three loops.
    method GenerateBlock(air: Grid, position: Vec)
      requires Valid() && Inside(position)
      modifies this
      ensures Valid() && quads == old(quads) + CellQuads(air, IndexOf(position), 6)
    {
      hide CellQuads, VerticesOf, IndicesOf, PositionOf;
      IndexInverts(position);
      if air[position.z * 256 + position.x * 16 + position.y] {
        AirHasNoQuads(air, IndexOf(position), 6);
      } else {
        GenerateFaces(air, position);
      }
    }

    method GenerateFaces(air: Grid, position: Vec)
      requires Valid() && Inside(position) && !air[IndexOf(position)]
      modifies this
      ensures Valid() && quads == old(quads) + CellQuads(air, IndexOf(position), 6)
    {
      hide CellQuads, VerticesOf, IndicesOf, PositionOf, IndexOf, IsAirAt, Exposed, Face;
      ghost var c := IndexOf(position);
      IndexInverts(position);
      NoFacesYet(air, c);
      for f := 0 to 6
        invariant Valid() && quads == old(quads) + CellQuads(air, c, f)
      {
        NextFace(air, c, f);
        if IsAirAt(air, Add(position, Face(f))) {
          GenerateFace(position, Face(f), Quad(c, f));
        }
      }
    }
  }

  lemma NoFacesYet(air: Grid, c: nat)
    requires c < CELLS
    ensures CellQuads(air, c, 0) == []
  {
  }

  lemma NextFace(air: Grid, c: nat, f: nat)
    requires c < CELLS && f < 6 && !air[c]
    ensures CellQuads(air, c, f + 1)
         == CellQuads(air, c, f) + if IsAirAt(air, Add(PositionOf(c), Face(f))) then [Quad(c, f)] else []
  {
  }

  lemma {:induction false} AirHasNoQuads(air: Grid, c: nat, k: nat)
    requires c < CELLS && air[c] && k <= 6
    ensures CellQuads(air, c, k) == []
  {
    if k > 0 {
      AirHasNoQuads(air, c, k - 1);
    }
  }

  lemma QuadsNext(air: Grid, position: Vec)
    requires Inside(position)
    ensures var c := IndexOf(position); Quads(air, c + 1) == Quads(air, c) + CellQuads(air, c, 6)
  {
  }

  method GenerateVertices(air: Grid) returns (out: Buffers)
    ensures fresh(out) && out.Valid() && out.quads == Quads(air, CELLS)
  {
    hide VerticesOf, IndicesOf, CellQuads, Quads;
    out := new Buffers();
    assert out.quads == Quads(air, 0) by { NoQuads(air); }
    for z := 0 to 16
      invariant fresh(out) && out.Valid() && out.quads == Quads(air, z * 256)
    {
      for x := 0 to 16
        invariant fresh(out) && out.Valid() && out.quads == Quads(air, z * 256 + x * 16)
      {
        for y := 0 to 16
          invariant fresh(out) && out.Valid() && out.quads == Quads(air, z * 256 + x * 16 + y)
        {
          QuadsNext(air, Vec(x, y, z));
          out.GenerateBlock(air, Vec(x, y, z));
        }
      }
    }
  }

  lemma NoQuads(air: Grid)
    ensures Quads(air, 0) == []
  {
  }
}

/** The divergence theorem on the grid, and the volume enclosed by the emitted triangles. */
module Divergence {
  import opened Mesh
  import opened Emission

  // A flow across the faces of the grid: W(axis, p) units pass from the cell at p to the next
  // cell along the axis.
  type Flow = (nat, Vec) -> int

  function Unit(axis: nat): Vec
    requires axis < 3
  {
    Face(2 * axis)
  }

  // The flow out of a solid through one of its faces.
  function Outflow(w: Flow, q: Quad): int
    requires q.face < 6
  {
    var axis, p := q.face / 2, PositionOf(q.cell);
    if q.face % 2 == 0 then w(axis, p) else -w(axis, Sub(p, Unit(axis)))
  }

  function TotalOutflow(w: Flow, qs: seq<Quad>): int
    requires Legal(qs)
  {
    if qs == [] then 0
    else
      var last := qs[|qs| - 1];
      assert last in qs;
      TotalOutflow(w, qs[..|qs| - 1]) + Outflow(w, last)
  }

  // What the flow creates within one cell, along one axis; and within all solid cells.
  function Source(w: Flow, axis: nat, p: Vec): int
    requires axis < 3
  {
    w(axis, p) - w(axis, Sub(p, Unit(axis)))
  }

  function SourceOf(air: Grid, w: Flow, axis: nat, n: nat): int
    requires axis < 3 && n <= CELLS
  {
    if n == 0 then 0
    else SourceOf(air, w, axis, n - 1) + if air[n - 1] then 0 else Source(w, axis, PositionOf(n - 1))
  }

  // ---- One axis at a time -----------------------------------------------------------------------

  // The flow out of the two faces of cell c that are across the axis, if they are exposed.
  function CellFlow(air: Grid, w: Flow, axis: nat, c: nat): int
    requires axis < 3 && c < CELLS
  {
    (if Exposed(air, c, 2 * axis) then Outflow(w, Quad(c, 2 * axis)) else 0)
    + (if Exposed(air, c, 2 * axis + 1) then Outflow(w, Quad(c, 2 * axis + 1)) else 0)
  }

  // The flow from cell c to a solid neighbour, and to cell c from one.
  function Onward(air: Grid, w: Flow, axis: nat, c: nat): int
    requires axis < 3 && c < CELLS
  {
    var p := PositionOf(c);
    if !air[c] && !IsAirAt(air, Add(p, Unit(axis))) then w(axis, p) else 0
  }

  function Arriving(air: Grid, w: Flow, axis: nat, c: nat): int
    requires axis < 3 && c < CELLS
  {
    var p := Sub(PositionOf(c), Unit(axis));
    if !air[c] && !IsAirAt(air, p) then w(axis, p) else 0
  }

  lemma FaceBack(axis: nat, p: Vec)
    requires axis < 3
    ensures Add(p, Face(2 * axis + 1)) == Sub(p, Unit(axis))
  {
  }

  lemma CellBalance(air: Grid, w: Flow, axis: nat, c: nat)
    requires axis < 3 && c < CELLS
    ensures CellFlow(air, w, axis, c) ==
            (if air[c] then 0 else Source(w, axis, PositionOf(c)))
            - Onward(air, w, axis, c) + Arriving(air, w, axis, c)
  {
    hide PositionOf, IsAirAt, Add, Sub, Face;
    FaceBack(axis, PositionOf(c));
  }

  // How far apart neighbours along the axis are in the block array.
  function Stride(axis: nat): nat
    requires axis < 3
  {
    if axis == 0 then 16 else if axis == 1 then 1 else 256
  }

  // The cell after c along the axis, when there is one, and the cell before it.
  lemma Neighbours(axis: nat, c: nat)
    requires axis < 3 && c < CELLS
    ensures var p, k := PositionOf(c), Stride(axis);
            && (Inside(Add(p, Unit(axis))) ==> c + k < CELLS && IndexOf(Add(p, Unit(axis))) == c + k)
            && (Inside(Sub(p, Unit(axis))) ==> c >= k && IndexOf(Sub(p, Unit(axis))) == c - k)
  {
    PositionInverts(c);
  }

  lemma StepBack(axis: nat, p: Vec)
    requires axis < 3
    ensures Add(Sub(p, Unit(axis)), Unit(axis)) == p == Sub(Add(p, Unit(axis)), Unit(axis))
  {
  }

  lemma CellBefore(axis: nat, c: nat)
    requires axis < 3 && c < CELLS
    ensures var k, before := Stride(axis), Sub(PositionOf(c), Unit(axis));
            && (Inside(before) <==> c >= k && Inside(Add(PositionOf(c - k), Unit(axis))))
            && (Inside(before) ==> PositionOf(c - k) == before)
  {
    hide PositionOf, Inside, IndexOf, Unit, Add, Sub, Stride;
    var k, p := Stride(axis), PositionOf(c);
    var before := Sub(p, Unit(axis));
    Neighbours(axis, c);
    PositionInverts(c);
    StepBack(axis, p);
    if Inside(before) {
      IndexInverts(before);
    } else if c >= k {
      var q := PositionOf(c - k);
      var after := Add(q, Unit(axis));
      Neighbours(axis, c - k);
      PositionInverts(c - k);
      if Inside(after) {
        IndexInverts(after);
        StepBack(axis, q);
      }
    }
  }

  // What arrives at a cell went onward from the cell one stride before it; nothing arrives
  // within the first stride, and nothing goes onward within the last.
  lemma ArrivingIsOnward(air: Grid, w: Flow, axis: nat, c: nat)
    requires axis < 3 && c < CELLS
    ensures Arriving(air, w, axis, c) ==
            if c < Stride(axis) then 0 else Onward(air, w, axis, c - Stride(axis))
  {
    hide PositionOf, Inside, IndexOf, Unit, Add, Sub, Stride;
    var k, p := Stride(axis), PositionOf(c);
    var before := Sub(p, Unit(axis));
    CellBefore(axis, c);
    PositionInverts(c);
    StepBack(axis, p);
    Neighbours(axis, c);
  }

  lemma NothingOnward(air: Grid, w: Flow, axis: nat, c: nat)
    requires axis < 3 && c < CELLS <= c + Stride(axis)
    ensures Onward(air, w, axis, c) == 0
  {
    hide PositionOf, IndexOf, Unit, Add, Stride;
    Neighbours(axis, c);
  }

  // ---- Summing up --------------------------------------------------------------------------------

  function SumFlow(air: Grid, w: Flow, axis: nat, n: nat): int
    requires axis < 3 && n <= CELLS
  {
    if n == 0 then 0 else SumFlow(air, w, axis, n - 1) + CellFlow(air, w, axis, n - 1)
  }

  function SumOnward(air: Grid, w: Flow, axis: nat, n: nat): int
    requires axis < 3 && n <= CELLS
  {
    if n == 0 then 0 else SumOnward(air, w, axis, n - 1) + Onward(air, w, axis, n - 1)
  }

  // Up to cell n, what arrived is what went onward up to one stride before.
  lemma {:induction false} SumBalance(air: Grid, w: Flow, axis: nat, n: nat)
    requires axis < 3 && n <= CELLS
    ensures SumFlow(air, w, axis, n) == SourceOf(air, w, axis, n) - SumOnward(air, w, axis, n)
            + if n < Stride(axis) then 0 else SumOnward(air, w, axis, n - Stride(axis))
  {
    hide CellFlow, Onward, Arriving, Source;
    if n > 0 {
      SumBalance(air, w, axis, n - 1);
      CellBalance(air, w, axis, n - 1);
      ArrivingIsOnward(air, w, axis, n - 1);
    }
  }

  lemma {:induction false} LastStride(air: Grid, w: Flow, axis: nat, n: nat)
    requires axis < 3 && CELLS - Stride(axis) <= n <= CELLS
    ensures SumOnward(air, w, axis, n) == SumOnward(air, w, axis, CELLS - Stride(axis))
    decreases n
  {
    hide Onward;
    if n > CELLS - Stride(axis) {
      NothingOnward(air, w, axis, n - 1);
      LastStride(air, w, axis, n - 1);
    }
  }

  lemma FlowIsSource(air: Grid, w: Flow, axis: nat)
    requires axis < 3
    ensures SumFlow(air, w, axis, CELLS) == SourceOf(air, w, axis, CELLS)
  {
    hide SumFlow, SumOnward, SourceOf;
    SumBalance(air, w, axis, CELLS);
    LastStride(air, w, axis, CELLS);
  }

  // ---- The emitted faces --------------------------------------------------------------------------

  lemma {:induction false} TotalOfSum(w: Flow, a: seq<Quad>, b: seq<Quad>)
    requires Legal(a) && Legal(b)
    ensures Legal(a + b) && TotalOutflow(w, a + b) == TotalOutflow(w, a) + TotalOutflow(w, b)
    decreases |b|
  {
    hide Outflow;
    if b == [] {
      assert a + b == a;
    } else {
      var n := |b| - 1;
      assert b[n] in b;
      assert (a + b)[..|a + b| - 1] == a + b[..n];
      TotalOfSum(w, a, b[..n]);
    }
  }

  function FlowOfFace(air: Grid, w: Flow, c: nat, f: nat): int
    requires c < CELLS && f < 6
  {
    if Exposed(air, c, f) then Outflow(w, Quad(c, f)) else 0
  }

  lemma CellStep(air: Grid, w: Flow, c: nat, k: nat)
    requires c < CELLS && k < 6
    ensures Legal(CellQuads(air, c, k)) && Legal(CellQuads(air, c, k + 1))
    ensures TotalOutflow(w, CellQuads(air, c, k + 1))
         == TotalOutflow(w, CellQuads(air, c, k)) + FlowOfFace(air, w, c, k)
  {
    hide Outflow, Exposed;
    CellQuadsLegal(air, c, k);
    var qs := CellQuads(air, c, k);
    if Exposed(air, c, k) {
      TotalOfSum(w, qs, [Quad(c, k)]);
      assert [Quad(c, k)][..0] == [];
      assert TotalOutflow(w, [Quad(c, k)]) == Outflow(w, Quad(c, k));
    } else {
      assert qs + [] == qs;
    }
  }

  lemma CellQuadsLegal(air: Grid, c: nat, k: nat)
    requires c < CELLS && k <= 6
    ensures Legal(CellQuads(air, c, k))
  {
    hide CellQuads, Exposed;
    forall q | q in CellQuads(air, c, k) ensures q.cell < CELLS && q.face < 6 {
      CellQuadsExact(air, c, k, q);
      assert multiset(CellQuads(air, c, k))[q] > 0;
    }
  }

  lemma CellTotal(air: Grid, w: Flow, c: nat)
    requires c < CELLS
    ensures Legal(CellQuads(air, c, 6))
    ensures TotalOutflow(w, CellQuads(air, c, 6))
         == CellFlow(air, w, 0, c) + CellFlow(air, w, 1, c) + CellFlow(air, w, 2, c)
  {
    hide Outflow, Exposed, CellQuads, TotalOutflow;
    assert CellQuads(air, c, 0) == [] && TotalOutflow(w, []) == 0 by { EmptyTotals(air, w, c); }
    CellStep(air, w, c, 0);
    CellStep(air, w, c, 1);
    CellStep(air, w, c, 2);
    CellStep(air, w, c, 3);
    CellStep(air, w, c, 4);
    CellStep(air, w, c, 5);
  }

  lemma EmptyTotals(air: Grid, w: Flow, c: nat)
    requires c < CELLS
    ensures CellQuads(air, c, 0) == [] && TotalOutflow(w, []) == 0
  {
  }

  lemma {:induction false} QuadsTotal(air: Grid, w: Flow, n: nat)
    requires n <= CELLS
    ensures Legal(Quads(air, n))
    ensures TotalOutflow(w, Quads(air, n))
         == SumFlow(air, w, 0, n) + SumFlow(air, w, 1, n) + SumFlow(air, w, 2, n)
  {
    hide CellQuads, CellFlow, Outflow;
    if n > 0 {
      QuadsTotal(air, w, n - 1);
      CellTotal(air, w, n - 1);
      TotalOfSum(w, Quads(air, n - 1), CellQuads(air, n - 1, 6));
    }
  }

  // The divergence theorem: for every chunk and every flow, what passes out through the
  // emitted faces is what the flow creates in the solid blocks.
  lemma DivergenceTheorem(air: Grid, w: Flow)
    ensures Legal(Quads(air, CELLS))
    ensures TotalOutflow(w, Quads(air, CELLS))
         == SourceOf(air, w, 0, CELLS) + SourceOf(air, w, 1, CELLS) + SourceOf(air, w, 2, CELLS)
  {
    hide Quads, TotalOutflow, SumFlow, SourceOf;
    QuadsTotal(air, w, CELLS);
    FlowIsSource(air, w, 0);
    FlowIsSource(air, w, 1);
    FlowIsSource(air, w, 2);
  }

  function SolidCells(air: Grid, n: nat): nat
    requires n <= CELLS
  {
    if n == 0 then 0 else SolidCells(air, n - 1) + if air[n - 1] then 0 else 1
  }

  lemma {:induction false} UniformSource(air: Grid, w: Flow, axis: nat, k: int, n: nat)
    requires axis < 3 && n <= CELLS && forall p :: Source(w, axis, p) == k
    ensures SourceOf(air, w, axis, n) == k * SolidCells(air, n)
  {
    hide Source;
    if n > 0 {
      UniformSource(air, w, axis, k, n - 1);
      var solid := SolidCells(air, n - 1);
      assert k * (solid + 1) == k * solid + k;
      assert Source(w, axis, PositionOf(n - 1)) == k;
    }
  }

  // As many faces look one way along an axis as the other.

  function FacesToward(qs: seq<Quad>, f: nat): nat {
    if qs == [] then 0
    else FacesToward(qs[..|qs| - 1], f) + if qs[|qs| - 1].face == f then 1 else 0
  }

  function CountAlong(axis: nat): Flow {
    (a, p) => if a == axis then 1 else 0
  }

  lemma {:induction false} CountIsFlow(axis: nat, qs: seq<Quad>)
    requires axis < 3 && Legal(qs)
    ensures TotalOutflow(CountAlong(axis), qs) == FacesToward(qs, 2 * axis) - FacesToward(qs, 2 * axis + 1)
    decreases |qs|
  {
    if qs != [] {
      assert qs[|qs| - 1] in qs;
      CountIsFlow(axis, qs[..|qs| - 1]);
    }
  }

  lemma OppositeFacesBalance(air: Grid, axis: nat)
    requires axis < 3
    ensures FacesToward(Quads(air, CELLS), 2 * axis) == FacesToward(Quads(air, CELLS), 2 * axis + 1)
  {
    hide Quads, TotalOutflow, FacesToward, SourceOf;
    var w := CountAlong(axis);
    DivergenceTheorem(air, w);
    CountIsFlow(axis, Quads(air, CELLS));
    UniformSource(air, w, 0, 0, CELLS);
    UniformSource(air, w, 1, 0, CELLS);
    UniformSource(air, w, 2, 0, CELLS);
  }

  // Per axis, the planes of the faces, with the sign of the way they look, sum up to the blocks.

  function Coordinate(axis: nat, p: Vec): int {
    if axis == 0 then p.x else if axis == 1 then p.y else p.z
  }

  // Where the face's plane crosses the axis, in half blocks.
  function PlaneOf(q: Quad): int
    requires q.face < 6
  {
    Coordinate(q.face / 2, Add(Scale(2, PositionOf(q.cell)), Face(q.face)))
  }

  function SignedPlanes(qs: seq<Quad>, axis: nat): int
    requires Legal(qs)
  {
    if qs == [] then 0
    else
      var last := qs[|qs| - 1];
      assert last in qs;
      SignedPlanes(qs[..|qs| - 1], axis)
      + if last.face / 2 != axis then 0 else if last.face % 2 == 0 then PlaneOf(last) else -PlaneOf(last)
  }

  function PlaneAlong(axis: nat): Flow {
    (a, p) => if a == axis then 2 * Coordinate(axis, p) + 1 else 0
  }

  lemma OutflowIsPlane(q: Quad, axis: nat)
    requires q.face < 6 && axis < 3
    ensures Outflow(PlaneAlong(axis), q) ==
            if q.face / 2 != axis then 0 else if q.face % 2 == 0 then PlaneOf(q) else -PlaneOf(q)
  {
    hide PositionOf;
  }

  lemma {:induction false} PlanesAreFlow(qs: seq<Quad>, axis: nat)
    requires Legal(qs) && axis < 3
    ensures TotalOutflow(PlaneAlong(axis), qs) == SignedPlanes(qs, axis)
    decreases |qs|
  {
    hide Outflow, PlaneOf, PlaneAlong;
    if qs != [] {
      var last := qs[|qs| - 1];
      assert last in qs;
      OutflowIsPlane(last, axis);
      PlanesAreFlow(qs[..|qs| - 1], axis);
    }
  }

  lemma UnitSource(axis: nat, a: nat, p: Vec)
    requires axis < 3 && a < 3
    ensures Source(PlaneAlong(axis), a, p) == if a == axis then 2 else 0
  {
  }

  lemma PlanesSumToBlocks(air: Grid, axis: nat)
    requires axis < 3
    ensures Legal(Quads(air, CELLS))
    ensures SignedPlanes(Quads(air, CELLS), axis) == 2 * SolidCells(air, CELLS)
  {
    hide Quads, TotalOutflow, SourceOf, SolidCells, SignedPlanes, PlaneAlong, Source;
    var w := PlaneAlong(axis);
    DivergenceTheorem(air, w);
    PlanesAreFlow(Quads(air, CELLS), axis);
    forall a: nat, p | a < 3 ensures Source(w, a, p) == if a == axis then 2 else 0 {
      UnitSource(axis, a, p);
    }
    UniformSource(air, w, 0, if axis == 0 then 2 else 0, CELLS);
    UniformSource(air, w, 1, if axis == 1 then 2 else 0, CELLS);
    UniformSource(air, w, 2, if axis == 2 then 2 else 0, CELLS);
  }

  // ---- The volume of the triangle mesh --------------------------------------------------------------

  // Six times the signed volume between the origin and a triangle.
  function TriangleVolume(a: Vec, b: Vec, c: Vec): int {
    Dot(a, Turn(a, b, c))
  }

  // An index buffer: triangles over n vertices.
  predicate Indexes(indices: seq<nat>, n: nat) {
    |indices| % 3 == 0 && forall i :: 0 <= i < |indices| ==> indices[i] < n
  }

  // Six times the volume enclosed by the triangles of an index buffer.
  function SixVolume(vertices: seq<Vertex>, indices: seq<nat>): int
    requires Indexes(indices, |vertices|)
  {
    if indices == [] then 0
    else
      var n := |indices| - 3;
      SixVolume(vertices, indices[..n])
      + TriangleVolume(vertices[indices[n]].position, vertices[indices[n + 1]].position,
                       vertices[indices[n + 2]].position)
  }

  // Across a plane through the middle of a block boundary flows eight times its coordinate, in
  // half blocks: what the two triangles of a face there contribute.
  function PlaneFlow(axis: nat, p: Vec): int {
    8 * (2 * Coordinate(axis, p) + 1)
  }

  function QuadVolume(q: Quad): int
    requires q.face < 6
  {
    var vs := QuadVertices(q);
    TriangleVolume(vs[0].position, vs[1].position, vs[3].position)
    + TriangleVolume(vs[1].position, vs[2].position, vs[3].position)
  }

  lemma QuadVolumeIsFlow(q: Quad)
    requires q.face < 6
    ensures QuadVolume(q) == Outflow(PlaneFlow, q)
  {
    hide Turn, Corner, PositionOf, TextureCorner;
    var p, f := PositionOf(q.cell), q.face;
    TrianglesFaceOutward(p, f);
    CornerTable(f, 0);
    CornerTable(f, 1);
  }

  lemma {:induction false} SixVolumePrefix(vertices: seq<Vertex>, more: seq<Vertex>, indices: seq<nat>)
    requires Indexes(indices, |vertices|)
    ensures SixVolume(vertices + more, indices) == SixVolume(vertices, indices)
    decreases |indices|
  {
    hide TriangleVolume;
    if indices != [] {
      SixVolumePrefix(vertices, more, indices[..|indices| - 3]);
    }
  }

  lemma OneMoreTriangle(vertices: seq<Vertex>, indices: seq<nat>, a: nat, b: nat, c: nat)
    requires Indexes(indices, |vertices|) && a < |vertices| && b < |vertices| && c < |vertices|
    ensures Indexes(indices + [a, b, c], |vertices|)
    ensures SixVolume(vertices, indices + [a, b, c])
         == SixVolume(vertices, indices)
            + TriangleVolume(vertices[a].position, vertices[b].position, vertices[c].position)
  {
    hide TriangleVolume;
    assert (indices + [a, b, c])[..|indices|] == indices;
  }

  lemma IndexesMore(indices: seq<nat>, n: nat, m: nat)
    requires Indexes(indices, n) && n <= m
    ensures Indexes(indices, m)
  {
  }

  lemma SixVolumeOfFace(vertices: seq<Vertex>, indices: seq<nat>, face: seq<Vertex>)
    requires Indexes(indices, |vertices|) && |face| == 4
    ensures Indexes(indices + FaceIndices(|vertices|), |vertices + face|)
    ensures SixVolume(vertices + face, indices + FaceIndices(|vertices|))
         == SixVolume(vertices, indices)
            + TriangleVolume(face[0].position, face[1].position, face[3].position)
            + TriangleVolume(face[1].position, face[2].position, face[3].position)
  {
    hide TriangleVolume, SixVolume, Indexes;
    var o, all := |vertices|, vertices + face;
    IndexesMore(indices, o, o + 4);
    SixVolumePrefix(vertices, face, indices);
    OneMoreTriangle(all, indices, o, o + 1, o + 3);
    OneMoreTriangle(all, indices + [o, o + 1, o + 3], o + 1, o + 2, o + 3);
    assert indices + [o, o + 1, o + 3] + [o + 1, o + 2, o + 3] == indices + FaceIndices(o);
  }

  // The volume enclosed by the faces of a list, as they are drawn.
  function SixVolumeOf(qs: seq<Quad>): int
    requires Legal(qs)
  {
    SixVolume(VerticesOf(qs), IndicesOf(|qs|))
  }

  lemma {:induction false} SixVolumeIsFlow(qs: seq<Quad>)
    requires Legal(qs)
    ensures SixVolumeOf(qs) == TotalOutflow(PlaneFlow, qs)
    decreases |qs|
  {
    hide TriangleVolume, Outflow, SixVolume, QuadVertices, FaceIndices;
    if qs == [] {
      NoTriangles();
    } else {
      var n := |qs| - 1;
      assert qs[n] in qs;
      SixVolumeIsFlow(qs[..n]);
      SixVolumeOfFace(VerticesOf(qs[..n]), IndicesOf(n), QuadVertices(qs[n]));
      QuadVolumeIsFlow(qs[n]);
    }
  }

  lemma NoTriangles()
    ensures SixVolume([], []) == 0
  {
  }

  // For every chunk, the triangles emitted for it enclose exactly the volume of its solid
  // blocks: in half blocks, a block has volume 8, and six times that is 48.
  lemma EnclosedVolumeIsBlockCount(air: Grid)
    ensures Legal(Quads(air, CELLS))
    ensures SixVolumeOf(Quads(air, CELLS)) == 48 * SolidCells(air, CELLS)
  {
    hide Quads, TotalOutflow, SixVolumeOf, SourceOf, SolidCells;
    DivergenceTheorem(air, PlaneFlow);
    SixVolumeIsFlow(Quads(air, CELLS));
    UniformSource(air, PlaneFlow, 0, 16, CELLS);
    UniformSource(air, PlaneFlow, 1, 16, CELLS);
    UniformSource(air, PlaneFlow, 2, 16, CELLS);
  }
}
