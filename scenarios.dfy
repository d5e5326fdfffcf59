/**
 * The scenarios of the repository's tests (hedge/tests/ and tests/),
 * stated over the model: the point arena after emplaces and removes, the
 * triangle built from kernel calls alone, the quad built with the mesh
 * builder, and the loop builder given bad input.
 */
module Scenarios {
  import opened Handles
  import opened Elements
  import opened Options
  import opened Arena
  import opened Topology
  import opened Proxies
  import opened Builders
  import opened Triangles
  import opened KernelImpl
  import opened MeshImpl

  /** A handle as the arenas hand it out on first use of a slot. */
  function P(o: nat): PointIndex
    requires o < U32_MOD
  {
    Index(o, 1)
  }

  // ---------------------------------------------------------------------------
  // Adding and removing points

  /** A new point record at (x, y, z). */
  function Pt(x: real, y: real, z: real): Element<Point> {
    NewPoint(Position(x, y, z))
  }

  /** The point arena after the four inserts of the test. */
  function FourPoints(): Store<Point, PointKind> {
    Store([NewElement(EmptyPoint), Pt(0.0, 0.0, 0.0), Pt(1.0, 0.0, 0.0), Pt(0.0, 1.0, 0.0), Pt(0.0, 0.0, 1.0)], [])
  }

  /** Four points emplaced on a new arena get offsets 1 to 4, and the mesh counts four. */
  lemma FourPointsInserted()
    ensures var s0: Store<Point, PointKind> := Fresh(EmptyPoint);
            var (s1, i0) := s0.Emplaced(Pt(0.0, 0.0, 0.0));
            var (s2, i1) := s1.Emplaced(Pt(1.0, 0.0, 0.0));
            var (s3, i2) := s2.Emplaced(Pt(0.0, 1.0, 0.0));
            var (s4, i3) := s3.Emplaced(Pt(0.0, 0.0, 1.0));
            && s4 == FourPoints()
            && i0.offset == 1 && i1.offset == 2 && i2.offset == 3 && i3.offset == 4
            && MeshCount(s4) == 4
  {
    MeshCountIsLiveLessOne(FourPoints());
  }

  /**
   * The second point resolves at generation 1 with its position; once
   * removed, the mesh counts three points, its slot is at generation 2,
   * and its handle no longer resolves.
   */
  lemma SecondPointRemoved()
    ensures var s := FourPoints();
            && s.Get(P(2)) == Some(Pt(1.0, 0.0, 0.0))
            && s.Get(P(2)).value.generation == 1
            && var r := s.Removed(P(2));
               && MeshCount(r) == 3
               && r.cells[2].generation == 2
               && r.Get(P(2)) == None
  {
    var r := FourPoints().Removed(P(2));
    assert r.Live() == 4;
    MeshCountIsLiveLessOne(r);
  }

  /** The point arena once the second and third points are removed. */
  function TwoFreed(): Store<Point, PointKind> {
    Store([NewElement(EmptyPoint), Pt(0.0, 0.0, 0.0), Pt(1.0, 0.0, 0.0).(status := Inactive, generation := 2),
           Pt(0.0, 1.0, 0.0).(status := Inactive, generation := 2), Pt(0.0, 0.0, 1.0)],
          [Index(2, 2), Index(3, 2)])
  }

  /**
   * Removing the second and third points leaves both slots inactive at
   * generation 2 and queued as free cells, and the mesh counts two points.
   */
  lemma SecondAndThirdRemoved()
    ensures FourPoints().Removed(P(2)).Removed(P(3)) == TwoFreed()
    ensures MeshCount(TwoFreed()) == 2
  {
    var r1 := FourPoints().Removed(P(2));
    assert r1.free == [Index(2, 2)];
    MeshCountIsLiveLessOne(TwoFreed());
  }

  /**
   * The next insert reuses offset 2 and the one after it offset 3, each
   * at generation 2, and the mesh counts go back up to three and four.
   */
  lemma FreedCellsReused()
    ensures var (s5, j2) := TwoFreed().Emplaced(Pt(1.0, 1.0, 1.0));
            && MeshCount(s5) == 3 && j2 == Index(2, 2)
            && var (s6, j1) := s5.Emplaced(Pt(0.0, 1.0, 1.0));
               && MeshCount(s6) == 4 && j1 == Index(3, 2)
               && s6.Get(j1) == Some(Pt(0.0, 1.0, 1.0).(generation := 2))
  {
    var r := TwoFreed();
    assert ArgMin(r.free) == 0;
    var (s5, j2) := r.Emplaced(Pt(1.0, 1.0, 1.0));
    assert j2 == Index(2, 2) && s5.free == [Index(3, 2)] && s5.Live() == 4;
    MeshCountIsLiveLessOne(s5);
    var (s6, j1) := s5.Emplaced(Pt(0.0, 1.0, 1.0));
    assert j1 == Index(3, 2) && s6.Live() == 5;
    MeshCountIsLiveLessOne(s6);
  }

  // ---------------------------------------------------------------------------
  // A triangle from kernel calls alone

  /** A fresh kernel with the three points of the kernel-level triangle test. */
  function ThreePointKernel(): (ks: KernelState)
    ensures Clean(ks) && Usable(ks, P(1)) && Usable(ks, P(2)) && Usable(ks, P(3))
  {
    FreshKernel().(points := Store([NewElement(EmptyPoint), NewPoint(Position(0.0, 0.0, 0.0)),
                                    NewPoint(Position(1.0, 0.0, 0.0)), NewPoint(Position(0.0, 1.0, 0.0))], []))
  }

  /**
   * Three edge pairs connected through `a`, `b` and `c`, then `make_face`
   * from the first edge, on arenas holding only their dummies besides
   * the points: four vertices and seven edges counting the dummies, each
   * point with the one vertex made at it, a face holding the three edges,
   * and every edge wired to its predecessor, successor, vertex and face
   * as the kernel test checks.
   */
  lemma KernelTriangleOnNewArenas(ks: KernelState, a: PointIndex, b: PointIndex, c: PointIndex)
    requires Clean(ks) && Usable(ks, a) && Usable(ks, b) && Usable(ks, c)
    requires |ks.edges.cells| == 1 && |ks.vertices.cells| == 1 && |ks.faces.cells| == 1
    requires a.offset != b.offset && b.offset != c.offset && c.offset != a.offset
    requires ks.points.cells[a.offset].body.vertices == {} && ks.points.cells[b.offset].body.vertices == {}
    requires ks.points.cells[c.offset].body.vertices == {}
    ensures var k6 := TriangleState(ks, a, b, c, Invalid());
            var e0 := H(1);
            var e1 := H(3);
            var e2 := H(5);
            var f := Index(1, 1);
            && MakeFaceDefined(k6, e0)
            && var (G, f0) := MakeFace(k6, e0);
               && f0 == f && f0.Truthy()
               && G.vertices.Count() == 4 && G.faces.Count() == 2 && G.edges.Count() == 7
               && G.points.cells[a.offset].body.vertices == {V(1)}
               && G.points.cells[b.offset].body.vertices == {V(2)}
               && G.points.cells[c.offset].body.vertices == {V(3)}
               && G.faces.Get(f0).Some? && G.faces.cells[1].body.edges == {e0, e1, e2}
               && G.edges.Resolves(e0) && G.edges.Resolves(e1) && G.edges.Resolves(e2)
               && G.edges.cells[1].body == Edge(V(3), f, e1, e2, H(2))
               && G.edges.cells[3].body == Edge(V(1), f, e2, e0, H(4))
               && G.edges.cells[5].body == Edge(V(2), f, e0, e1, H(6))
  {
    TriangleFace(ks, a, b, c);
    var G := TriangleMesh(ks, a, b, c);
    var T := TriangleEdges(1, 1, Index(1, 1));
    assert G.edges.cells == ks.edges.cells + T;
    assert G.edges.cells[1] == T[0] && G.edges.cells[3] == T[2] && G.edges.cells[5] == T[4];
    assert G.vertices.Live() == 4 && G.faces.Live() == 2 && G.edges.Live() == 7;
    var A1 := Attach(ks.points, a, V(1));
    var A2 := Attach(A1, b, V(2));
    assert G.points == Attach(A2, c, V(3));
    assert A1.cells[a.offset].body.vertices == {V(1)} && A1.cells[b.offset] == ks.points.cells[b.offset]
        && A1.cells[c.offset] == ks.points.cells[c.offset];
    assert A2.cells[b.offset].body.vertices == {V(2)} && A2.cells[a.offset] == A1.cells[a.offset]
        && A2.cells[c.offset] == A1.cells[c.offset];
    assert G.points.cells[c.offset].body.vertices == {V(3)} && G.points.cells[a.offset] == A2.cells[a.offset]
        && G.points.cells[b.offset] == A2.cells[b.offset];
    assert G.faces.cells[1].body.edges == {H(1), H(3), H(5)};
  }

  /** The kernel test's triangle: connected through its second, third and first point. */
  lemma KernelTriangleScenario()
    ensures var ks := ThreePointKernel();
            var k6 := TriangleState(ks, P(2), P(3), P(1), Invalid());
            && MakeFaceDefined(k6, H(1))
            && var (G, f0) := MakeFace(k6, H(1));
               && f0 == Index(1, 1)
               && G.vertices.Count() == 4 && G.faces.Count() == 2 && G.edges.Count() == 7
               && G.points.cells[2].body.vertices == {V(1)}
               && G.points.cells[3].body.vertices == {V(2)}
               && G.points.cells[1].body.vertices == {V(3)}
               && G.faces.cells[1].body.edges == {H(1), H(3), H(5)}
  {
    KernelTriangleOnNewArenas(ThreePointKernel(), P(2), P(3), P(1));
  }

  /**
   * The hand-built triangle is the one `KernelTriangleScenario` describes:
   * the kernel calls of the test, in its order, reach `TriangleState`.
   */
  lemma KernelTriangleCalls()
    ensures var ks := ThreePointKernel();
            var (k1, e0) := MakeEdgePair(ks);
            var (k2, e1) := MakeEdgePair(k1);
            var (k3, e2) := MakeEdgePair(k2);
            var (k4, v0) := ConnectEdges(k3, e0, P(2), e1);
            var (k5, v1) := ConnectEdges(k4, e1, P(3), e2);
            var (k6, v2) := ConnectEdges(k5, e2, P(1), e0);
            && (e0, e1, e2) == (H(1), H(3), H(5))
            && (v0, v1, v2) == (V(1), V(2), V(3))
            && k6 == TriangleState(ks, P(2), P(3), P(1), Invalid())
  {
    KernelTriangleAppends(ThreePointKernel(), P(2), P(3), P(1));
  }

  // ---------------------------------------------------------------------------
  // A quad from the mesh builder

  /** A fresh kernel with the four points the quad test inserts. */
  function QuadKernel(): (ks: KernelState)
    ensures Clean(ks) && Usable(ks, P(1)) && Usable(ks, P(2)) && Usable(ks, P(3)) && Usable(ks, P(4))
  {
    FreshKernel().(points := Store([NewElement(EmptyPoint), NewPoint(Position(0.0, 0.0, 0.0)), NewPoint(Position(2.0, 0.0, 0.0)),
                                    NewPoint(Position(0.0, 2.0, 0.0)), NewPoint(Position(2.0, 2.0, 0.0))], []))
  }

  /** The four inserts of the quad test give that kernel and the handles (1, 1) to (4, 1). */
  lemma QuadPointsInserted()
    ensures var ks := FreshKernel();
            var (s1, i0) := ks.points.Emplaced(NewPoint(Position(0.0, 0.0, 0.0)));
            var (s2, i1) := s1.Emplaced(NewPoint(Position(2.0, 0.0, 0.0)));
            var (s3, i2) := s2.Emplaced(NewPoint(Position(0.0, 2.0, 0.0)));
            var (s4, i3) := s3.Emplaced(NewPoint(Position(2.0, 2.0, 0.0)));
            && ks.(points := s4) == QuadKernel()
            && (i0, i1, i2, i3) == (P(1), P(2), P(3), P(4))
  {
  }

  /** A kernel whose edge, vertex and face arenas hold only their dummies. */
  predicate NewArenas(ks: KernelState) {
    && Clean(ks)
    && |ks.edges.cells| == 1 && |ks.vertices.cells| == 1 && |ks.faces.cells| == 1
    && 1 <= ks.points.Live() < SIZE_MOD
  }

  /**
   * `add_triangle(p0, p1, p2)` there: six edges, three vertices and one
   * face as the mesh counts them, and the points as they were.
   */
  lemma FirstTriangleCounts(ks: KernelState, p0: PointIndex, p1: PointIndex, p2: PointIndex)
    requires NewArenas(ks) && Usable(ks, p0) && Usable(ks, p1) && Usable(ks, p2)
    ensures var G := TriangleMesh(ks, p0, p1, p2);
            && MeshCount(G.edges) == 6 && MeshCount(G.vertices) == 3
            && MeshCount(G.faces) == 1 && MeshCount(G.points) == MeshCount(ks.points)
  {
    TriangleWiring(ks, p0, p1, p2);
    var G := TriangleMesh(ks, p0, p1, p2);
    assert G.edges.Live() == 7 && G.vertices.Live() == 4 && G.faces.Live() == 2;
    MeshCountIsLiveLessOne(G.edges);
    MeshCountIsLiveLessOne(G.vertices);
    MeshCountIsLiveLessOne(G.faces);
  }

  /**
   * The face it makes is at (1, 1); its root edge is at offset 1, the
   * successors at 3 and 5, the predecessor at 5, and all three are
   * boundary edges.
   */
  lemma FirstTriangleRoot(ks: KernelState, p0: PointIndex, p1: PointIndex, p2: PointIndex)
    requires NewArenas(ks) && Usable(ks, p0) && Usable(ks, p1) && Usable(ks, p2)
    ensures var G := TriangleMesh(ks, p0, p1, p2);
            var root := RootEdge(G, Fn(true, Index(1, 1)));
            && root.index.offset == 1
            && Next(G, root).index.offset == 3 && Next(G, Next(G, root)).index.offset == 5
            && Prev(G, root).index.offset == 5
            && OnBoundary(G, root) && OnBoundary(G, Next(G, root)) && OnBoundary(G, Prev(G, root))
  {
    TriangleWiring(ks, p0, p1, p2);
    var G := TriangleMesh(ks, p0, p1, p2);
    var e0, e1, e2 := Fn(true, H(1)), Fn(true, H(3)), Fn(true, H(5));
    assert Cycle(G, e0, e1, e2);
    assert RootEdge(G, Fn(true, Index(1, 1))) == e0;
  }

  /**
   * The quad test's kernel after its four inserts has new arenas and
   * four usable points, and its first `add_triangle` is the one the
   * lemmas above describe, making face (1, 1).
   */
  lemma QuadFirstTriangle()
    ensures var ks := QuadKernel();
            && NewArenas(ks) && MeshCount(ks.points) == 4
            && TriangleDefined(ks, P(1), P(2), P(3))
            && AddTriangle(ks, P(1), P(2), P(3)) == (TriangleMesh(ks, P(1), P(2), P(3)), Index(1, 1))
  {
    QuadKernelIsNew();
    AddTriangleAppends(QuadKernel(), P(1), P(2), P(3));
  }

  /** The quad test's kernel has new arenas and four points as the mesh counts them. */
  lemma QuadKernelIsNew()
    ensures NewArenas(QuadKernel()) && MeshCount(QuadKernel().points) == 4
  {
    var ks := QuadKernel();
    assert ks.points.Live() == 5;
    MeshCountIsLiveLessOne(ks.points);
  }

  /**
   * After that first triangle, the successor of its root edge is at
   * offset 3, runs from `p0` to `p1`, and is ready for
   * `add_triangle(eindex, p)` with any other usable `p`.
   */
  lemma SecondTriangleReady(ks: KernelState, p0: PointIndex, p1: PointIndex, p2: PointIndex, p: PointIndex)
    requires NewArenas(ks) && Usable(ks, p0) && Usable(ks, p1) && Usable(ks, p2) && Usable(ks, p) && p != p0
    ensures var G1 := TriangleMesh(ks, p0, p1, p2);
            && Next(G1, RootEdge(G1, Fn(true, Index(1, 1)))).index == H(3)
            && EdgePoints(G1, Fn(true, H(3))) == (Fn(true, p0), Fn(true, p1))
            && TwinOf(G1, H(3)) == H(4)
            && FromEdgeReady(G1, H(3), p)
  {
    TriangleWiring(ks, p0, p1, p2);
    var G1 := TriangleMesh(ks, p0, p1, p2);
    var T := TriangleEdges(1, 1, Index(1, 1));
    assert G1.edges.cells == ks.edges.cells + T;
    assert G1.edges.cells[3] == T[2] && G1.edges.cells[4] == T[3];
    assert |G1.points.cells| == |ks.points.cells|;
    assert forall q :: Usable(ks, q) ==> Usable(G1, q);
  }

  /**
   * The second triangle on that edge: ten edges, six vertices and two
   * faces as the mesh counts them, and the points as they were.
   */
  lemma SecondTriangleCounts(ks: KernelState, p0: PointIndex, p1: PointIndex, p2: PointIndex, p: PointIndex)
    requires NewArenas(ks) && Usable(ks, p0) && Usable(ks, p1) && Usable(ks, p2) && Usable(ks, p) && p != p0
    ensures var G1 := TriangleMesh(ks, p0, p1, p2);
            && FromEdgeReady(G1, H(3), p)
            && var G := FromEdgeMesh(G1, H(3), p);
               && MeshCount(G.edges) == 10 && MeshCount(G.vertices) == 6
               && MeshCount(G.faces) == 2 && MeshCount(G.points) == MeshCount(ks.points)
  {
    SecondTriangleReady(ks, p0, p1, p2, p);
    TriangleWiring(ks, p0, p1, p2);
    var G1 := TriangleMesh(ks, p0, p1, p2);
    FromEdgeWiring(G1, H(3), p);
    var G := FromEdgeMesh(G1, H(3), p);
    assert G.edges.Live() == 11 && G.vertices.Live() == 7 && G.faces.Live() == 3;
    MeshCountIsLiveLessOne(G.edges);
    MeshCountIsLiveLessOne(G.vertices);
    MeshCountIsLiveLessOne(G.faces);
  }

  /**
   * The face it makes is at (2, 1); its root is the twin at offset 4, off
   * the boundary, with successors at 7 and 9 and its predecessor at 9,
   * both boundary edges.
   */
  lemma SecondTriangleRoot(ks: KernelState, p0: PointIndex, p1: PointIndex, p2: PointIndex, p: PointIndex)
    requires NewArenas(ks) && Usable(ks, p0) && Usable(ks, p1) && Usable(ks, p2) && Usable(ks, p) && p != p0
    ensures var G1 := TriangleMesh(ks, p0, p1, p2);
            && FromEdgeReady(G1, H(3), p)
            && var G := FromEdgeMesh(G1, H(3), p);
               && var root := RootEdge(G, Fn(true, Index(2, 1)));
                  && root.index.offset == 4
                  && TwinResolves(G, root) && !IsBoundary(G, root)
                  && Next(G, root).index.offset == 7 && Next(G, Next(G, root)).index.offset == 9
                  && Prev(G, root).index.offset == 9
                  && OnBoundary(G, Next(G, root)) && OnBoundary(G, Prev(G, root))
  {
    SecondTriangleReady(ks, p0, p1, p2, p);
    TriangleWiring(ks, p0, p1, p2);
    var G1 := TriangleMesh(ks, p0, p1, p2);
    FromEdgeWiring(G1, H(3), p);
    var G := FromEdgeMesh(G1, H(3), p);
    var a0, a1, a2 := Fn(true, H(4)), Fn(true, H(7)), Fn(true, H(9));
    assert Cycle(G, a0, a1, a2);
    assert RootEdge(G, Fn(true, Index(2, 1))) == a0;
    assert TwinResolves(G, a0) && !IsBoundary(G, a0);
  }

  /**
   * The quad test's second `add_triangle`, on edge 3 and the fourth
   * point, is the one the lemmas above describe, making face (2, 1).
   */
  lemma QuadSecondTriangle()
    ensures var G1 := TriangleMesh(QuadKernel(), P(1), P(2), P(3));
            && FromEdgeReady(G1, H(3), P(4))
            && FromEdgeDefined(G1, H(3), P(4))
            && AddTriangleFromEdge(G1, H(3), P(4)) == (FromEdgeMesh(G1, H(3), P(4)), Index(2, 1))
  {
    var ks := QuadKernel();
    QuadFirstTriangle();
    SecondTriangleReady(ks, P(1), P(2), P(3), P(4));
    AddTriangleFromEdgeAppends(TriangleMesh(ks, P(1), P(2), P(3)), H(3), P(4));
  }

  /** The four inserts of the quad test on a new mesh's kernel. */
  method InsertQuadPoints(mesh: Mesh) returns (p0: PointIndex, p1: PointIndex, p2: PointIndex, p3: PointIndex)
    requires mesh.State() == FreshKernel()
    modifies mesh.kernel.points
    ensures mesh.State() == QuadKernel() && (p0, p1, p2, p3) == (P(1), P(2), P(3), P(4))
  {
    QuadPointsInserted();
    p0 := mesh.kernel.EmplacePoint(NewPoint(Position(0.0, 0.0, 0.0)));
    p1 := mesh.kernel.EmplacePoint(NewPoint(Position(2.0, 0.0, 0.0)));
    p2 := mesh.kernel.EmplacePoint(NewPoint(Position(0.0, 2.0, 0.0)));
    p3 := mesh.kernel.EmplacePoint(NewPoint(Position(2.0, 2.0, 0.0)));
  }

  /**
   * The quad test on the mesh objects: a new mesh and builder, four
   * inserted points, `add_triangle(p0, p1, p2)`, then `add_triangle` on
   * the successor of the first face's root edge and the fourth point.
   */
  method BuildQuad() returns (mesh: Mesh, f0: FaceIndex, f1: FaceIndex)
    ensures f0 == Index(1, 1) && f1 == Index(2, 1)
    ensures mesh.EdgeCount() == 10 && mesh.VertexCount() == 6 && mesh.FaceCount() == 2 && mesh.PointCount() == 4
    ensures var G := mesh.State();
            var root := RootEdge(G, mesh.Face(f1));
            && root.index.offset == 4
            && TwinResolves(G, root) && !IsBoundary(G, root)
            && Next(G, root).index.offset == 7 && Next(G, Next(G, root)).index.offset == 9
            && Prev(G, root).index.offset == 9
            && OnBoundary(G, Next(G, root)) && OnBoundary(G, Prev(G, root))
  {
    mesh := new Mesh();
    var builder := new MeshBuilder(mesh);
    var p0, p1, p2, p3 := InsertQuadPoints(mesh);
    ghost var ks := QuadKernel();
    QuadFirstTriangle();
    f0 := builder.AddTriangle(p0, p1, p2);
    ghost var G1 := TriangleMesh(ks, P(1), P(2), P(3));
    assert mesh.State() == G1 && f0 == Index(1, 1);
    SecondTriangleReady(ks, P(1), P(2), P(3), P(4));
    QuadSecondTriangle();
    var e := Next(mesh.State(), RootEdge(mesh.State(), mesh.Face(f0))).index;
    assert e == H(3);
    f1 := builder.AddTriangleFromEdge(e, p3);
    assert mesh.State() == FromEdgeMesh(G1, H(3), P(4)) && f1 == Index(2, 1);
    SecondTriangleCounts(ks, P(1), P(2), P(3), P(4));
    SecondTriangleRoot(ks, P(1), P(2), P(3), P(4));
  }

  // ---------------------------------------------------------------------------
  // The loop builder given bad input

  /**
   * `start_edge_loop(point_index_t(0)).add_point(point_index_t(1))
   * .add_point(point_index_t(2)).close()` on a new mesh: nothing is
   * added and the edge returned is falsy.
   */
  method LoopFromBadInput() returns (mesh: Mesh, e: EdgeIndex)
    ensures mesh.EdgeCount() == 0 && mesh.VertexCount() == 0 && mesh.FaceCount() == 0 && mesh.PointCount() == 0
    ensures !e.Truthy()
  {
    mesh := new Mesh();
    var builder := new MeshBuilder(mesh);
    var b := builder.StartEdgeLoop(FromOffset(0));
    InvalidStartBuildsNothing(mesh.State(), FromOffset(0), FromOffset(1), FromOffset(2));
    b.AddPoint(FromOffset(1));
    b.AddPoint(FromOffset(2));
    e := b.Close();
    FreshMeshIsEmpty();
  }
}
