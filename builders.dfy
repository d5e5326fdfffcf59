/**
 * `edge_loop_builder_t`, `mesh_builder_t` and the `mesh_t` counts of
 * hedge/hedge.cpp over the value of the kernel. The builder is a state
 * machine over four handles; each step returns the new kernel value with
 * the new builder value. The objects that run these steps in place are in
 * `MeshImpl`.
 */
module Builders {
  import opened Handles
  import opened Elements
  import opened Options
  import opened Arena
  import opened Topology
  import opened Proxies

  /** The four handle fields of `edge_loop_builder_t`. */
  datatype Loop = Loop(rootE: EdgeIndex, lastE: EdgeIndex, rootP: PointIndex, lastP: PointIndex)

  /** A builder whose constructor refused its input: every field is the default (0, 0). */
  const Unstarted: Loop := Loop(Invalid(), Invalid(), Invalid(), Invalid())

  /** Room for one `make_edge_pair`. */
  predicate PairReady(ks: KernelState) {
    ks.Valid() && ks.edges.HasRoom(2) && FreeDistinct(ks.edges.free)
  }

  /**
   * Room for the allocations of a whole triangle: three edge pairs and
   * three vertices.
   */
  predicate Ready(ks: KernelState) {
    ks.Valid() && ks.edges.HasRoom(6) && ks.vertices.HasRoom(3) && FreeDistinct(ks.edges.free)
  }

  /**
   * `edge_loop_builder_t(mesh, pindex)`: a falsy point leaves the builder
   * unstarted; otherwise a new edge pair is made and its first edge is
   * both the root and the last edge, the point both the root and the last
   * point.
   */
  function StartAtPoint(ks: KernelState, p: PointIndex): (r: (KernelState, Loop))
    requires ks.Valid() && (p.Truthy() ==> PairReady(ks))
    ensures r.0.Valid() && r.0.faces == ks.faces && r.0.vertices == ks.vertices && r.0.points == ks.points
    ensures !p.Truthy() ==> r == (ks, Unstarted)
    ensures p.Truthy() ==>
              && r.0.edges.Room() == ks.edges.Room() - 2 && FreeDistinct(r.0.edges.free)
              && r.1.rootE == r.1.lastE && r.1.rootP == r.1.lastP == p
              && r.0.edges.Get(r.1.rootE).Some?
  {
    if !p.Truthy() then (ks, Unstarted)
    else
      var (k, e) := MakeEdgePair(ks);
      MakeEdgePairTwins(ks);
      (k, Loop(e, e, p, p))
  }

  /**
   * `edge_loop_builder_t(mesh, root_eindex)`: starts from an existing edge
   * that has no face, whose twin is live and has two valid points. The
   * twin's points become the root point and the last point; the edge
   * itself becomes the root and the last edge. Any failed check leaves the
   * builder unstarted. Nothing in the kernel changes.
   */
  function StartAtEdge(ks: KernelState, e: EdgeIndex): (r: Loop)
    ensures r != Unstarted ==> r.rootE == r.lastE == e && r.rootP.Truthy() && r.lastP.Truthy()
  {
    if !e.Truthy() then Unstarted
    else
      var edge := Fn(true, e);
      if Truthy(ks.faces, EdgeFace(ks, edge)) then Unstarted
      else
        var twin := Adjacent(ks, edge);
        if !Truthy(ks.edges, twin) then Unstarted
        else
          var (q0, q1) := EdgePoints(ks, twin);
          if !q0.index.Truthy() || !q1.index.Truthy() then Unstarted
          else Loop(e, e, q0.index, q1.index)
  }

  /** What `add_point` needs: room for an edge pair and a vertex once the builder is started. */
  predicate CanAddPoint(ks: KernelState, b: Loop) {
    ks.Valid() && (b.lastP.Truthy() ==> PairReady(ks) && ks.vertices.HasRoom(1))
  }

  /**
   * `add_point(next)`: a no-op on a builder whose last point is falsy.
   * Otherwise a new edge pair is made, the last edge is connected to its
   * first edge through the last point, and that edge and `next` become
   * the last edge and the last point.
   */
  function AddPoint(ks: KernelState, b: Loop, p: PointIndex): (r: (KernelState, Loop))
    requires CanAddPoint(ks, b)
    ensures r.0.Valid() && r.0.faces == ks.faces
    ensures !b.lastP.Truthy() ==> r == (ks, b)
    ensures b.lastP.Truthy() ==>
              && FreeDistinct(r.0.edges.free)
              && r.0.edges.Room() == ks.edges.Room() - 2
              && r.0.vertices.Room() >= ks.vertices.Room() - 1
              && r.1 == b.(lastE := r.1.lastE, lastP := p)
  {
    if !b.lastP.Truthy() then (ks, b)
    else
      var (k1, cur) := MakeEdgePair(ks);
      var (k2, _) := ConnectEdges(k1, b.lastE, b.lastP, cur);
      SameShapeResolves(k2.edges, k1.edges);
      (k2, b.(lastE := cur, lastP := p))
  }

  /** What `close` needs: room for a vertex when it connects. */
  predicate CanClose(ks: KernelState, b: Loop) {
    ks.Valid() && (b.lastP.Truthy() && b.lastP != b.rootP ==> ks.vertices.HasRoom(1))
  }

  /**
   * `close()`: a no-op on an unstarted builder, and on one whose last point
   * is its root point. Otherwise the last edge is connected to the root
   * edge through the last point and the last point is reset. The root edge
   * is returned in every case.
   */
  function Close(ks: KernelState, b: Loop): (r: (KernelState, Loop, EdgeIndex))
    requires CanClose(ks, b)
    ensures r.0.Valid() && r.0.faces == ks.faces
    ensures r.2 == b.rootE
    ensures SameShape(r.0.edges, ks.edges)
    ensures !b.lastP.Truthy() || b.lastP == b.rootP ==> r.0 == ks && r.1 == b
    ensures b.lastP.Truthy() && b.lastP != b.rootP ==> r.1 == b.(lastP := Invalid())
  {
    if !b.lastP.Truthy() then (ks, b, b.rootE)
    else if b.lastP == b.rootP then (ks, b, b.rootE)
    else
      var (k, _) := ConnectEdges(ks, b.lastE, b.lastP, b.rootE);
      (k, b.(lastP := b.lastP.Reset()), b.rootE)
  }

  /**
   * `start_edge_loop(p0).add_point(p1).add_point(p2).close()`: the kernel
   * afterwards and the root edge `close` returns.
   */
  function TriangleLoop(ks: KernelState, p0: PointIndex, p1: PointIndex, p2: PointIndex): (r: (KernelState, EdgeIndex))
    requires Ready(ks)
    ensures r.0.Valid() && r.0.faces == ks.faces
  {
    var (k0, b0) := StartAtPoint(ks, p0);
    var (k1, b1) := AddPoint(k0, b0, p1);
    var (k2, b2) := AddPoint(k1, b1, p2);
    var (k3, _, root) := Close(k2, b2);
    (k3, root)
  }

  /** The room `Ready` provides lasts through every step of the triangle loop. */
  lemma TriangleLoopSteps(ks: KernelState, p0: PointIndex, p1: PointIndex, p2: PointIndex)
    requires Ready(ks)
    ensures var (k0, b0) := StartAtPoint(ks, p0);
            && CanAddPoint(k0, b0)
            && var (k1, b1) := AddPoint(k0, b0, p1);
               && CanAddPoint(k1, b1)
               && var (k2, b2) := AddPoint(k1, b1, p2);
                  && CanClose(k2, b2)
                  && (Close(k2, b2).0, Close(k2, b2).2) == TriangleLoop(ks, p0, p1, p2)
  {
  }

  /** `add_triangle(pindex0, pindex1, pindex2)` is defined: there is room, and `make_face` on the loop stops. */
  ghost predicate TriangleDefined(ks: KernelState, p0: PointIndex, p1: PointIndex, p2: PointIndex) {
    && Ready(ks) && ks.faces.HasRoom(1)
    && var (k, root) := TriangleLoop(ks, p0, p1, p2);
       MakeFaceDefined(k, root)
  }

  /** `add_triangle(pindex0, pindex1, pindex2)`: build the loop, then make its face. */
  ghost function AddTriangle(ks: KernelState, p0: PointIndex, p1: PointIndex, p2: PointIndex): (KernelState, FaceIndex)
    requires TriangleDefined(ks, p0, p1, p2)
  {
    var (k, root) := TriangleLoop(ks, p0, p1, p2);
    MakeFace(k, root)
  }

  /** The three points `add_triangle(point_t, point_t, point_t)` emplaces, and the kernel after it. */
  function EmplaceThree(ks: KernelState, x0: Element<Point>, x1: Element<Point>, x2: Element<Point>): (r: (KernelState, PointIndex, PointIndex, PointIndex))
    requires ks.Valid() && ks.points.HasRoom(3)
    ensures r.0 == ks.(points := r.0.points) && r.0.Valid()
    ensures r.0.points.Live() == ks.points.Live() + 3
  {
    var (s0, q0) := ks.points.Emplaced(x0);
    var (s1, q1) := s0.Emplaced(x1);
    var (s2, q2) := s1.Emplaced(x2);
    (ks.(points := s2), q0, q1, q2)
  }

  ghost predicate TriangleOfPointsDefined(ks: KernelState, x0: Element<Point>, x1: Element<Point>, x2: Element<Point>) {
    && ks.Valid() && ks.points.HasRoom(3)
    && var (k, q0, q1, q2) := EmplaceThree(ks, x0, x1, x2);
       TriangleDefined(k, q0, q1, q2)
  }

  /** `add_triangle(point_t p0, point_t p1, point_t p2)`: emplace the three points, then add the triangle over them. */
  ghost function AddTriangleOfPoints(ks: KernelState, x0: Element<Point>, x1: Element<Point>, x2: Element<Point>): (KernelState, FaceIndex)
    requires TriangleOfPointsDefined(ks, x0, x1, x2)
  {
    var (k, q0, q1, q2) := EmplaceThree(ks, x0, x1, x2);
    AddTriangle(k, q0, q1, q2)
  }

  /**
   * The loop `add_triangle(eindex, pindex)` builds: started from the twin
   * of `eindex`, through the point of `eindex`'s vertex and `pindex`, then
   * closed. Returns the kernel and the root edge `close` returned.
   */
  function FromEdgeLoop(ks: KernelState, e: EdgeIndex, p: PointIndex): (r: (KernelState, EdgeIndex))
    requires Ready(ks)
    ensures r.0.Valid() && r.0.faces == ks.faces
  {
    var edge := Fn(true, e);
    var b0 := StartAtEdge(ks, Adjacent(ks, edge).index);
    var (k1, b1) := AddPoint(ks, b0, VertexPoint(ks, EdgeVertex(ks, edge)).index);
    var (k2, b2) := AddPoint(k1, b1, p);
    var (k3, _, root) := Close(k2, b2);
    (k3, root)
  }

  /** The room `Ready` provides lasts through every step of the edge-started loop. */
  lemma FromEdgeLoopSteps(ks: KernelState, e: EdgeIndex, p: PointIndex)
    requires Ready(ks)
    ensures var edge := Fn(true, e);
            var b0 := StartAtEdge(ks, Adjacent(ks, edge).index);
            && CanAddPoint(ks, b0)
            && var (k1, b1) := AddPoint(ks, b0, VertexPoint(ks, EdgeVertex(ks, edge)).index);
               && CanAddPoint(k1, b1)
               && var (k2, b2) := AddPoint(k1, b1, p);
                  && CanClose(k2, b2)
                  && (Close(k2, b2).0, Close(k2, b2).2) == FromEdgeLoop(ks, e, p)
  {
  }

  ghost predicate FromEdgeDefined(ks: KernelState, e: EdgeIndex, p: PointIndex) {
    e.Truthy() ==>
      && Ready(ks) && ks.faces.HasRoom(1)
      && var (k, root) := FromEdgeLoop(ks, e, p);
         MakeFaceDefined(k, root)
  }

  /**
   * `add_triangle(eindex, pindex)`: a falsy edge returns the invalid face
   * and changes nothing; otherwise the loop is built and its face made.
   */
  ghost function AddTriangleFromEdge(ks: KernelState, e: EdgeIndex, p: PointIndex): (KernelState, FaceIndex)
    requires FromEdgeDefined(ks, e, p)
  {
    if !e.Truthy() then (ks, Invalid())
    else
      var (k, root) := FromEdgeLoop(ks, e, p);
      MakeFace(k, root)
  }

  ghost predicate FromEdgeAtDefined(ks: KernelState, e: EdgeIndex, x: Element<Point>) {
    e.Truthy() ==>
      && ks.Valid() && ks.points.HasRoom(1)
      && var (P, q) := ks.points.Emplaced(x);
         FromEdgeDefined(ks.(points := P), e, q)
  }

  /** `add_triangle(eindex, point_t p0)`: a falsy edge returns invalid before the point is emplaced. */
  ghost function AddTriangleFromEdgeAt(ks: KernelState, e: EdgeIndex, x: Element<Point>): (KernelState, FaceIndex)
    requires FromEdgeAtDefined(ks, e, x)
  {
    if !e.Truthy() then (ks, Invalid())
    else
      var (P, q) := ks.points.Emplaced(x);
      AddTriangleFromEdge(ks.(points := P), e, q)
  }

  /** `mesh_t::edge_count()` and its siblings: the arena count less the dummy record, as a `size_t`. */
  function MeshCount<T, K>(s: Store<T, K>): (n: nat)
    ensures n < SIZE_MOD
  {
    (s.Count() - 1) % SIZE_MOD
  }

  // ---------------------------------------------------------------------------
  // Properties

  /**
   * A builder whose last point is falsy (never started, or already closed)
   * is inert: `add_point` and `close` change neither the kernel nor the
   * builder, and `close` returns the root edge it holds.
   */
  lemma InertBuilder(ks: KernelState, b: Loop, p: PointIndex)
    requires ks.Valid() && !b.lastP.Truthy()
    ensures AddPoint(ks, b, p) == (ks, b)
    ensures Close(ks, b) == (ks, b, b.rootE)
  {
  }

  /**
   * Started from a falsy point, the builder allocates nothing, and the
   * chain `add_point(p1).add_point(p2).close()` leaves the kernel as it was
   * and returns the invalid edge.
   */
  lemma InvalidStartBuildsNothing(ks: KernelState, p0: PointIndex, p1: PointIndex, p2: PointIndex)
    requires ks.Valid() && !p0.Truthy()
    ensures StartAtPoint(ks, p0) == (ks, Unstarted)
    ensures var (k1, b1) := AddPoint(ks, Unstarted, p1);
            var (k2, b2) := AddPoint(k1, b1, p2);
            Close(k2, b2) == (ks, Unstarted, Invalid())
  {
    InertBuilder(ks, Unstarted, p1);
    InertBuilder(ks, Unstarted, p2);
  }

  /** `close` when the last point is the root point performs no mutation and returns the root edge. */
  lemma CloseAtRootPoint(ks: KernelState, b: Loop)
    requires ks.Valid() && b.lastP.Truthy() && b.lastP == b.rootP
    ensures Close(ks, b) == (ks, b, b.rootE)
  {
  }

  /**
   * A `close` that connects leaves the builder inert: a later `add_point`
   * or `close` does nothing and `close` again returns the same root edge.
   */
  lemma ClosedBuilderIsInert(ks: KernelState, b: Loop, p: PointIndex)
    requires CanClose(ks, b) && b.lastP.Truthy() && b.lastP != b.rootP
    ensures var (k, b', root) := Close(ks, b);
            && !b'.lastP.Truthy() && b'.rootE == root
            && AddPoint(k, b', p) == (k, b')
            && Close(k, b') == (k, b', root)
  {
    var (k, b', root) := Close(ks, b);
    InertBuilder(k, b', p);
  }

  /**
   * On a started builder `add_point` makes a new edge pair whose first edge
   * becomes the last edge; when the connection succeeds the old last
   * edge's `next` is that edge, that edge's `prev` is the old last edge,
   * and its vertex is a new vertex {last point, that edge} that the last
   * point records.
   */
  lemma AddPointExtends(ks: KernelState, b: Loop, p: PointIndex)
    requires CanAddPoint(ks, b) && b.lastP.Truthy()
    ensures var (k1, cur) := MakeEdgePair(ks);
            var (k2, v) := ConnectEdges(k1, b.lastE, b.lastP, cur);
            var (k, b') := AddPoint(ks, b, p);
            && k == k2 && b' == b.(lastE := cur, lastP := p)
            && (v.Truthy() ==>
                  && k.edges.cells[b.lastE.offset].body.next == cur && k.edges.cells[cur.offset].body.prev == b.lastE
                  && k.edges.cells[cur.offset].body.vertex == v
                  && k.vertices.Get(v) == Some(NewElement(Vertex(b.lastP, cur)).(generation := v.generation))
                  && v in k.points.cells[b.lastP.offset].body.vertices)
  {
  }

  /**
   * On a builder whose last point is set and differs from its root point,
   * `close` connects the last edge to the root edge through the last point
   * and resets the last point; when the connection succeeds the last edge's
   * `next` is the root, the root's `prev` is the last edge, and the root's
   * vertex is a new vertex {last point, root edge} that the point records.
   */
  lemma CloseConnects(ks: KernelState, b: Loop)
    requires CanClose(ks, b) && b.lastP.Truthy() && b.lastP != b.rootP
    ensures var (k2, v) := ConnectEdges(ks, b.lastE, b.lastP, b.rootE);
            var (k, b', root) := Close(ks, b);
            && k == k2 && b' == b.(lastP := Invalid()) && root == b.rootE
            && (v.Truthy() ==>
                  && k.edges.cells[b.lastE.offset].body.next == b.rootE && k.edges.cells[b.rootE.offset].body.prev == b.lastE
                  && k.edges.cells[b.rootE.offset].body.vertex == v
                  && k.vertices.Get(v) == Some(NewElement(Vertex(b.lastP, b.rootE)).(generation := v.generation))
                  && v in k.points.cells[b.lastP.offset].body.vertices)
  {
  }

  /**
   * The checks of the edge constructor, both ways: the builder starts
   * exactly when the edge is truthy, has no face, its twin is truthy and
   * both of the twin's points are truthy; it then holds the twin's points.
   */
  lemma StartAtEdgeCases(ks: KernelState, e: EdgeIndex)
    ensures var edge := Fn(true, e);
            var twin := Adjacent(ks, edge);
            var (q0, q1) := EdgePoints(ks, twin);
            && (StartAtEdge(ks, e) != Unstarted <==>
                  e.Truthy() && !Truthy(ks.faces, EdgeFace(ks, edge)) && Truthy(ks.edges, twin)
                  && q0.index.Truthy() && q1.index.Truthy())
            && (StartAtEdge(ks, e) != Unstarted ==> StartAtEdge(ks, e) == Loop(e, e, q0.index, q1.index))
  {
  }

  /** A fresh mesh counts no element; its kernel counts the four dummy records. */
  lemma FreshMeshIsEmpty()
    ensures var ks := FreshKernel();
            && ks.edges.Count() == 1 && ks.faces.Count() == 1 && ks.vertices.Count() == 1 && ks.points.Count() == 1
            && MeshCount(ks.edges) == 0 && MeshCount(ks.faces) == 0
            && MeshCount(ks.vertices) == 0 && MeshCount(ks.points) == 0
  {
  }

  /** Below the `size_t` range the mesh count is the number of live records other than the dummy. */
  lemma MeshCountIsLiveLessOne<T, K>(s: Store<T, K>)
    requires 1 <= s.Live() < SIZE_MOD
    ensures MeshCount(s) == s.Live() - 1
  {
  }

  /**
   * The hazard of `add_triangle` with a falsy first point: the builder does
   * nothing and returns the invalid edge, which still resolves (to the
   * dummy edge, through the wildcard generation), so `make_face` emplaces
   * a face rooted there with no edges. On a face arena with no free cells
   * that face is appended and its handle is truthy; otherwise it takes the
   * least queued offset, and its handle is falsy exactly when face slot 0
   * itself was freed (`RemovingInvalidFreesSentinel`).
   */
  lemma FalsyFirstPointMakesEmptyFace(ks: KernelState, p0: PointIndex, p1: PointIndex, p2: PointIndex)
    requires Ready(ks) && ks.faces.HasRoom(1) && !p0.Truthy()
    ensures TriangleLoop(ks, p0, p1, p2) == (ks, Invalid())
    ensures TriangleDefined(ks, p0, p1, p2)
    ensures var (k, f) := AddTriangle(ks, p0, p1, p2);
            var Q := ks.faces.free;
            && (Q == [] ==> f == Index(|ks.faces.cells|, 1) && f.Truthy())
            && (Q != [] ==> f in Q && (f.Truthy() <==> forall j :: 0 <= j < |Q| ==> Q[j].offset != 0))
            && k.faces.Get(f) == Some(NewElement(Face(Invalid(), {})).(generation := f.generation))
            && k.edges == ks.edges
  {
    InvalidStartBuildsNothing(ks, p0, p1, p2);
    var E := ks.edges;
    assert FaceWalk(E, Invalid(), Invalid(), 0) == Walk(OpenEnd, []);
    TheWalkIs(E, Invalid(), 0);
    MakeFaceSpec(ks, Invalid());
    var none: seq<EdgeIndex> := [];
    assert (set h | h in none) == {};
  }

  /** `add_triangle(eindex, ...)` with a falsy edge returns invalid and changes nothing, before any point is emplaced. */
  lemma FalsyEdgeAddsNothing(ks: KernelState, e: EdgeIndex, p: PointIndex, x: Element<Point>)
    requires !e.Truthy()
    ensures AddTriangleFromEdge(ks, e, p) == (ks, Invalid())
    ensures AddTriangleFromEdgeAt(ks, e, x) == (ks, Invalid())
  {
  }
}
