/**
 * What the triangle builders of hedge/hedge.cpp produce on arenas that
 * hold no free cells, so that every `emplace` appends: the exact records
 * of the new edges, vertices and face, and the loop they form. These are
 * independent descriptions of the result, proved equal to the builder
 * functions.
 */
module Triangles {
  import opened Handles
  import opened Elements
  import opened Options
  import opened Arena
  import opened Topology
  import opened Proxies
  import opened Builders

  /** The handle an append at offset `o` hands out: records start at generation 1. */
  function H(o: nat): EdgeIndex
    requires o < U32_MOD
  {
    Index(o, 1)
  }

  function V(o: nat): VertexIndex
    requires o < U32_MOD
  {
    Index(o, 1)
  }

  /** A default edge whose twin is at offset `a`: what `make_edge_pair` appends. */
  function Twin(a: nat): Element<Edge>
    requires a < U32_MOD
  {
    NewElement(EmptyEdge.(adjacent := H(a)))
  }

  /** A new edge record with the given links. */
  function Rec(v: VertexIndex, f: FaceIndex, next: EdgeIndex, prev: EdgeIndex, adjacent: EdgeIndex): Element<Edge> {
    NewElement(Edge(v, f, next, prev, adjacent))
  }

  /** The point at `p` with `v` added to its vertex set. */
  function Attach(P: Store<Point, PointKind>, p: PointIndex, v: VertexIndex): Store<Point, PointKind>
    requires p.offset < |P.cells|
  {
    var c := P.cells[p.offset];
    P.Put(p.offset, c.(body := c.body.(vertices := c.body.vertices + {v})))
  }

  /** Edge, vertex and face arenas without free cells and with room for a triangle. */
  predicate Clean(ks: KernelState) {
    && ks.Valid()
    && ks.edges.free == [] && ks.vertices.free == [] && ks.faces.free == []
    && |ks.edges.cells| + 6 <= U32_MAX && |ks.vertices.cells| + 3 <= U32_MAX && |ks.faces.cells| + 1 <= U32_MAX
  }

  /** A point handle `connect_edges` accepts. */
  predicate Usable(ks: KernelState, p: PointIndex) {
    p.Truthy() && ks.points.Resolves(p)
  }

  lemma PutAppended<T, K>(base: seq<Element<T>>, tail: seq<Element<T>>, o: nat, c: Element<T>)
    requires |base| <= o < |base| + |tail|
    ensures var s: Store<T, K> := Store(base + tail, []); s.Put(o, c) == Store(base + tail[o - |base| := c], [])
  {
    assert (base + tail)[o := c] == base + tail[o - |base| := c];
  }

  /** `make_edge_pair` on an edge arena without free cells appends the two twins at `n` and `n + 1`. */
  lemma PairAppends(ks: KernelState)
    requires PairReady(ks) && ks.edges.free == []
    ensures var n := |ks.edges.cells|;
            MakeEdgePair(ks) == (ks.(edges := Store(ks.edges.cells + [Twin(n + 1), Twin(n)], [])), H(n))
  {
    var C := ks.edges.cells;
    var n := |C|;
    var ne := NewElement(EmptyEdge);
    var (s1, e0) := ks.edges.Emplaced(ne);
    var (s2, e1) := s1.Emplaced(ne);
    assert s2 == Store(C + [ne, ne], []) && e0 == H(n) && e1 == H(n + 1);
    assert WithAdjacent(ne, e1) == Twin(n + 1) && WithAdjacent(ne, e0) == Twin(n);
    PutAppended<Edge, EdgeKind>(C, [ne, ne], n, Twin(n + 1));
    var s3 := s2.Put(n, Twin(n + 1));
    assert s3 == Store(C + [Twin(n + 1), ne], []) by {
      assert [ne, ne][0 := Twin(n + 1)] == [Twin(n + 1), ne];
    }
    assert s3.cells[n + 1] == ne;
    PutAppended<Edge, EdgeKind>(C, [Twin(n + 1), ne], n + 1, Twin(n));
    assert [Twin(n + 1), ne][1 := Twin(n)] == [Twin(n + 1), Twin(n)];
  }

  /**
   * `connect_edges` on a vertex arena without free cells appends the
   * vertex at `m`, generation 1, and always wires.
   */
  lemma ConnectAppends(ks: KernelState, e: EdgeIndex, p: PointIndex, x: EdgeIndex)
    requires ks.Valid() && ks.vertices.free == [] && ks.vertices.HasRoom(1) && Connectable(ks, e, p, x)
    ensures var m := |ks.vertices.cells|;
            var ce := ks.edges.cells[e.offset];
            var E1 := ks.edges.Put(e.offset, ce.(body := ce.body.(next := x)));
            var cx := E1.cells[x.offset];
            var E2 := E1.Put(x.offset, cx.(body := cx.body.(vertex := V(m), prev := e)));
            ConnectEdges(ks, e, p, x)
            == (KernelState(E2, ks.faces, Store(ks.vertices.cells + [NewElement(Vertex(p, x))], []), Attach(ks.points, p, V(m))), V(m))
  {
  }

  // ---------------------------------------------------------------------------
  // add_triangle(pindex0, pindex1, pindex2)

  /** The six edges of a triangle whose first edge lands at `n`, its vertices at `m`, stamped with face `f`. */
  function TriangleEdges(n: nat, m: nat, f: FaceIndex): seq<Element<Edge>>
    requires n + 6 <= U32_MAX && m + 3 <= U32_MAX
  {
    [ Rec(V(m + 2), f, H(n + 2), H(n + 4), H(n + 1)), Twin(n),
      Rec(V(m), f, H(n + 4), H(n), H(n + 3)), Twin(n + 2),
      Rec(V(m + 1), f, H(n), H(n + 2), H(n + 5)), Twin(n + 4) ]
  }

  /**
   * The kernel after `start_edge_loop(p0).add_point(p1).add_point(p2).close()`
   * and, when `f` is a face handle, after `make_face` stamped it: six new
   * edges, three new vertices {p0, n+2}, {p1, n+4}, {p2, n}, and each
   * point knowing its vertex.
   */
  function TriangleState(ks: KernelState, p0: PointIndex, p1: PointIndex, p2: PointIndex, f: FaceIndex): KernelState
    requires Clean(ks)
    requires p0.offset < |ks.points.cells| && p1.offset < |ks.points.cells| && p2.offset < |ks.points.cells|
  {
    var n := |ks.edges.cells|;
    var m := |ks.vertices.cells|;
    KernelState(
      Store(ks.edges.cells + TriangleEdges(n, m, f), []),
      ks.faces,
      Store(ks.vertices.cells + [NewElement(Vertex(p0, H(n + 2))), NewElement(Vertex(p1, H(n + 4))), NewElement(Vertex(p2, H(n)))], []),
      Attach(Attach(Attach(ks.points, p0, V(m)), p1, V(m + 1)), p2, V(m + 2)))
  }

  /** The three edges of the loop from its root. */
  function LoopEdges(n: nat): seq<EdgeIndex>
    requires n + 6 <= U32_MAX
  {
    [H(n), H(n + 2), H(n + 4)]
  }

  lemma Step1(ks: KernelState, p0: PointIndex, p1: PointIndex)
    requires Clean(ks) && Usable(ks, p0)
    ensures var n := |ks.edges.cells|;
            var m := |ks.vertices.cells|;
            var b0 := Loop(H(n), H(n), p0, p0);
            && StartAtPoint(ks, p0) == (ks.(edges := Store(ks.edges.cells + [Twin(n + 1), Twin(n)], [])), b0)
            && AddPoint(ks.(edges := Store(ks.edges.cells + [Twin(n + 1), Twin(n)], [])), b0, p1)
               == (KernelState(
                     Store(ks.edges.cells + [Rec(Invalid(), Invalid(), H(n + 2), Invalid(), H(n + 1)), Twin(n),
                                             Rec(V(m), Invalid(), Invalid(), H(n), H(n + 3)), Twin(n + 2)], []),
                     ks.faces,
                     Store(ks.vertices.cells + [NewElement(Vertex(p0, H(n + 2)))], []),
                     Attach(ks.points, p0, V(m))),
                   Loop(H(n), H(n + 2), p0, p1))
  {
    var C := ks.edges.cells;
    var n := |C|;
    var m := |ks.vertices.cells|;
    PairAppends(ks);
    var k0 := ks.(edges := Store(C + [Twin(n + 1), Twin(n)], []));
    PairAppends(k0);
    var t := [Twin(n + 1), Twin(n), Twin(n + 3), Twin(n + 2)];
    assert (C + [Twin(n + 1), Twin(n)]) + [Twin(n + 3), Twin(n + 2)] == C + t;
    var k1 := ks.(edges := Store(C + t, []));
    assert MakeEdgePair(k0) == (k1, H(n + 2));
    ConnectAppends(k1, H(n), p0, H(n + 2));
    var r0 := Rec(Invalid(), Invalid(), H(n + 2), Invalid(), H(n + 1));
    var r2 := Rec(V(m), Invalid(), Invalid(), H(n), H(n + 3));
    assert (C + t)[n] == Twin(n + 1);
    assert Twin(n + 1).(body := Twin(n + 1).body.(next := H(n + 2))) == r0;
    PutAppended<Edge, EdgeKind>(C, t, n, r0);
    assert (C + t[0 := r0])[n + 2] == Twin(n + 3);
    assert Twin(n + 3).(body := Twin(n + 3).body.(vertex := V(m), prev := H(n))) == r2;
    PutAppended<Edge, EdgeKind>(C, t[0 := r0], n + 2, r2);
    assert t[0 := r0][2 := r2] == [r0, Twin(n), r2, Twin(n + 2)];
    var expected := KernelState(Store(C + [r0, Twin(n), r2, Twin(n + 2)], []), ks.faces,
                                Store(ks.vertices.cells + [NewElement(Vertex(p0, H(n + 2)))], []), Attach(ks.points, p0, V(m)));
    assert ConnectEdges(k1, H(n), p0, H(n + 2)) == (expected, V(m));
  }

  lemma Step2(ks: KernelState, p0: PointIndex, p1: PointIndex, p2: PointIndex)
    requires Clean(ks) && Usable(ks, p0) && Usable(ks, p1)
    ensures var n := |ks.edges.cells|;
            var m := |ks.vertices.cells|;
            && Attach(ks.points, p0, V(m)).Valid()
            && AddPoint(KernelState(
                          Store(ks.edges.cells + [Rec(Invalid(), Invalid(), H(n + 2), Invalid(), H(n + 1)), Twin(n),
                                                  Rec(V(m), Invalid(), Invalid(), H(n), H(n + 3)), Twin(n + 2)], []),
                          ks.faces,
                          Store(ks.vertices.cells + [NewElement(Vertex(p0, H(n + 2)))], []),
                          Attach(ks.points, p0, V(m))),
                        Loop(H(n), H(n + 2), p0, p1), p2)
               == (KernelState(
                     Store(ks.edges.cells + [Rec(Invalid(), Invalid(), H(n + 2), Invalid(), H(n + 1)), Twin(n),
                                             Rec(V(m), Invalid(), H(n + 4), H(n), H(n + 3)), Twin(n + 2),
                                             Rec(V(m + 1), Invalid(), Invalid(), H(n + 2), H(n + 5)), Twin(n + 4)], []),
                     ks.faces,
                     Store(ks.vertices.cells + [NewElement(Vertex(p0, H(n + 2))), NewElement(Vertex(p1, H(n + 4)))], []),
                     Attach(Attach(ks.points, p0, V(m)), p1, V(m + 1))),
                   Loop(H(n), H(n + 4), p0, p2))
  {
    var C := ks.edges.cells;
    var n := |C|;
    var m := |ks.vertices.cells|;
    var t1 := [Rec(Invalid(), Invalid(), H(n + 2), Invalid(), H(n + 1)), Twin(n), Rec(V(m), Invalid(), Invalid(), H(n), H(n + 3)), Twin(n + 2)];
    var k := KernelState(Store(C + t1, []), ks.faces, Store(ks.vertices.cells + [NewElement(Vertex(p0, H(n + 2)))], []), Attach(ks.points, p0, V(m)));
    PairAppends(k);
    var t := t1 + [Twin(n + 5), Twin(n + 4)];
    assert (C + t1) + [Twin(n + 5), Twin(n + 4)] == C + t;
    var k1 := k.(edges := Store(C + t, []));
    ConnectAppends(k1, H(n + 2), p1, H(n + 4));
    assert (ks.vertices.cells + [NewElement(Vertex(p0, H(n + 2)))]) + [NewElement(Vertex(p1, H(n + 4)))]
        == ks.vertices.cells + [NewElement(Vertex(p0, H(n + 2))), NewElement(Vertex(p1, H(n + 4)))];
    assert MakeEdgePair(k) == (k1, H(n + 4));
    var r2 := Rec(V(m), Invalid(), H(n + 4), H(n), H(n + 3));
    var r4 := Rec(V(m + 1), Invalid(), Invalid(), H(n + 2), H(n + 5));
    assert (C + t)[n + 2] == t1[2];
    assert t1[2].(body := t1[2].body.(next := H(n + 4))) == r2;
    PutAppended<Edge, EdgeKind>(C, t, n + 2, r2);
    assert (C + t[2 := r2])[n + 4] == Twin(n + 5);
    assert Twin(n + 5).(body := Twin(n + 5).body.(vertex := V(m + 1), prev := H(n + 2))) == r4;
    PutAppended<Edge, EdgeKind>(C, t[2 := r2], n + 4, r4);
    assert t[2 := r2][4 := r4] == [t1[0], Twin(n), r2, Twin(n + 2), r4, Twin(n + 4)];
  }

  lemma Step3(ks: KernelState, p0: PointIndex, p1: PointIndex, p2: PointIndex)
    requires Clean(ks) && Usable(ks, p0) && Usable(ks, p1) && Usable(ks, p2) && p2 != p0
    ensures var n := |ks.edges.cells|;
            var m := |ks.vertices.cells|;
            && Attach(Attach(ks.points, p0, V(m)), p1, V(m + 1)).Valid()
            && Close(KernelState(
                       Store(ks.edges.cells + [Rec(Invalid(), Invalid(), H(n + 2), Invalid(), H(n + 1)), Twin(n),
                                               Rec(V(m), Invalid(), H(n + 4), H(n), H(n + 3)), Twin(n + 2),
                                               Rec(V(m + 1), Invalid(), Invalid(), H(n + 2), H(n + 5)), Twin(n + 4)], []),
                       ks.faces,
                       Store(ks.vertices.cells + [NewElement(Vertex(p0, H(n + 2))), NewElement(Vertex(p1, H(n + 4)))], []),
                       Attach(Attach(ks.points, p0, V(m)), p1, V(m + 1))),
                     Loop(H(n), H(n + 4), p0, p2))
               == (TriangleState(ks, p0, p1, p2, Invalid()), Loop(H(n), H(n + 4), p0, Invalid()), H(n))
  {
    var C := ks.edges.cells;
    var n := |C|;
    var m := |ks.vertices.cells|;
    var t := [Rec(Invalid(), Invalid(), H(n + 2), Invalid(), H(n + 1)), Twin(n),
              Rec(V(m), Invalid(), H(n + 4), H(n), H(n + 3)), Twin(n + 2),
              Rec(V(m + 1), Invalid(), Invalid(), H(n + 2), H(n + 5)), Twin(n + 4)];
    var vs := ks.vertices.cells + [NewElement(Vertex(p0, H(n + 2))), NewElement(Vertex(p1, H(n + 4)))];
    var k := KernelState(Store(C + t, []), ks.faces, Store(vs, []), Attach(Attach(ks.points, p0, V(m)), p1, V(m + 1)));
    ConnectAppends(k, H(n + 4), p2, H(n));
    assert vs + [NewElement(Vertex(p2, H(n)))]
        == ks.vertices.cells + [NewElement(Vertex(p0, H(n + 2))), NewElement(Vertex(p1, H(n + 4))), NewElement(Vertex(p2, H(n)))];
    Step3Edges(C, m);
  }

  /** The two writes of the closing `connect_edges` turn the open chain's six edges into `TriangleEdges`. */
  lemma Step3Edges(C: seq<Element<Edge>>, m: nat)
    requires |C| + 6 <= U32_MAX && m + 3 <= U32_MAX
    ensures var n := |C|;
            var E: Store<Edge, EdgeKind> :=
              Store(C + [Rec(Invalid(), Invalid(), H(n + 2), Invalid(), H(n + 1)), Twin(n),
                         Rec(V(m), Invalid(), H(n + 4), H(n), H(n + 3)), Twin(n + 2),
                         Rec(V(m + 1), Invalid(), Invalid(), H(n + 2), H(n + 5)), Twin(n + 4)], []);
            var ce := E.cells[n + 4];
            var E1 := E.Put(n + 4, ce.(body := ce.body.(next := H(n))));
            var cx := E1.cells[n];
            E1.Put(n, cx.(body := cx.body.(vertex := V(m + 2), prev := H(n + 4)))) == Store(C + TriangleEdges(n, m, Invalid()), [])
  {
    var n := |C|;
    var t := [Rec(Invalid(), Invalid(), H(n + 2), Invalid(), H(n + 1)), Twin(n),
              Rec(V(m), Invalid(), H(n + 4), H(n), H(n + 3)), Twin(n + 2),
              Rec(V(m + 1), Invalid(), Invalid(), H(n + 2), H(n + 5)), Twin(n + 4)];
    var r4 := Rec(V(m + 1), Invalid(), H(n), H(n + 2), H(n + 5));
    assert (C + t)[n + 4] == t[4];
    PutAppended<Edge, EdgeKind>(C, t, n + 4, r4);
    assert (C + t[4 := r4])[n] == t[0];
    PutAppended<Edge, EdgeKind>(C, t[4 := r4], n, Rec(V(m + 2), Invalid(), H(n + 2), H(n + 4), H(n + 1)));
    assert t[4 := r4][0 := Rec(V(m + 2), Invalid(), H(n + 2), H(n + 4), H(n + 1))] == TriangleEdges(n, m, Invalid());
  }

  /**
   * On arenas without free cells, with three usable points and a last point
   * other than the first, the loop builder appends the six edges of
   * `TriangleEdges`, the three vertices, and returns the first new edge.
   */
  lemma TriangleLoopAppends(ks: KernelState, p0: PointIndex, p1: PointIndex, p2: PointIndex)
    requires Clean(ks) && Usable(ks, p0) && Usable(ks, p1) && Usable(ks, p2) && p2 != p0
    ensures TriangleLoop(ks, p0, p1, p2) == (TriangleState(ks, p0, p1, p2, Invalid()), H(|ks.edges.cells|))
  {
    Step1(ks, p0, p1);
    Step2(ks, p0, p1, p2);
    Step3(ks, p0, p1, p2);
  }

  /** The walk `make_face` performs from the root of the new loop visits its three edges and closes. */
  lemma TriangleWalk(ks: KernelState, p0: PointIndex, p1: PointIndex, p2: PointIndex, f: FaceIndex)
    requires Clean(ks) && Usable(ks, p0) && Usable(ks, p1) && Usable(ks, p2)
    ensures var n := |ks.edges.cells|;
            FaceWalk(TriangleState(ks, p0, p1, p2, f).edges, H(n), H(n), 3) == Walk(Closed, LoopEdges(n))
  {
    var n := |ks.edges.cells|;
    var m := |ks.vertices.cells|;
    var C := ks.edges.cells;
    var E := TriangleState(ks, p0, p1, p2, f).edges;
    var T := TriangleEdges(n, m, f);
    assert E.cells == C + T;
    assert E.cells[n] == T[0] && E.cells[n + 2] == T[2] && E.cells[n + 4] == T[4];
    assert E.Resolves(H(n)) && E.Resolves(H(n + 2)) && E.Resolves(H(n + 4));
    assert NextOf(E, H(n)) == H(n + 2) && NextOf(E, H(n + 2)) == H(n + 4) && NextOf(E, H(n + 4)) == H(n);
    assert FaceWalk(E, H(n), H(n + 4), 1) == Walk(Closed, [H(n + 4)]);
    assert FaceWalk(E, H(n), H(n + 2), 2) == Walk(Closed, [H(n + 2), H(n + 4)]);
  }

  /** Stamping the three loop edges with `f` gives the edges of `TriangleEdges(n, m, f)`. */
  lemma TriangleStamped(C: seq<Element<Edge>>, m: nat, f: FaceIndex)
    requires |C| + 6 <= U32_MAX && m + 3 <= U32_MAX
    ensures var n := |C|;
            var E: EdgeStore := Store(C + TriangleEdges(n, m, Invalid()), []);
            Stamp(E, LoopEdges(n), f) == Store(C + TriangleEdges(n, m, f), [])
  {
    var n := |C|;
    var T0 := TriangleEdges(n, m, Invalid());
    var T1 := TriangleEdges(n, m, f);
    var E: EdgeStore := Store(C + T0, []);
    var S := Stamp(E, LoopEdges(n), f);
    StampSpec(E, LoopEdges(n), f);
    forall i | 0 <= i < |C + T1|
      ensures S.cells[i] == (C + T1)[i]
    {
      if i < n {
        assert i !in Offsets(LoopEdges(n));
      } else if i == n || i == n + 2 || i == n + 4 {
        assert i in Offsets(LoopEdges(n));
        assert S.cells[i] == WithFace(T0[i - n], f);
      } else {
        assert i !in Offsets(LoopEdges(n));
      }
    }
    assert S.cells == C + T1;
  }

  /**
   * `make_face` on a face arena without free cells, from a root whose walk
   * closes after visiting `hs`: the face {root, hs} is appended, the edges
   * of `hs` are stamped with it, and its handle is returned.
   */
  lemma FaceAppends(k: KernelState, root: EdgeIndex, hs: seq<EdgeIndex>, fuel: nat)
    requires k.Valid() && k.faces.free == [] && |k.faces.cells| + 1 <= U32_MAX
    requires k.edges.Resolves(root) && FaceWalk(k.edges, root, root, fuel) == Walk(Closed, hs)
    ensures var F: FaceIndex := Index(|k.faces.cells|, 1);
            && MakeFaceDefined(k, root)
            && MakeFace(k, root)
               == (k.(edges := Stamp(k.edges, hs, F), faces := Store(k.faces.cells + [NewElement(Face(root, set h | h in hs))], [])), F)
  {
    TheWalkIs(k.edges, root, fuel);
    var (F1, F) := k.faces.Emplaced(NewElement(EmptyFace));
    assert F1 == Store(k.faces.cells + [NewElement(EmptyFace)], []) && F == Index(|k.faces.cells|, 1);
    MakeFaceOutcome(k, root, F1, F, fuel);
    var face := NewElement(Face(root, set h | h in hs));
    assert face.(generation := F.generation) == face;
    PutAppended<Face, FaceKind>(k.faces.cells, [NewElement(EmptyFace)], |k.faces.cells|, face);
    assert [NewElement(EmptyFace)][0 := face] == [face];
  }

  /** `make_face` from the root of the new loop, before any face is stamped. */
  lemma TriangleFace(ks: KernelState, p0: PointIndex, p1: PointIndex, p2: PointIndex)
    requires Clean(ks) && Usable(ks, p0) && Usable(ks, p1) && Usable(ks, p2)
    ensures var n := |ks.edges.cells|;
            var k := TriangleState(ks, p0, p1, p2, Invalid());
            var F: FaceIndex := Index(|ks.faces.cells|, 1);
            && MakeFaceDefined(k, H(n))
            && MakeFace(k, H(n))
               == (TriangleMesh(ks, p0, p1, p2), F)
  {
    var n := |ks.edges.cells|;
    var m := |ks.vertices.cells|;
    var k := TriangleState(ks, p0, p1, p2, Invalid());
    var F: FaceIndex := Index(|ks.faces.cells|, 1);
    TriangleWalk(ks, p0, p1, p2, Invalid());
    assert k.edges.Resolves(H(n));
    FaceAppends(k, H(n), LoopEdges(n), 3);
    assert (set h | h in LoopEdges(n)) == {H(n), H(n + 2), H(n + 4)};
    TriangleStamped(ks.edges.cells, m, F);
    assert TriangleState(ks, p0, p1, p2, F) == k.(edges := Stamp(k.edges, LoopEdges(n), F));
  }

  /**
   * `add_triangle(pindex0, pindex1, pindex2)` on arenas without free cells:
   * the six edges and three vertices of `TriangleState`, the three loop
   * edges stamped with the new face, and a face appended whose root is the
   * first new edge and whose edge set is the loop; the face handle is
   * returned.
   */
  lemma AddTriangleAppends(ks: KernelState, p0: PointIndex, p1: PointIndex, p2: PointIndex)
    requires Clean(ks) && Usable(ks, p0) && Usable(ks, p1) && Usable(ks, p2) && p2 != p0
    ensures TriangleDefined(ks, p0, p1, p2)
    ensures var n := |ks.edges.cells|;
            var F: FaceIndex := Index(|ks.faces.cells|, 1);
            AddTriangle(ks, p0, p1, p2)
            == (TriangleMesh(ks, p0, p1, p2), F)
  {
    TriangleLoopAppends(ks, p0, p1, p2);
    TriangleFace(ks, p0, p1, p2);
  }

  // ---------------------------------------------------------------------------
  // add_triangle(eindex, pindex)

  lemma PutBase<T, K>(base: seq<Element<T>>, tail: seq<Element<T>>, o: nat, c: Element<T>)
    requires o < |base|
    ensures var s: Store<T, K> := Store(base + tail, []); s.Put(o, c) == Store(base[o := c] + tail, [])
  {
    assert (base + tail)[o := c] == base[o := c] + tail;
  }

  /** The twin of `e`, whose face the new triangle fills. */
  function TwinOf(ks: KernelState, e: EdgeIndex): EdgeIndex
    requires e.offset < |ks.edges.cells|
  {
    ks.edges.cells[e.offset].body.adjacent
  }

  /**
   * What the lemmas about `add_triangle(eindex, pindex)` assume besides
   * clean arenas: `e` and its twin resolve and are each other's twins, the
   * twin has no face, the two points of `e` are usable, and so is `p`,
   * which differs from the point of `e`'s vertex.
   */
  predicate FromEdgeReady(ks: KernelState, e: EdgeIndex, p: PointIndex) {
    && Clean(ks)
    && e.Truthy() && ks.edges.Resolves(e)
    && var t := TwinOf(ks, e);
       && t.Truthy() && ks.edges.Resolves(t) && ks.edges.cells[t.offset].body.adjacent == e
       && !Truthy(ks.faces, Fn(true, ks.edges.cells[t.offset].body.face))
       && var (q0, q1) := EdgePoints(ks, Fn(true, e));
          && Usable(ks, q0.index) && Usable(ks, q1.index) && Usable(ks, p) && p != q0.index
  }

  /** An edge record with its vertex, face, next and prev links replaced; the twin link stays. */
  function Relinked(c: Element<Edge>, v: VertexIndex, f: FaceIndex, next: EdgeIndex, prev: EdgeIndex): Element<Edge> {
    c.(body := c.body.(vertex := v, face := f, next := next, prev := prev))
  }

  /** The four edges `add_triangle(eindex, pindex)` appends at `n`, around the twin `t`. */
  function FromEdgeEdges(n: nat, m: nat, t: EdgeIndex, f: FaceIndex): seq<Element<Edge>>
    requires n + 6 <= U32_MAX && m + 3 <= U32_MAX
  {
    [Rec(V(m), f, H(n + 2), t, H(n + 1)), Twin(n), Rec(V(m + 1), f, t, H(n), H(n + 3)), Twin(n + 2)]
  }

  /**
   * The kernel after the loop of `add_triangle(eindex, pindex)` is closed
   * and, when `f` is a face handle, stamped: the twin `t` of `e` is wired
   * to the two new edges at `n` and `n + 2` (the twin's own face link is
   * `tf`), and three vertices are appended, at the second point of `e`, at
   * its first point, and at `p`.
   */
  function FromEdgeState(ks: KernelState, e: EdgeIndex, p: PointIndex, tf: FaceIndex, f: FaceIndex): KernelState
    requires FromEdgeReady(ks, e, p)
  {
    var C := ks.edges.cells;
    var n := |C|;
    var m := |ks.vertices.cells|;
    var t := TwinOf(ks, e);
    var (q0, q1) := EdgePoints(ks, Fn(true, e));
    KernelState(
      Store(C[t.offset := Relinked(C[t.offset], V(m + 2), tf, H(n), H(n + 2))] + FromEdgeEdges(n, m, t, f), []),
      ks.faces,
      Store(ks.vertices.cells + [NewElement(Vertex(q1.index, H(n))), NewElement(Vertex(q0.index, H(n + 2))), NewElement(Vertex(p, t))], []),
      Attach(Attach(Attach(ks.points, q1.index, V(m)), q0.index, V(m + 1)), p, V(m + 2)))
  }

  /** The builder started at the twin, then `add_point` through the point of `e`'s vertex. */
  lemma FromEdgeStep1(ks: KernelState, e: EdgeIndex, p: PointIndex)
    requires FromEdgeReady(ks, e, p)
    ensures var C := ks.edges.cells;
            var n := |C|;
            var m := |ks.vertices.cells|;
            var t := TwinOf(ks, e);
            var (q0, q1) := EdgePoints(ks, Fn(true, e));
            && StartAtEdge(ks, t) == Loop(t, t, q0.index, q1.index)
            && Attach(ks.points, q1.index, V(m)).Valid()
            && AddPoint(ks, Loop(t, t, q0.index, q1.index), q0.index)
               == (KernelState(
                     Store(C[t.offset := C[t.offset].(body := C[t.offset].body.(next := H(n)))]
                           + [Rec(V(m), Invalid(), Invalid(), t, H(n + 1)), Twin(n)], []),
                     ks.faces,
                     Store(ks.vertices.cells + [NewElement(Vertex(q1.index, H(n)))], []),
                     Attach(ks.points, q1.index, V(m))),
                   Loop(t, H(n), q0.index, q0.index))
  {
    var C := ks.edges.cells;
    var n := |C|;
    var m := |ks.vertices.cells|;
    var t := TwinOf(ks, e);
    var (q0, q1) := EdgePoints(ks, Fn(true, e));
    assert Adjacent(ks, Fn(true, t)) == Fn(true, e);
    PairAppends(ks);
    var k1 := ks.(edges := Store(C + [Twin(n + 1), Twin(n)], []));
    ConnectAppends(k1, t, q1.index, H(n));
    var ct := C[t.offset].(body := C[t.offset].body.(next := H(n)));
    var r0 := Rec(V(m), Invalid(), Invalid(), t, H(n + 1));
    PutBase<Edge, EdgeKind>(C, [Twin(n + 1), Twin(n)], t.offset, ct);
    assert (C[t.offset := ct] + [Twin(n + 1), Twin(n)])[n] == Twin(n + 1);
    assert Twin(n + 1).(body := Twin(n + 1).body.(vertex := V(m), prev := t)) == r0;
    PutAppended<Edge, EdgeKind>(C[t.offset := ct], [Twin(n + 1), Twin(n)], n, r0);
    assert [Twin(n + 1), Twin(n)][0 := r0] == [r0, Twin(n)];
  }

  /** The second `add_point`, through `p`. */
  lemma FromEdgeStep2(ks: KernelState, e: EdgeIndex, p: PointIndex)
    requires FromEdgeReady(ks, e, p)
    ensures var C := ks.edges.cells;
            var n := |C|;
            var m := |ks.vertices.cells|;
            var t := TwinOf(ks, e);
            var (q0, q1) := EdgePoints(ks, Fn(true, e));
            var C1 := C[t.offset := C[t.offset].(body := C[t.offset].body.(next := H(n)))];
            && Attach(Attach(ks.points, q1.index, V(m)), q0.index, V(m + 1)).Valid()
            && AddPoint(KernelState(
                          Store(C1 + [Rec(V(m), Invalid(), Invalid(), t, H(n + 1)), Twin(n)], []),
                          ks.faces,
                          Store(ks.vertices.cells + [NewElement(Vertex(q1.index, H(n)))], []),
                          Attach(ks.points, q1.index, V(m))),
                        Loop(t, H(n), q0.index, q0.index), p)
               == (KernelState(
                     Store(C1 + [Rec(V(m), Invalid(), H(n + 2), t, H(n + 1)), Twin(n),
                                 Rec(V(m + 1), Invalid(), Invalid(), H(n), H(n + 3)), Twin(n + 2)], []),
                     ks.faces,
                     Store(ks.vertices.cells + [NewElement(Vertex(q1.index, H(n))), NewElement(Vertex(q0.index, H(n + 2)))], []),
                     Attach(Attach(ks.points, q1.index, V(m)), q0.index, V(m + 1))),
                   Loop(t, H(n + 2), q0.index, p))
  {
    var C := ks.edges.cells;
    var n := |C|;
    var m := |ks.vertices.cells|;
    var t := TwinOf(ks, e);
    var (q0, q1) := EdgePoints(ks, Fn(true, e));
    var C1 := C[t.offset := C[t.offset].(body := C[t.offset].body.(next := H(n)))];
    var r0 := Rec(V(m), Invalid(), Invalid(), t, H(n + 1));
    var vs := ks.vertices.cells + [NewElement(Vertex(q1.index, H(n)))];
    var k := KernelState(Store(C1 + [r0, Twin(n)], []), ks.faces, Store(vs, []), Attach(ks.points, q1.index, V(m)));
    PairAppends(k);
    var t1 := [r0, Twin(n), Twin(n + 3), Twin(n + 2)];
    assert (C1 + [r0, Twin(n)]) + [Twin(n + 3), Twin(n + 2)] == C1 + t1;
    var k1 := k.(edges := Store(C1 + t1, []));
    assert MakeEdgePair(k) == (k1, H(n + 2));
    ConnectAppends(k1, H(n), q0.index, H(n + 2));
    assert vs + [NewElement(Vertex(q0.index, H(n + 2)))]
        == ks.vertices.cells + [NewElement(Vertex(q1.index, H(n))), NewElement(Vertex(q0.index, H(n + 2)))];
    var s0 := Rec(V(m), Invalid(), H(n + 2), t, H(n + 1));
    var s2 := Rec(V(m + 1), Invalid(), Invalid(), H(n), H(n + 3));
    assert (C1 + t1)[n] == r0;
    assert r0.(body := r0.body.(next := H(n + 2))) == s0;
    PutAppended<Edge, EdgeKind>(C1, t1, n, s0);
    assert (C1 + t1[0 := s0])[n + 2] == Twin(n + 3);
    assert Twin(n + 3).(body := Twin(n + 3).body.(vertex := V(m + 1), prev := H(n))) == s2;
    PutAppended<Edge, EdgeKind>(C1, t1[0 := s0], n + 2, s2);
    assert t1[0 := s0][2 := s2] == [s0, Twin(n), s2, Twin(n + 2)];
  }

  /** `close`, through `p` back to the twin, which is returned as the root. */
  lemma FromEdgeStep3(ks: KernelState, e: EdgeIndex, p: PointIndex)
    requires FromEdgeReady(ks, e, p)
    ensures var C := ks.edges.cells;
            var n := |C|;
            var m := |ks.vertices.cells|;
            var t := TwinOf(ks, e);
            var (q0, q1) := EdgePoints(ks, Fn(true, e));
            var C1 := C[t.offset := C[t.offset].(body := C[t.offset].body.(next := H(n)))];
            Close(KernelState(
                    Store(C1 + [Rec(V(m), Invalid(), H(n + 2), t, H(n + 1)), Twin(n),
                                Rec(V(m + 1), Invalid(), Invalid(), H(n), H(n + 3)), Twin(n + 2)], []),
                    ks.faces,
                    Store(ks.vertices.cells + [NewElement(Vertex(q1.index, H(n))), NewElement(Vertex(q0.index, H(n + 2)))], []),
                    Attach(Attach(ks.points, q1.index, V(m)), q0.index, V(m + 1))),
                  Loop(t, H(n + 2), q0.index, p))
            == (FromEdgeState(ks, e, p, C[t.offset].body.face, Invalid()), Loop(t, H(n + 2), q0.index, Invalid()), t)
  {
    var C := ks.edges.cells;
    var n := |C|;
    var m := |ks.vertices.cells|;
    var t := TwinOf(ks, e);
    var (q0, q1) := EdgePoints(ks, Fn(true, e));
    var C1 := C[t.offset := C[t.offset].(body := C[t.offset].body.(next := H(n)))];
    var s0 := Rec(V(m), Invalid(), H(n + 2), t, H(n + 1));
    var s2 := Rec(V(m + 1), Invalid(), Invalid(), H(n), H(n + 3));
    var t1 := [s0, Twin(n), s2, Twin(n + 2)];
    var vs := ks.vertices.cells + [NewElement(Vertex(q1.index, H(n))), NewElement(Vertex(q0.index, H(n + 2)))];
    var k := KernelState(Store(C1 + t1, []), ks.faces, Store(vs, []), Attach(Attach(ks.points, q1.index, V(m)), q0.index, V(m + 1)));
    ConnectAppends(k, H(n + 2), p, t);
    assert vs + [NewElement(Vertex(p, t))]
        == ks.vertices.cells + [NewElement(Vertex(q1.index, H(n))), NewElement(Vertex(q0.index, H(n + 2))), NewElement(Vertex(p, t))];
    FromEdgeStep3Edges(C, m, t);
    assert ConnectEdges(k, H(n + 2), p, t).0 == FromEdgeState(ks, e, p, C[t.offset].body.face, Invalid());
  }

  /** The two writes of the closing `connect_edges` relink the twin and finish `FromEdgeEdges`. */
  lemma FromEdgeStep3Edges(C: seq<Element<Edge>>, m: nat, t: EdgeIndex)
    requires |C| + 6 <= U32_MAX && m + 3 <= U32_MAX && t.offset < |C|
    ensures var n := |C|;
            var C1 := C[t.offset := C[t.offset].(body := C[t.offset].body.(next := H(n)))];
            var E: Store<Edge, EdgeKind> :=
              Store(C1 + [Rec(V(m), Invalid(), H(n + 2), t, H(n + 1)), Twin(n),
                          Rec(V(m + 1), Invalid(), Invalid(), H(n), H(n + 3)), Twin(n + 2)], []);
            var ce := E.cells[n + 2];
            var E1 := E.Put(n + 2, ce.(body := ce.body.(next := t)));
            var cx := E1.cells[t.offset];
            E1.Put(t.offset, cx.(body := cx.body.(vertex := V(m + 2), prev := H(n + 2))))
            == Store(C[t.offset := Relinked(C[t.offset], V(m + 2), C[t.offset].body.face, H(n), H(n + 2))] + FromEdgeEdges(n, m, t, Invalid()), [])
  {
    var n := |C|;
    var C1 := C[t.offset := C[t.offset].(body := C[t.offset].body.(next := H(n)))];
    var s0 := Rec(V(m), Invalid(), H(n + 2), t, H(n + 1));
    var s2 := Rec(V(m + 1), Invalid(), Invalid(), H(n), H(n + 3));
    var t1 := [s0, Twin(n), s2, Twin(n + 2)];
    var u2 := Rec(V(m + 1), Invalid(), t, H(n), H(n + 3));
    assert (C1 + t1)[n + 2] == s2;
    assert s2.(body := s2.body.(next := t)) == u2;
    PutAppended<Edge, EdgeKind>(C1, t1, n + 2, u2);
    var ct := C1[t.offset];
    var ut := ct.(body := ct.body.(vertex := V(m + 2), prev := H(n + 2)));
    assert (C1 + t1[2 := u2])[t.offset] == ct;
    PutBase<Edge, EdgeKind>(C1, t1[2 := u2], t.offset, ut);
    assert ut == Relinked(C[t.offset], V(m + 2), C[t.offset].body.face, H(n), H(n + 2));
    assert C1[t.offset := ut] == C[t.offset := ut];
    assert t1[2 := u2] == [s0, Twin(n), u2, Twin(n + 2)];
  }

  /**
   * On arenas without free cells, the loop `add_triangle(eindex, pindex)`
   * builds wires the twin of `eindex` to two new edges and three new
   * vertices, and returns the twin as its root.
   */
  lemma FromEdgeLoopAppends(ks: KernelState, e: EdgeIndex, p: PointIndex)
    requires FromEdgeReady(ks, e, p)
    ensures FromEdgeLoop(ks, e, p) == (FromEdgeState(ks, e, p, ks.edges.cells[TwinOf(ks, e).offset].body.face, Invalid()), TwinOf(ks, e))
  {
    FromEdgeStep1(ks, e, p);
    FromEdgeStep2(ks, e, p);
    FromEdgeStep3(ks, e, p);
  }

  /** The walk from the twin visits it and the two new edges, and closes. */
  lemma FromEdgeWalk(ks: KernelState, e: EdgeIndex, p: PointIndex, tf: FaceIndex, f: FaceIndex)
    requires FromEdgeReady(ks, e, p)
    ensures var n := |ks.edges.cells|;
            var t := TwinOf(ks, e);
            FaceWalk(FromEdgeState(ks, e, p, tf, f).edges, t, t, 3) == Walk(Closed, [t, H(n), H(n + 2)])
  {
    var n := |ks.edges.cells|;
    var m := |ks.vertices.cells|;
    var C := ks.edges.cells;
    var t := TwinOf(ks, e);
    var E := FromEdgeState(ks, e, p, tf, f).edges;
    var C1 := C[t.offset := Relinked(C[t.offset], V(m + 2), tf, H(n), H(n + 2))];
    var T := FromEdgeEdges(n, m, t, f);
    assert E.cells == C1 + T;
    assert E.cells[t.offset] == Relinked(C[t.offset], V(m + 2), tf, H(n), H(n + 2));
    assert E.cells[n] == T[0] && E.cells[n + 2] == T[2];
    assert E.Resolves(t) && E.Resolves(H(n)) && E.Resolves(H(n + 2));
    assert NextOf(E, t) == H(n) && NextOf(E, H(n)) == H(n + 2) && NextOf(E, H(n + 2)) == t;
    assert FaceWalk(E, t, H(n + 2), 1) == Walk(Closed, [H(n + 2)]);
    assert FaceWalk(E, t, H(n), 2) == Walk(Closed, [H(n), H(n + 2)]);
  }

  /** Stamping the twin and the two new edges with `f`. */
  lemma FromEdgeStamped(C: seq<Element<Edge>>, m: nat, t: EdgeIndex, c: Element<Edge>, tf: FaceIndex, f: FaceIndex)
    requires |C| + 6 <= U32_MAX && m + 3 <= U32_MAX && t.offset < |C|
    ensures var n := |C|;
            var E: EdgeStore := Store(C[t.offset := Relinked(c, V(m + 2), tf, H(n), H(n + 2))] + FromEdgeEdges(n, m, t, Invalid()), []);
            Stamp(E, [t, H(n), H(n + 2)], f)
            == Store(C[t.offset := Relinked(c, V(m + 2), f, H(n), H(n + 2))] + FromEdgeEdges(n, m, t, f), [])
  {
    var n := |C|;
    var T0 := FromEdgeEdges(n, m, t, Invalid());
    var T1 := FromEdgeEdges(n, m, t, f);
    var C0 := C[t.offset := Relinked(c, V(m + 2), tf, H(n), H(n + 2))];
    var C1 := C[t.offset := Relinked(c, V(m + 2), f, H(n), H(n + 2))];
    var E: EdgeStore := Store(C0 + T0, []);
    var hs := [t, H(n), H(n + 2)];
    var S := Stamp(E, hs, f);
    StampSpec(E, hs, f);
    assert Offsets(hs) == {t.offset as nat, n, n + 2};
    forall i | 0 <= i < |C1 + T1|
      ensures S.cells[i] == (C1 + T1)[i]
    {
      if i == t.offset as nat {
        assert S.cells[i] == WithFace(C0[i], f);
      } else if i < n {
        assert i !in Offsets(hs);
      } else if i == n || i == n + 2 {
        assert S.cells[i] == WithFace(T0[i - n], f);
      } else {
        assert i !in Offsets(hs);
      }
    }
    assert S.cells == C1 + T1;
  }

  /** `make_face` from the twin once the loop is closed. */
  lemma FromEdgeFace(ks: KernelState, e: EdgeIndex, p: PointIndex)
    requires FromEdgeReady(ks, e, p)
    ensures var n := |ks.edges.cells|;
            var t := TwinOf(ks, e);
            var k := FromEdgeState(ks, e, p, ks.edges.cells[t.offset].body.face, Invalid());
            var F: FaceIndex := Index(|ks.faces.cells|, 1);
            && MakeFaceDefined(k, t)
            && MakeFace(k, t)
               == (k.(edges := Stamp(k.edges, [t, H(n), H(n + 2)], F),
                      faces := Store(ks.faces.cells + [NewElement(Face(t, {t, H(n), H(n + 2)}))], [])), F)
  {
    var C := ks.edges.cells;
    var n := |C|;
    var t := TwinOf(ks, e);
    var k := FromEdgeState(ks, e, p, C[t.offset].body.face, Invalid());
    var hs := [t, H(n), H(n + 2)];
    FromEdgeWalk(ks, e, p, C[t.offset].body.face, Invalid());
    assert k.edges.Resolves(t);
    FaceAppends(k, t, hs, 3);
    assert (set h | h in hs) == {t, H(n), H(n + 2)};
  }

  /** The kernel `FromEdgeState` describes with the face `f` is the closed loop's kernel with its three edges stamped. */
  lemma FromEdgeStateStamped(ks: KernelState, e: EdgeIndex, p: PointIndex, tf: FaceIndex, f: FaceIndex)
    requires FromEdgeReady(ks, e, p)
    ensures var n := |ks.edges.cells|;
            var t := TwinOf(ks, e);
            var k := FromEdgeState(ks, e, p, tf, Invalid());
            FromEdgeState(ks, e, p, f, f) == k.(edges := Stamp(k.edges, [t, H(n), H(n + 2)], f))
  {
    var C := ks.edges.cells;
    var n := |C|;
    var m := |ks.vertices.cells|;
    var t := TwinOf(ks, e);
    var k := FromEdgeState(ks, e, p, tf, Invalid());
    assert k.edges == Store(C[t.offset := Relinked(C[t.offset], V(m + 2), tf, H(n), H(n + 2))] + FromEdgeEdges(n, m, t, Invalid()), []);
    FromEdgeStamped(C, m, t, C[t.offset], tf, f);
    FromEdgeRestamped(ks, e, p, tf, f);
  }

  /** The kernels `FromEdgeState` describes differ in the face links of the twin and the new edges only. */
  lemma FromEdgeRestamped(ks: KernelState, e: EdgeIndex, p: PointIndex, tf: FaceIndex, f: FaceIndex)
    requires FromEdgeReady(ks, e, p)
    ensures var C := ks.edges.cells;
            var n := |C|;
            var m := |ks.vertices.cells|;
            var t := TwinOf(ks, e);
            FromEdgeState(ks, e, p, f, f)
            == FromEdgeState(ks, e, p, tf, Invalid()).(edges := Store(C[t.offset := Relinked(C[t.offset], V(m + 2), f, H(n), H(n + 2))] + FromEdgeEdges(n, m, t, f), []))
  {
  }

  /**
   * `add_triangle(eindex, pindex)` on arenas without free cells: the twin
   * of `eindex` and the two new edges form the loop, every one of them is
   * stamped with the new face, the face appended has the twin as its root
   * and the three as its edge set, and its handle is returned.
   */
  lemma AddTriangleFromEdgeAppends(ks: KernelState, e: EdgeIndex, p: PointIndex)
    requires FromEdgeReady(ks, e, p)
    ensures FromEdgeDefined(ks, e, p)
    ensures var n := |ks.edges.cells|;
            var t := TwinOf(ks, e);
            var F: FaceIndex := Index(|ks.faces.cells|, 1);
            AddTriangleFromEdge(ks, e, p) == (FromEdgeMesh(ks, e, p), F)
  {
    FromEdgeLoopAppends(ks, e, p);
    FromEdgeFaceIsMesh(ks, e, p);
  }

  /** `make_face` on the closed twin-rooted loop leaves `FromEdgeMesh` and the appended face. */
  lemma FromEdgeFaceIsMesh(ks: KernelState, e: EdgeIndex, p: PointIndex)
    requires FromEdgeReady(ks, e, p)
    ensures var t := TwinOf(ks, e);
            var k := FromEdgeState(ks, e, p, ks.edges.cells[t.offset].body.face, Invalid());
            && MakeFaceDefined(k, t)
            && MakeFace(k, t) == (FromEdgeMesh(ks, e, p), Index(|ks.faces.cells|, 1))
  {
    var n := |ks.edges.cells|;
    var t := TwinOf(ks, e);
    var F: FaceIndex := Index(|ks.faces.cells|, 1);
    var k := FromEdgeState(ks, e, p, ks.edges.cells[t.offset].body.face, Invalid());
    FromEdgeFace(ks, e, p);
    FromEdgeStateStamped(ks, e, p, ks.edges.cells[t.offset].body.face, F);
  }

  // ---------------------------------------------------------------------------
  // What the proxies see of a new triangle

  /** Three edges that resolve and that `next` takes round in order, and `prev` back. */
  predicate Cycle(G: KernelState, a: EdgeFn, b: EdgeFn, c: EdgeFn) {
    && Truthy(G.edges, a) && Truthy(G.edges, b) && Truthy(G.edges, c)
    && Next(G, a) == b && Next(G, b) == c && Next(G, c) == a
    && Prev(G, a) == c && Prev(G, b) == a && Prev(G, c) == b
  }

  /** A face that resolves, is rooted at `a`, holds exactly the three edges, and is the face of each. */
  predicate FaceOver(G: KernelState, f: FaceFn, a: EdgeFn, b: EdgeFn, c: EdgeFn) {
    && Truthy(G.faces, f)
    && RootEdge(G, f) == a
    && FaceEdges(G, f) == {a.index, b.index, c.index}
    && EdgeFace(G, a) == f && EdgeFace(G, b) == f && EdgeFace(G, c) == f
  }

  /** The edge and its twin resolve, so `is_boundary` may look at both. */
  predicate TwinResolves(G: KernelState, a: EdgeFn) {
    ElementOf(G.edges, a).Some? && ElementOf(G.edges, Adjacent(G, a)).Some?
  }

  /** A boundary edge: there is no face on the far side of it. */
  predicate OnBoundary(G: KernelState, a: EdgeFn) {
    TwinResolves(G, a) && IsBoundary(G, a)
  }

  /** The kernel `add_triangle(pindex0, pindex1, pindex2)` leaves on arenas without free cells. */
  function TriangleMesh(ks: KernelState, p0: PointIndex, p1: PointIndex, p2: PointIndex): KernelState
    requires Clean(ks) && Usable(ks, p0) && Usable(ks, p1) && Usable(ks, p2)
  {
    var n := |ks.edges.cells|;
    TriangleState(ks, p0, p1, p2, Index(|ks.faces.cells|, 1))
      .(faces := Store(ks.faces.cells + [NewElement(Face(H(n), {H(n), H(n + 2), H(n + 4)}))], []))
  }

  /**
   * Seen through the proxies, that kernel holds a closed loop of three
   * edges that `next` goes round and `prev` goes back, every edge of it
   * carries the new face and lies on the boundary (no twin has a face), the
   * face's root and edge set are the loop, the points of the edges run from
   * `p2` to `p0`, `p0` to `p1`, and `p1` to `p2`, and the arenas hold six
   * more edges, three more vertices, one more face and the same points.
   */
  lemma TriangleWiring(ks: KernelState, p0: PointIndex, p1: PointIndex, p2: PointIndex)
    requires Clean(ks) && Usable(ks, p0) && Usable(ks, p1) && Usable(ks, p2)
    ensures var G := TriangleMesh(ks, p0, p1, p2);
            var n := |ks.edges.cells|;
            var e0 := Fn(true, H(n));
            var e1 := Fn(true, H(n + 2));
            var e2 := Fn(true, H(n + 4));
            && Cycle(G, e0, e1, e2)
            && FaceOver(G, Fn(true, Index(|ks.faces.cells|, 1)), e0, e1, e2)
            && OnBoundary(G, e0) && OnBoundary(G, e1) && OnBoundary(G, e2)
            && EdgePoints(G, e0) == (Fn(true, p2), Fn(true, p0))
            && EdgePoints(G, e1) == (Fn(true, p0), Fn(true, p1))
            && EdgePoints(G, e2) == (Fn(true, p1), Fn(true, p2))
            && G.edges.Live() == ks.edges.Live() + 6 && G.vertices.Live() == ks.vertices.Live() + 3
            && G.faces.Live() == ks.faces.Live() + 1 && G.points.Live() == ks.points.Live()
  {
    var n := |ks.edges.cells|;
    var m := |ks.vertices.cells|;
    var F: FaceIndex := Index(|ks.faces.cells|, 1);
    var G := TriangleMesh(ks, p0, p1, p2);
    var T := TriangleEdges(n, m, F);
    assert G.edges.cells == ks.edges.cells + T;
    assert G.edges.cells[n] == T[0] && G.edges.cells[n + 1] == T[1] && G.edges.cells[n + 2] == T[2];
    assert G.edges.cells[n + 3] == T[3] && G.edges.cells[n + 4] == T[4] && G.edges.cells[n + 5] == T[5];
    var vs := [NewElement(Vertex(p0, H(n + 2))), NewElement(Vertex(p1, H(n + 4))), NewElement(Vertex(p2, H(n)))];
    assert G.vertices.cells == ks.vertices.cells + vs;
    assert G.vertices.cells[m] == vs[0] && G.vertices.cells[m + 1] == vs[1] && G.vertices.cells[m + 2] == vs[2];
    assert G.faces.cells[F.offset] == NewElement(Face(H(n), {H(n), H(n + 2), H(n + 4)}));
  }

  /** The kernel `add_triangle(eindex, pindex)` leaves on arenas without free cells. */
  function FromEdgeMesh(ks: KernelState, e: EdgeIndex, p: PointIndex): KernelState
    requires FromEdgeReady(ks, e, p)
  {
    var n := |ks.edges.cells|;
    var t := TwinOf(ks, e);
    var F: FaceIndex := Index(|ks.faces.cells|, 1);
    FromEdgeState(ks, e, p, F, F).(faces := Store(ks.faces.cells + [NewElement(Face(t, {t, H(n), H(n + 2)}))], []))
  }

  /**
   * Seen through the proxies, that kernel holds a closed loop of the twin
   * `t` of `e` and two new edges, with the new face on all three; the new
   * edges lie on the boundary, and `t` lies on it exactly when `e` has no
   * face; `t` and `e` are still each other's twins; the points run from
   * `p` to the second point of `e`, on to its first point, and back to
   * `p`; and the arenas hold four more edges, three more vertices, one
   * more face and the same points.
   */
  lemma FromEdgeWiring(ks: KernelState, e: EdgeIndex, p: PointIndex)
    requires FromEdgeReady(ks, e, p)
    ensures var G := FromEdgeMesh(ks, e, p);
            var n := |ks.edges.cells|;
            var t := TwinOf(ks, e);
            var (q0, q1) := EdgePoints(ks, Fn(true, e));
            var a0 := Fn(true, t);
            var a1 := Fn(true, H(n));
            var a2 := Fn(true, H(n + 2));
            && Cycle(G, a0, a1, a2)
            && FaceOver(G, Fn(true, Index(|ks.faces.cells|, 1)), a0, a1, a2)
            && Adjacent(G, a0) == Fn(true, e)
            && OnBoundary(G, a1) && OnBoundary(G, a2) && TwinResolves(G, a0)
            && (e.offset != t.offset ==> (IsBoundary(G, a0) <==> !ks.edges.cells[e.offset].body.face.Truthy()))
            && EdgePoints(G, a0) == (Fn(true, p), q1)
            && EdgePoints(G, a1) == (q1, q0)
            && EdgePoints(G, a2) == (q0, Fn(true, p))
            && G.edges.Live() == ks.edges.Live() + 4 && G.vertices.Live() == ks.vertices.Live() + 3
            && G.faces.Live() == ks.faces.Live() + 1 && G.points.Live() == ks.points.Live()
  {
    var C := ks.edges.cells;
    var n := |C|;
    var m := |ks.vertices.cells|;
    var t := TwinOf(ks, e);
    var (q0, q1) := EdgePoints(ks, Fn(true, e));
    var F: FaceIndex := Index(|ks.faces.cells|, 1);
    var G := FromEdgeMesh(ks, e, p);
    var T := FromEdgeEdges(n, m, t, F);
    var ct := Relinked(C[t.offset], V(m + 2), F, H(n), H(n + 2));
    var C1 := C[t.offset := ct];
    assert G.edges.cells == C1 + T;
    assert G.edges.cells[t.offset] == ct;
    assert e.offset != t.offset ==> G.edges.cells[e.offset] == C[e.offset];
    assert G.edges.cells[n] == T[0] && G.edges.cells[n + 1] == T[1] && G.edges.cells[n + 2] == T[2] && G.edges.cells[n + 3] == T[3];
    var vs := [NewElement(Vertex(q1.index, H(n))), NewElement(Vertex(q0.index, H(n + 2))), NewElement(Vertex(p, t))];
    assert G.vertices.cells == ks.vertices.cells + vs;
    assert G.vertices.cells[m] == vs[0] && G.vertices.cells[m + 1] == vs[1] && G.vertices.cells[m + 2] == vs[2];
    assert G.faces.cells[F.offset] == NewElement(Face(t, {t, H(n), H(n + 2)}));
  }

  // ---------------------------------------------------------------------------
  // The kernel calls alone: three edge pairs, then three connections

  /** Three `make_edge_pair` calls on an edge arena without free cells append three twin pairs. */
  lemma ThreePairs(ks: KernelState)
    requires Clean(ks)
    ensures var C := ks.edges.cells;
            var n := |C|;
            var (k1, e0) := MakeEdgePair(ks);
            var (k2, e1) := MakeEdgePair(k1);
            var (k3, e2) := MakeEdgePair(k2);
            && e0 == H(n) && e1 == H(n + 2) && e2 == H(n + 4)
            && k3 == ks.(edges := Store(C + [Twin(n + 1), Twin(n), Twin(n + 3), Twin(n + 2), Twin(n + 5), Twin(n + 4)], []))
  {
    var C := ks.edges.cells;
    var n := |C|;
    PairAppends(ks);
    var k1 := ks.(edges := Store(C + [Twin(n + 1), Twin(n)], []));
    assert MakeEdgePair(ks) == (k1, H(n));
    PairAppends(k1);
    var C2 := C + [Twin(n + 1), Twin(n), Twin(n + 3), Twin(n + 2)];
    assert (C + [Twin(n + 1), Twin(n)]) + [Twin(n + 3), Twin(n + 2)] == C2;
    var k2 := ks.(edges := Store(C2, []));
    assert MakeEdgePair(k1) == (k2, H(n + 2));
    PairAppends(k2);
    assert C2 + [Twin(n + 5), Twin(n + 4)] == C + [Twin(n + 1), Twin(n), Twin(n + 3), Twin(n + 2), Twin(n + 5), Twin(n + 4)];
    assert MakeEdgePair(k2) == (ks.(edges := Store(C + [Twin(n + 1), Twin(n), Twin(n + 3), Twin(n + 2), Twin(n + 5), Twin(n + 4)], [])), H(n + 4));
  }

  /**
   * `connect_edges(h(n + i), p, h(n + j))` on edges appended past `C`, with
   * a vertex arena without free cells: the two records in the tail are
   * rewired, a vertex is appended, and the point learns of it.
   */
  lemma ConnectInTail(k: KernelState, C: seq<Element<Edge>>, t: seq<Element<Edge>>, i: nat, j: nat, p: PointIndex)
    requires k.Valid() && k.edges == Store(C + t, []) && k.vertices.free == [] && k.vertices.HasRoom(1)
    requires 1 <= |C| && |C| + |t| <= U32_MAX && i < |t| && j < |t| && i != j
    requires t[i].generation == 1 && t[j].generation == 1 && Usable(k, p)
    ensures var n := |C|;
            var m := |k.vertices.cells|;
            var ti := t[i].(body := t[i].body.(next := H(n + j)));
            var u := t[i := ti];
            var t' := u[j := u[j].(body := u[j].body.(vertex := V(m), prev := H(n + i)))];
            ConnectEdges(k, H(n + i), p, H(n + j))
            == (KernelState(Store(C + t', []), k.faces, Store(k.vertices.cells + [NewElement(Vertex(p, H(n + j)))], []), Attach(k.points, p, V(m))), V(m))
  {
    var n := |C|;
    var m := |k.vertices.cells|;
    ConnectAppends(k, H(n + i), p, H(n + j));
    var ti := t[i].(body := t[i].body.(next := H(n + j)));
    PutAppended<Edge, EdgeKind>(C, t, n + i, ti);
    var u := t[i := ti];
    PutAppended<Edge, EdgeKind>(C, u, n + j, u[j].(body := u[j].body.(vertex := V(m), prev := H(n + i))));
  }

  /**
   * The edges past the old ones after three edge pairs and `k` of the
   * three connections of a hand-built triangle.
   */
  function PairTail(n: nat, m: nat, k: nat): seq<Element<Edge>>
    requires n + 6 <= U32_MAX && m + 3 <= U32_MAX && k <= 3
  {
    var J: FaceIndex := Invalid();
    if k == 0 then [Twin(n + 1), Twin(n), Twin(n + 3), Twin(n + 2), Twin(n + 5), Twin(n + 4)]
    else if k == 1 then [Rec(Invalid(), J, H(n + 2), Invalid(), H(n + 1)), Twin(n), Rec(V(m), J, Invalid(), H(n), H(n + 3)), Twin(n + 2), Twin(n + 5), Twin(n + 4)]
    else if k == 2 then [Rec(Invalid(), J, H(n + 2), Invalid(), H(n + 1)), Twin(n), Rec(V(m), J, H(n + 4), H(n), H(n + 3)), Twin(n + 2), Rec(V(m + 1), J, Invalid(), H(n + 2), H(n + 5)), Twin(n + 4)]
    else TriangleEdges(n, m, J)
  }

  /** The third connection's two writes turn the stage-2 tail into the stage-3 tail. */
  lemma PairTailCloses(n: nat, m: nat)
    requires n + 6 <= U32_MAX && m + 3 <= U32_MAX
    ensures var t2 := PairTail(n, m, 2);
            var u := t2[4 := t2[4].(body := t2[4].body.(next := H(n)))];
            u[0 := u[0].(body := u[0].body.(vertex := V(m + 2), prev := H(n + 4)))] == PairTail(n, m, 3)
  {
  }

  /** The kernel after three edge pairs and `k` connections through `a`, `b`, `c` in turn. */
  function KernelStage(ks: KernelState, a: PointIndex, b: PointIndex, c: PointIndex, k: nat): KernelState
    requires Clean(ks) && Usable(ks, a) && Usable(ks, b) && Usable(ks, c) && k <= 3
  {
    var n := |ks.edges.cells|;
    var m := |ks.vertices.cells|;
    var vs := [NewElement(Vertex(a, H(n + 2))), NewElement(Vertex(b, H(n + 4))), NewElement(Vertex(c, H(n)))];
    var P1 := Attach(ks.points, a, V(m));
    var P2 := Attach(P1, b, V(m + 1));
    KernelState(Store(ks.edges.cells + PairTail(n, m, k), []), ks.faces, Store(ks.vertices.cells + vs[..k], []),
                if k == 0 then ks.points else if k == 1 then P1 else if k == 2 then P2 else Attach(P2, c, V(m + 2)))
  }

  lemma KernelConnect1(ks: KernelState, a: PointIndex, b: PointIndex, c: PointIndex)
    requires Clean(ks) && Usable(ks, a) && Usable(ks, b) && Usable(ks, c)
    ensures var n := |ks.edges.cells|;
            ConnectEdges(KernelStage(ks, a, b, c, 0), H(n), a, H(n + 2)) == (KernelStage(ks, a, b, c, 1), V(|ks.vertices.cells|))
  {
    var C := ks.edges.cells;
    var n := |C|;
    var m := |ks.vertices.cells|;
    var t0 := PairTail(n, m, 0);
    var vs := [NewElement(Vertex(a, H(n + 2))), NewElement(Vertex(b, H(n + 4))), NewElement(Vertex(c, H(n)))];
    assert ks.vertices.cells + vs[..0] == ks.vertices.cells;
    assert ks.vertices.cells + vs[..1] == ks.vertices.cells + [NewElement(Vertex(a, H(n + 2)))];
    ConnectInTail(KernelStage(ks, a, b, c, 0), C, t0, 0, 2, a);
    assert t0[0 := t0[0].(body := t0[0].body.(next := H(n + 2)))][2 := Rec(V(m), Invalid(), Invalid(), H(n), H(n + 3))] == PairTail(n, m, 1);
  }

  lemma KernelConnect2(ks: KernelState, a: PointIndex, b: PointIndex, c: PointIndex)
    requires Clean(ks) && Usable(ks, a) && Usable(ks, b) && Usable(ks, c)
    ensures var n := |ks.edges.cells|;
            ConnectEdges(KernelStage(ks, a, b, c, 1), H(n + 2), b, H(n + 4)) == (KernelStage(ks, a, b, c, 2), V(|ks.vertices.cells| + 1))
  {
    var C := ks.edges.cells;
    var n := |C|;
    var m := |ks.vertices.cells|;
    var t1 := PairTail(n, m, 1);
    ConnectInTail(KernelStage(ks, a, b, c, 1), C, t1, 2, 4, b);
    assert t1[2 := t1[2].(body := t1[2].body.(next := H(n + 4)))][4 := Rec(V(m + 1), Invalid(), Invalid(), H(n + 2), H(n + 5))] == PairTail(n, m, 2);
    var vs := [NewElement(Vertex(a, H(n + 2))), NewElement(Vertex(b, H(n + 4))), NewElement(Vertex(c, H(n)))];
    assert (ks.vertices.cells + vs[..1]) + [NewElement(Vertex(b, H(n + 4)))] == ks.vertices.cells + vs[..2];
  }

  lemma KernelConnect3(ks: KernelState, a: PointIndex, b: PointIndex, c: PointIndex)
    requires Clean(ks) && Usable(ks, a) && Usable(ks, b) && Usable(ks, c)
    ensures var n := |ks.edges.cells|;
            ConnectEdges(KernelStage(ks, a, b, c, 2), H(n + 4), c, H(n)) == (KernelStage(ks, a, b, c, 3), V(|ks.vertices.cells| + 2))
  {
    var C := ks.edges.cells;
    var n := |C|;
    var m := |ks.vertices.cells|;
    var t2 := PairTail(n, m, 2);
    ConnectInTail(KernelStage(ks, a, b, c, 2), C, t2, 4, 0, c);
    PairTailCloses(n, m);
    var vs := [NewElement(Vertex(a, H(n + 2))), NewElement(Vertex(b, H(n + 4))), NewElement(Vertex(c, H(n)))];
    assert (ks.vertices.cells + vs[..2]) + [NewElement(Vertex(c, H(n)))] == ks.vertices.cells + vs[..3];
  }

  /**
   * Three edge pairs connected round through `a`, `b` and `c` by hand, as
   * the kernel-level triangle of the kernel tests does, give the kernel
   * `add_triangle` builds before its face, with the three vertices appended
   * in order.
   */
  lemma KernelTriangleAppends(ks: KernelState, a: PointIndex, b: PointIndex, c: PointIndex)
    requires Clean(ks) && Usable(ks, a) && Usable(ks, b) && Usable(ks, c)
    ensures var n := |ks.edges.cells|;
            var m := |ks.vertices.cells|;
            var (k1, e0) := MakeEdgePair(ks);
            var (k2, e1) := MakeEdgePair(k1);
            var (k3, e2) := MakeEdgePair(k2);
            var (k4, v0) := ConnectEdges(k3, e0, a, e1);
            var (k5, v1) := ConnectEdges(k4, e1, b, e2);
            var (k6, v2) := ConnectEdges(k5, e2, c, e0);
            && e0 == H(n) && e1 == H(n + 2) && e2 == H(n + 4)
            && v0 == V(m) && v1 == V(m + 1) && v2 == V(m + 2)
            && k6 == TriangleState(ks, a, b, c, Invalid())
  {
    var n := |ks.edges.cells|;
    var m := |ks.vertices.cells|;
    ThreePairs(ks);
    var (k1, e0) := MakeEdgePair(ks);
    var (k2, e1) := MakeEdgePair(k1);
    var (k3, e2) := MakeEdgePair(k2);
    KernelStageEnds(ks, a, b, c);
    KernelConnect1(ks, a, b, c);
    var (k4, v0) := ConnectEdges(k3, e0, a, e1);
    KernelConnect2(ks, a, b, c);
    var (k5, v1) := ConnectEdges(k4, e1, b, e2);
    KernelConnect3(ks, a, b, c);
  }

  /** Stage 0 is the kernel with three bare pairs; stage 3 is the unstamped triangle. */
  lemma KernelStageEnds(ks: KernelState, a: PointIndex, b: PointIndex, c: PointIndex)
    requires Clean(ks) && Usable(ks, a) && Usable(ks, b) && Usable(ks, c)
    ensures var C := ks.edges.cells;
            var n := |C|;
            KernelStage(ks, a, b, c, 0) == ks.(edges := Store(C + [Twin(n + 1), Twin(n), Twin(n + 3), Twin(n + 2), Twin(n + 5), Twin(n + 4)], []))
    ensures KernelStage(ks, a, b, c, 3) == TriangleState(ks, a, b, c, Invalid())
  {
    var n := |ks.edges.cells|;
    var vs := [NewElement(Vertex(a, H(n + 2))), NewElement(Vertex(b, H(n + 4))), NewElement(Vertex(c, H(n)))];
    assert vs[..3] == vs;
    assert ks.vertices.cells + vs[..0] == ks.vertices.cells;
  }
}
