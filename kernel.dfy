/**
 * `basic_kernel_t` (hedge/hedge.cpp) as an object owning its four arenas,
 * with the composite operations of `kernel_t` written as they run: reads
 * through `get`, writes through the record it returned, and the face walk
 * as a loop. Each method is proved equal to its function in `Topology`.
 * The per-type `get`/`insert`/`emplace`/`remove`/`count` of the kernel are
 * the arena members reached through the four fields.
 */
module KernelImpl {
  import opened Handles
  import opened Elements
  import opened Options
  import opened Arena
  import opened Topology

  class Kernel {
    const edges: ElementVector<Edge, EdgeKind>
    const faces: ElementVector<Face, FaceKind>
    const vertices: ElementVector<Vertex, VertexKind>
    const points: ElementVector<Point, PointKind>

    function State(): KernelState
      reads edges, faces, vertices, points
    {
      KernelState(edges.View(), faces.View(), vertices.View(), points.View())
    }

    constructor ()
      ensures State() == FreshKernel()
      ensures fresh(edges) && fresh(faces) && fresh(vertices) && fresh(points)
    {
      edges := new ElementVector(EmptyEdge);
      faces := new ElementVector(EmptyFace);
      vertices := new ElementVector(EmptyVertex);
      points := new ElementVector(EmptyPoint);
    }

    /** `emplace(point_t&&)`, forwarded to the point arena; the other arenas keep their value. */
    method EmplacePoint(p: Element<Point>) returns (h: PointIndex)
      requires State().Valid() && points.View().HasRoom(1)
      modifies points
      ensures (State().points, h) == old(State()).points.Emplaced(p)
      ensures State() == old(State()).(points := State().points)
    {
      h := points.Emplace(p);
    }

    method MakeEdgePair() returns (e: EdgeIndex)
      requires State().Valid() && edges.View().HasRoom(2) && FreeDistinct(edges.free)
      modifies edges
      ensures (State(), e) == Topology.MakeEdgePair(old(State()))
    {
      var e0 := edges.Emplace(NewElement(EmptyEdge));
      var e1 := edges.Emplace(NewElement(EmptyEdge));
      MakeEdgePairTwins(old(State()));
      var c0 := edges.Get(e0).value;
      edges.Put(e0.offset, WithAdjacent(c0, e1));
      var c1 := edges.Get(e1).value;
      edges.Put(e1.offset, WithAdjacent(c1, e0));
      e := e0;
    }

    method ConnectEdges(e: EdgeIndex, p: PointIndex, n: EdgeIndex) returns (v: VertexIndex)
      requires State().Valid()
      requires Connectable(State(), e, p, n) ==> vertices.View().HasRoom(1)
      modifies edges, vertices, points
      ensures (State(), v) == Topology.ConnectEdges(old(State()), e, p, n)
    {
      if !e.Truthy() || !p.Truthy() || !n.Truthy() {
        return Invalid();
      }
      var edge := edges.Get(e);
      var point := points.Get(p);
      var nextEdge := edges.Get(n);
      if edge.None? || point.None? || nextEdge.None? {
        return Invalid();
      }
      v := vertices.Emplace(NewElement(Vertex(p, n)));
      if !v.Truthy() {
        return Invalid();
      }
      edges.Put(e.offset, edge.value.(body := edge.value.body.(next := n)));
      var cn := edges.cells[n.offset];
      edges.Put(n.offset, cn.(body := cn.body.(vertex := v, prev := e)));
      var cp := point.value;
      points.Put(p.offset, cp.(body := cp.body.(vertices := cp.body.vertices + {v})));
    }

    method MakeFace(root: EdgeIndex) returns (f: FaceIndex)
      requires MakeFaceDefined(State(), root)
      modifies edges, faces
      ensures (State(), f) == Topology.MakeFace(old(State()), root)
    {
      var elem := edges.Get(root);
      if elem.None? {
        return Invalid();
      }
      ghost var ks := State();
      ghost var fuel: nat :| FaceWalk(ks.edges, root, root, fuel).end != OutOfFuel;
      ghost var w := FaceWalk(ks.edges, root, root, fuel);
      var findex := faces.Emplace(NewElement(EmptyFace));
      ghost var F1 := faces.View();
      assert findex.offset < |F1.cells|;
      var face := faces.Get(findex).value;
      faces.Put(findex.offset, face.(body := face.body.(root := root)));
      assert EmptyFace.(root := root) == Face(root, {});
      WalkFinishes(ks.edges, root, root, fuel, []);
      assert [] + w.visited == w.visited;
      var closed := WalkFace(root, findex, ks.edges, F1, w, fuel);
      MakeFaceOutcome(ks, root, F1, findex, fuel);
      f := if closed then findex else Invalid();
    }

    /**
     * The loop of `make_face`: from `root`, insert each edge into the face's
     * edge set and stamp it with the face, until a falsy `next`, the root
     * again, a self-connected edge or an unresolvable one. Reports whether
     * the face handle is to be returned.
     */
    method WalkFace(root: EdgeIndex, findex: FaceIndex, ghost E0: EdgeStore, ghost F1: Store<Face, FaceKind>,
                    ghost w: Walk, ghost fuel: nat) returns (closed: bool)
      requires Finishes(E0, root, root, fuel, [], w)
      requires findex.offset < |F1.cells|
      requires edges.View() == E0
      requires faces.View() == F1.Put(findex.offset, NewElement(Face(root, {})).(generation := findex.generation))
      modifies edges, faces
      ensures closed == (w.end == Closed || w.end == OpenEnd)
      ensures edges.View() == Stamp(E0, w.visited, findex)
      ensures faces.View() == F1.Put(findex.offset, NewElement(Face(root, set h | h in w.visited)).(generation := findex.generation))
    {
      var face := faces.Get(findex).value;
      var current := root;
      ghost var visited: seq<EdgeIndex> := [];
      ghost var k: nat := fuel;
      assert (set h | h in visited) == {};
      while current.Truthy()
        invariant Finishes(E0, root, current, k, visited, w)
        invariant edges.View() == Stamp(E0, visited, findex)
        invariant face == NewElement(Face(root, set h | h in visited)).(generation := findex.generation)
        invariant faces.View() == F1.Put(findex.offset, face)
        decreases k
      {
        var elem := edges.Get(current);
        StampResolves(E0, visited, findex, current);
        if elem.None? {
          return false;
        }
        FaceRecordStep(root, visited, current, findex.generation);
        ghost var before := face;
        face := face.(body := face.body.(edges := face.body.edges + {current}));
        PutTwice(F1, findex.offset, before, face);
        faces.Put(findex.offset, face);
        StampStep(E0, visited, current, findex);
        edges.Put(current.offset, WithFace(elem.value, findex));
        var next := elem.value.body.next;
        visited := visited + [current];
        if next == current {
          return false;
        }
        if next == root {
          break;
        }
        current := next;
        k := k - 1;
      }
      closed := true;
    }
  }
}
