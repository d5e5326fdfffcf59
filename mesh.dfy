/**
 * `mesh_t`, `edge_loop_builder_t` and `mesh_builder_t` of hedge/hedge.cpp
 * as objects: the mesh owns its kernel, the loop builder keeps its four
 * handles in fields it updates, and the mesh builder drives it. Each
 * method is proved equal to its function in `Builders`.
 */
module MeshImpl {
  import opened Handles
  import opened Elements
  import opened Options
  import opened Arena
  import opened Topology
  import opened Proxies
  import opened Builders
  import opened KernelImpl

  class Mesh {
    const kernel: Kernel

    /** `mesh_t()`: a mesh over a new `basic_kernel_t`. */
    constructor ()
      ensures State() == FreshKernel()
      ensures fresh(kernel) && fresh(kernel.edges) && fresh(kernel.faces) && fresh(kernel.vertices) && fresh(kernel.points)
    {
      kernel := new Kernel();
    }

    function State(): KernelState
      reads kernel.edges, kernel.faces, kernel.vertices, kernel.points
    {
      kernel.State()
    }

    function EdgeCount(): nat
      reads kernel.edges
    {
      MeshCount(kernel.edges.View())
    }

    function FaceCount(): nat
      reads kernel.faces
    {
      MeshCount(kernel.faces.View())
    }

    function VertexCount(): nat
      reads kernel.vertices
    {
      MeshCount(kernel.vertices.View())
    }

    function PointCount(): nat
      reads kernel.points
    {
      MeshCount(kernel.points.View())
    }

    /** `mesh_t::edge(index)` and its siblings: a proxy bound to this mesh's kernel. */
    function Edge(i: EdgeIndex): EdgeFn {
      Fn(true, i)
    }

    function Face(i: FaceIndex): FaceFn {
      Fn(true, i)
    }

    function Vertex(i: VertexIndex): VertexFn {
      Fn(true, i)
    }

    function Point(i: PointIndex): PointFn {
      Fn(true, i)
    }
  }

  class EdgeLoopBuilder {
    const mesh: Mesh
    var rootE: EdgeIndex
    var lastE: EdgeIndex
    var rootP: PointIndex
    var lastP: PointIndex

    function Value(): Loop
      reads this
    {
      Loop(rootE, lastE, rootP, lastP)
    }

    /** `edge_loop_builder_t(mesh, pindex)`. */
    constructor FromPoint(m: Mesh, p: PointIndex)
      requires m.State().Valid() && (p.Truthy() ==> PairReady(m.State()))
      modifies m.kernel.edges
      ensures mesh == m
      ensures (m.State(), Value()) == StartAtPoint(old(m.State()), p)
    {
      var e: EdgeIndex := Invalid();
      var q: PointIndex := Invalid();
      if p.Truthy() {
        e := m.kernel.MakeEdgePair();
        q := p;
      }
      mesh := m;
      rootE, lastE, rootP, lastP := e, e, q, q;
    }

    /** `edge_loop_builder_t(mesh, root_eindex)`: reads the mesh and changes nothing in it. */
    constructor FromEdge(m: Mesh, e: EdgeIndex)
      ensures mesh == m
      ensures Value() == StartAtEdge(m.State(), e)
    {
      mesh := m;
      rootE, lastE, rootP, lastP := Invalid(), Invalid(), Invalid(), Invalid();
      new;
      if e.Truthy() {
        var ks := m.State();
        var edge := m.Edge(e);
        if !Truthy(ks.faces, EdgeFace(ks, edge)) {
          var twin := Adjacent(ks, edge);
          if Truthy(ks.edges, twin) {
            var points := EdgePoints(ks, twin);
            rootP := points.0.index;
            lastP := points.1.index;
            if !rootP.Truthy() || !lastP.Truthy() {
              rootP := rootP.Reset();
              lastP := lastP.Reset();
            } else {
              rootE := e;
              lastE := rootE;
            }
          }
        }
      }
    }

    /** `add_point(next_pindex)`; the builder object itself is what the source returns. */
    method AddPoint(p: PointIndex)
      requires CanAddPoint(mesh.State(), Value())
      modifies this, mesh.kernel.edges, mesh.kernel.vertices, mesh.kernel.points
      ensures (mesh.State(), Value()) == Builders.AddPoint(old(mesh.State()), old(Value()), p)
    {
      if lastP.Truthy() {
        var cur := mesh.kernel.MakeEdgePair();
        var v := mesh.kernel.ConnectEdges(lastE, lastP, cur);
        lastP := p;
        lastE := cur;
      }
    }

    /** `close()`. */
    method Close() returns (root: EdgeIndex)
      requires CanClose(mesh.State(), Value())
      modifies this, mesh.kernel.edges, mesh.kernel.vertices, mesh.kernel.points
      ensures (mesh.State(), Value(), root) == Builders.Close(old(mesh.State()), old(Value()))
    {
      if lastP.Truthy() && lastP != rootP {
        var v := mesh.kernel.ConnectEdges(lastE, lastP, rootE);
        lastP := lastP.Reset();
      }
      root := rootE;
    }
  }

  class MeshBuilder {
    const mesh: Mesh

    constructor (m: Mesh)
      ensures mesh == m
    {
      mesh := m;
    }

    /** `start_edge_loop(pindex)`. */
    method StartEdgeLoop(p: PointIndex) returns (b: EdgeLoopBuilder)
      requires mesh.State().Valid() && (p.Truthy() ==> PairReady(mesh.State()))
      modifies mesh.kernel.edges
      ensures fresh(b) && b.mesh == mesh
      ensures (mesh.State(), b.Value()) == StartAtPoint(old(mesh.State()), p)
    {
      b := new EdgeLoopBuilder.FromPoint(mesh, p);
    }

    /** `start_edge_loop(eindex0)`. */
    method StartEdgeLoopAt(e: EdgeIndex) returns (b: EdgeLoopBuilder)
      ensures fresh(b) && b.mesh == mesh
      ensures b.Value() == StartAtEdge(mesh.State(), e)
    {
      b := new EdgeLoopBuilder.FromEdge(mesh, e);
    }

    /** `add_triangle(pindex0, pindex1, pindex2)`. */
    method AddTriangle(p0: PointIndex, p1: PointIndex, p2: PointIndex) returns (f: FaceIndex)
      requires TriangleDefined(mesh.State(), p0, p1, p2)
      modifies mesh.kernel.edges, mesh.kernel.faces, mesh.kernel.vertices, mesh.kernel.points
      ensures (mesh.State(), f) == Builders.AddTriangle(old(mesh.State()), p0, p1, p2)
    {
      TriangleLoopSteps(mesh.State(), p0, p1, p2);
      var b := StartEdgeLoop(p0);
      b.AddPoint(p1);
      b.AddPoint(p2);
      var root := b.Close();
      f := mesh.kernel.MakeFace(root);
    }

    /** `add_triangle(point_t p0, point_t p1, point_t p2)`. */
    method AddTriangleOfPoints(x0: Element<Point>, x1: Element<Point>, x2: Element<Point>) returns (f: FaceIndex)
      requires TriangleOfPointsDefined(mesh.State(), x0, x1, x2)
      modifies mesh.kernel.edges, mesh.kernel.faces, mesh.kernel.vertices, mesh.kernel.points
      ensures (mesh.State(), f) == Builders.AddTriangleOfPoints(old(mesh.State()), x0, x1, x2)
    {
      ghost var ks := mesh.State();
      var q0 := mesh.kernel.EmplacePoint(x0);
      var q1 := mesh.kernel.EmplacePoint(x1);
      var q2 := mesh.kernel.EmplacePoint(x2);
      assert EmplaceThree(ks, x0, x1, x2) == (mesh.State(), q0, q1, q2);
      f := AddTriangle(q0, q1, q2);
    }

    /** `add_triangle(eindex, pindex)`. */
    method AddTriangleFromEdge(e: EdgeIndex, p: PointIndex) returns (f: FaceIndex)
      requires FromEdgeDefined(mesh.State(), e, p)
      modifies mesh.kernel.edges, mesh.kernel.faces, mesh.kernel.vertices, mesh.kernel.points
      ensures (mesh.State(), f) == Builders.AddTriangleFromEdge(old(mesh.State()), e, p)
    {
      if !e.Truthy() {
        return Invalid();
      }
      ghost var ks := mesh.State();
      FromEdgeLoopSteps(ks, e, p);
      var adjacent := Adjacent(mesh.State(), mesh.Edge(e)).index;
      var b := StartEdgeLoopAt(adjacent);
      var q := VertexPoint(mesh.State(), EdgeVertex(mesh.State(), mesh.Edge(e))).index;
      ghost var b0 := StartAtEdge(ks, adjacent);
      ghost var (k1, b1) := Builders.AddPoint(ks, b0, q);
      ghost var (k2, b2) := Builders.AddPoint(k1, b1, p);
      ghost var (k3, b3, r3) := Builders.Close(k2, b2);
      assert FromEdgeLoop(ks, e, p) == (k3, r3);
      b.AddPoint(q);
      assert mesh.State() == k1 && b.Value() == b1;
      b.AddPoint(p);
      assert mesh.State() == k2 && b.Value() == b2;
      var root := b.Close();
      assert mesh.State() == k3 && root == r3;
      f := mesh.kernel.MakeFace(root);
    }

    /** `add_triangle(eindex, point_t p0)`. */
    method AddTriangleFromEdgeAt(e: EdgeIndex, x: Element<Point>) returns (f: FaceIndex)
      requires FromEdgeAtDefined(mesh.State(), e, x)
      modifies mesh.kernel.edges, mesh.kernel.faces, mesh.kernel.vertices, mesh.kernel.points
      ensures (mesh.State(), f) == Builders.AddTriangleFromEdgeAt(old(mesh.State()), e, x)
    {
      if !e.Truthy() {
        return Invalid();
      }
      var q := mesh.kernel.EmplacePoint(x);
      f := AddTriangleFromEdge(e, q);
    }
  }
}
