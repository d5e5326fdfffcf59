/**
 * The function-set proxies of hedge/hedge.hpp and hedge/hedge.cpp:
 * `element_fn_t` and its four subclasses. A proxy pairs a kernel pointer
 * with a handle; the pointer is modelled by whether it is bound to the
 * kernel (each mesh owns one kernel), and the accessors read the value
 * of that kernel, passed in as a `KernelState`.
 */
module Proxies {
  import opened Handles
  import opened Elements
  import opened Options
  import opened Arena
  import opened Topology

  /** `element_fn_t<TIndex, TElement>`: a kernel pointer (null or not) and a handle. */
  datatype Fn<K> = Fn(bound: bool, index: Index<K>)

  type EdgeFn = Fn<EdgeKind>
  type FaceFn = Fn<FaceKind>
  type VertexFn = Fn<VertexKind>
  type PointFn = Fn<PointKind>

  /** The static `invalid` proxy of every subclass: a null kernel and the invalid handle. */
  function InvalidFn<K>(): (p: Fn<K>)
    ensures !p.bound && p.index == Invalid()
  {
    Fn(false, Invalid())
  }

  /** `element()`: null without a kernel, otherwise what the kernel's `get` finds. */
  function ElementOf<T, K>(s: Store<T, K>, p: Fn<K>): (r: Option<Element<T>>)
    ensures r.Some? <==> p.bound && s.Resolves(p.index)
    ensures r.Some? ==> r.value == s.cells[p.index.offset]
  {
    if p.bound then s.Get(p.index) else None
  }

  /** `explicit operator bool`: a kernel, a truthy handle, and a record it resolves to. */
  predicate Truthy<T, K>(s: Store<T, K>, p: Fn<K>) {
    p.bound && p.index.Truthy() && ElementOf(s, p).Some?
  }

  /** `operator==`: the handles are compared, the kernel pointers are not. */
  predicate Equals<K>(p: Fn<K>, q: Fn<K>) {
    p.index == q.index
  }

  /** `operator!=`: the negation of the handle comparison. */
  predicate Differs<K>(p: Fn<K>, q: Fn<K>) {
    p.index != q.index
  }

  /**
   * The `FN_GETTER` pattern: a proxy on the same kernel over the handle
   * the record stores in one of its links, or the `invalid` proxy when the
   * record is null.
   */
  function Follow<T, K, L>(s: Store<T, K>, p: Fn<K>, link: T -> Index<L>): (r: Fn<L>)
    ensures ElementOf(s, p).None? ==> r == InvalidFn()
    ensures ElementOf(s, p).Some? ==> r.bound && r.index == link(s.cells[p.index.offset].body)
  {
    match ElementOf(s, p)
    case None => InvalidFn()
    case Some(c) => Fn(p.bound, link(c.body))
  }

  // edge_fn_t

  function EdgeVertex(ks: KernelState, e: EdgeFn): VertexFn {
    Follow(ks.edges, e, (b: Edge) => b.vertex)
  }

  function EdgeFace(ks: KernelState, e: EdgeFn): FaceFn {
    Follow(ks.edges, e, (b: Edge) => b.face)
  }

  function Next(ks: KernelState, e: EdgeFn): EdgeFn {
    Follow(ks.edges, e, (b: Edge) => b.next)
  }

  function Prev(ks: KernelState, e: EdgeFn): EdgeFn {
    Follow(ks.edges, e, (b: Edge) => b.prev)
  }

  function Adjacent(ks: KernelState, e: EdgeFn): EdgeFn {
    Follow(ks.edges, e, (b: Edge) => b.adjacent)
  }

  /**
   * `is_boundary`: the twin is dereferenced without a check once the edge
   * has a face, so that twin must resolve. An edge is off the boundary
   * exactly when it resolves, has a face, and so does its twin.
   */
  function IsBoundary(ks: KernelState, e: EdgeFn): (r: bool)
    requires ElementOf(ks.edges, e).Some? && ElementOf(ks.edges, e).value.body.face.Truthy() ==>
               ElementOf(ks.edges, Adjacent(ks, e)).Some?
    ensures !r <==> && ElementOf(ks.edges, e).Some?
                    && ks.edges.cells[e.index.offset].body.face.Truthy()
                    && ks.edges.cells[ks.edges.cells[e.index.offset].body.adjacent.offset].body.face.Truthy()
  {
    match ElementOf(ks.edges, e)
    case None => true
    case Some(c) =>
      if !c.body.face.Truthy() then true
      else !ElementOf(ks.edges, Adjacent(ks, e)).value.body.face.Truthy()
  }

  /** `edge_fn_t::points`: the points of this edge's vertex and of its successor's vertex. */
  function EdgePoints(ks: KernelState, e: EdgeFn): (PointFn, PointFn) {
    (VertexPoint(ks, EdgeVertex(ks, e)), VertexPoint(ks, EdgeVertex(ks, Next(ks, e))))
  }

  /** `edge_fn_t::vertices`: this edge's vertex and its successor's vertex. */
  function EdgeVertices(ks: KernelState, e: EdgeFn): (VertexFn, VertexFn) {
    (EdgeVertex(ks, e), EdgeVertex(ks, Next(ks, e)))
  }

  // vertex_fn_t

  function VertexEdge(ks: KernelState, v: VertexFn): EdgeFn {
    Follow(ks.vertices, v, (b: Vertex) => b.edge)
  }

  function VertexPoint(ks: KernelState, v: VertexFn): PointFn {
    Follow(ks.vertices, v, (b: Vertex) => b.point)
  }

  // face_fn_t

  function RootEdge(ks: KernelState, f: FaceFn): EdgeFn {
    Follow(ks.faces, f, (b: Face) => b.root)
  }

  /** `face_fn_t::edges`: asserts that the face resolves, then its edge set. */
  function FaceEdges(ks: KernelState, f: FaceFn): (r: set<EdgeIndex>)
    requires ElementOf(ks.faces, f).Some?
    ensures r == ks.faces.Get(f.index).value.body.edges
  {
    ElementOf(ks.faces, f).value.body.edges
  }

  // point_fn_t

  /** `point_fn_t::position`: dereferences the kernel and asserts the record. */
  function PointPosition(ks: KernelState, p: PointFn): (r: Position)
    requires ElementOf(ks.points, p).Some?
    ensures r == ks.points.Get(p.index).value.body.position
  {
    ElementOf(ks.points, p).value.body.position
  }

  // ---------------------------------------------------------------------------
  // Properties

  /**
   * A proxy without a kernel, the `invalid` proxy among them, is falsy and
   * has no record, whatever its handle.
   */
  lemma NullProxyIsFalsy<T, K>(s: Store<T, K>, h: Index<K>)
    ensures ElementOf(s, Fn(false, h)).None? && !Truthy(s, Fn(false, h))
    ensures !Truthy(s, InvalidFn())
  {
  }

  /**
   * A proxy on the kernel over the invalid handle is falsy too, although the
   * wildcard generation lets it reach the dummy record.
   */
  lemma InvalidHandleIsFalsy<T, K>(s: Store<T, K>)
    requires s.Valid()
    ensures !Truthy(s, Fn(true, Invalid()))
    ensures ElementOf(s, Fn(true, Invalid<K>())) == Some(s.cells[0])
  {
  }

  /** Truthiness is the conjunction of the three checks of `operator bool`. */
  lemma TruthyMeans<T, K>(s: Store<T, K>, p: Fn<K>)
    ensures Truthy(s, p) <==> p.bound && p.index.offset != 0 && s.Resolves(p.index)
  {
  }

  /**
   * Proxy equality looks at the handles alone: a null proxy equals a bound
   * one over the same handle, and `!=` is the negation of `==`.
   */
  lemma EqualityIgnoresKernel<K>(p: Fn<K>, q: Fn<K>)
    ensures Equals(p, q) <==> p.index == q.index
    ensures Differs(p, q) <==> !Equals(p, q)
    ensures Equals(Fn(true, p.index), Fn(false, p.index))
    ensures Equals(p, q) && p.bound != q.bound ==> p != q
  {
  }

  /** One navigation step of `edge_fn_t`. */
  datatype Step = ToNext | ToPrev | ToAdjacent

  function StepFrom(ks: KernelState, e: EdgeFn, s: Step): EdgeFn {
    match s
    case ToNext => Next(ks, e)
    case ToPrev => Prev(ks, e)
    case ToAdjacent => Adjacent(ks, e)
  }

  /** A chain of navigation calls, `e.next().adjacent().prev()` and the like. */
  function Navigate(ks: KernelState, e: EdgeFn, steps: seq<Step>): EdgeFn
    decreases |steps|
  {
    if steps == [] then e else Navigate(ks, StepFrom(ks, e, steps[0]), steps[1..])
  }

  /**
   * Every accessor of a proxy whose record is null gives the `invalid`
   * proxy, and the whole chain from there stays `invalid`.
   */
  lemma {:induction false} InvalidStaysInvalid(ks: KernelState, e: EdgeFn, steps: seq<Step>)
    requires ElementOf(ks.edges, e).None?
    ensures EdgeVertex(ks, e) == InvalidFn() && EdgeFace(ks, e) == InvalidFn()
    ensures steps != [] ==> Navigate(ks, e, steps) == InvalidFn()
    ensures !Truthy(ks.edges, Navigate(ks, e, steps))
    decreases |steps|
  {
    if steps != [] {
      var e' := StepFrom(ks, e, steps[0]);
      assert e' == InvalidFn();
      InvalidStaysInvalid(ks, e', steps[1..]);
    }
  }

  /** The other proxies degrade the same way. */
  lemma InvalidVertexAndFace(ks: KernelState, v: VertexFn, f: FaceFn)
    requires ElementOf(ks.vertices, v).None? && ElementOf(ks.faces, f).None?
    ensures VertexEdge(ks, v) == InvalidFn() && VertexPoint(ks, v) == InvalidFn()
    ensures RootEdge(ks, f) == InvalidFn()
    ensures !Truthy(ks.edges, VertexEdge(ks, v)) && !Truthy(ks.points, VertexPoint(ks, v))
  {
  }

  /**
   * On a present record every accessor is a bound proxy over the link the
   * record stores, and `points()`/`vertices()` go through `next`.
   */
  lemma AccessorsFollowLinks(ks: KernelState, e: EdgeFn, v: VertexFn, f: FaceFn)
    requires ElementOf(ks.edges, e).Some? && ElementOf(ks.vertices, v).Some? && ElementOf(ks.faces, f).Some?
    ensures var c := ks.edges.cells[e.index.offset].body;
            && EdgeVertex(ks, e) == Fn(true, c.vertex) && EdgeFace(ks, e) == Fn(true, c.face)
            && Next(ks, e) == Fn(true, c.next) && Prev(ks, e) == Fn(true, c.prev)
            && Adjacent(ks, e) == Fn(true, c.adjacent)
            && EdgeVertices(ks, e) == (Fn(true, c.vertex), EdgeVertex(ks, Fn(true, c.next)))
            && EdgePoints(ks, e) == (VertexPoint(ks, Fn(true, c.vertex)), VertexPoint(ks, EdgeVertex(ks, Fn(true, c.next))))
    ensures VertexEdge(ks, v) == Fn(true, ks.vertices.cells[v.index.offset].body.edge)
    ensures VertexPoint(ks, v) == Fn(true, ks.vertices.cells[v.index.offset].body.point)
    ensures RootEdge(ks, f) == Fn(true, ks.faces.cells[f.index.offset].body.root)
  {
  }

  /** An edge without a record has invalid points and vertices, and is a boundary edge. */
  lemma InvalidEdgeEnds(ks: KernelState, e: EdgeFn)
    requires ElementOf(ks.edges, e).None?
    ensures EdgePoints(ks, e) == (InvalidFn(), InvalidFn())
    ensures EdgeVertices(ks, e) == (InvalidFn(), InvalidFn())
    ensures IsBoundary(ks, e)
  {
  }

  /**
   * An edge with no face is a boundary edge whatever its twin is; an edge
   * with a face is a boundary edge exactly when its twin has none.
   */
  lemma BoundaryByFaces(ks: KernelState, e: EdgeFn)
    requires ElementOf(ks.edges, e).Some?
    requires ElementOf(ks.edges, e).value.body.face.Truthy() ==> ElementOf(ks.edges, Adjacent(ks, e)).Some?
    ensures !EdgeFace(ks, e).index.Truthy() ==> IsBoundary(ks, e)
    ensures EdgeFace(ks, e).index.Truthy() ==>
              (IsBoundary(ks, e) <==> !EdgeFace(ks, Adjacent(ks, e)).index.Truthy())
  {
  }

  /**
   * The points of an edge whose vertex resolves, and whose successor's
   * vertex resolves, are the points those vertices store.
   */
  lemma EdgePointsOfWiredEdge(ks: KernelState, e: EdgeFn)
    requires ElementOf(ks.edges, e).Some?
    requires ElementOf(ks.vertices, EdgeVertex(ks, e)).Some?
    requires ElementOf(ks.edges, Next(ks, e)).Some?
    requires ElementOf(ks.vertices, EdgeVertex(ks, Next(ks, e))).Some?
    ensures var v0 := ks.edges.cells[e.index.offset].body.vertex;
            var n := ks.edges.cells[e.index.offset].body.next;
            var v1 := ks.edges.cells[n.offset].body.vertex;
            EdgePoints(ks, e) == (Fn(true, ks.vertices.cells[v0.offset].body.point),
                                  Fn(true, ks.vertices.cells[v1.offset].body.point))
  {
  }
}
