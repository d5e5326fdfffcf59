/**
 * The composite topology operations of `kernel_t` (hedge/hedge.cpp) over
 * the value of the four arenas of `basic_kernel_t`: `make_edge_pair`,
 * `connect_edges` and `make_face`, with the face walk that `make_face`
 * performs as a function of the edge arena.
 */
module Topology {
  import opened Handles
  import opened Elements
  import opened Options
  import opened Arena

  type EdgeStore = Store<Edge, EdgeKind>

  /** The value of a `basic_kernel_t`: one arena per element type. */
  datatype KernelState = KernelState(
    edges: EdgeStore,
    faces: Store<Face, FaceKind>,
    vertices: Store<Vertex, VertexKind>,
    points: Store<Point, PointKind>)
  {
    predicate Valid() {
      edges.Valid() && faces.Valid() && vertices.Valid() && points.Valid()
    }
  }

  /** A new `basic_kernel_t`: four arenas holding only their dummy record. */
  function FreshKernel(): (ks: KernelState)
    ensures ks.Valid()
    ensures ks.edges.Live() == 1 && ks.faces.Live() == 1 && ks.vertices.Live() == 1 && ks.points.Live() == 1
  {
    KernelState(Fresh(EmptyEdge), Fresh(EmptyFace), Fresh(EmptyVertex), Fresh(EmptyPoint))
  }

  /**
   * Two edge arenas with the same slots, generations, statuses and free
   * list: every handle resolves in one iff it resolves in the other.
   */
  predicate SameShape(a: EdgeStore, b: EdgeStore) {
    && |a.cells| == |b.cells| && a.free == b.free
    && forall i :: 0 <= i < |a.cells| ==>
         a.cells[i].generation == b.cells[i].generation && a.cells[i].status == b.cells[i].status
  }

  lemma SameShapeResolves(a: EdgeStore, b: EdgeStore)
    requires SameShape(a, b)
    ensures forall h :: a.Resolves(h) <==> b.Resolves(h)
    ensures a.Valid() ==> b.Valid()
    ensures a.Live() == b.Live()
  {
  }

  /** The record `e` with its adjacent link set. */
  function WithAdjacent(c: Element<Edge>, e: EdgeIndex): Element<Edge> {
    c.(body := c.body.(adjacent := e))
  }

  /**
   * `make_edge_pair()`: insert two default edges and make their `adjacent`
   * links name each other; the first handle is returned. Both pointers
   * `get` returns are dereferenced, which is safe as long as no slot is
   * queued twice in the free list.
   */
  function MakeEdgePair(ks: KernelState): (r: (KernelState, EdgeIndex))
    requires ks.Valid() && ks.edges.HasRoom(2) && FreeDistinct(ks.edges.free)
    ensures r.0.Valid()
    ensures r.0.faces == ks.faces && r.0.vertices == ks.vertices && r.0.points == ks.points
    ensures r.0.edges.Live() == ks.edges.Live() + 2
    ensures r.0.edges.Room() == ks.edges.Room() - 2
    ensures FreeDistinct(r.0.edges.free)
  {
    var (s1, e0) := ks.edges.Emplaced(NewElement(EmptyEdge));
    var (s2, e1) := s1.Emplaced(NewElement(EmptyEdge));
    var s3 := s2.Put(e0.offset, WithAdjacent(s2.cells[e0.offset], e1));
    var s4 := s3.Put(e1.offset, WithAdjacent(s3.cells[e1.offset], e0));
    assert s4.Valid() by {
      assert |s4.cells| == |s2.cells| && s4.free == s2.free;
    }
    assert s4.Live() == s2.Live() && s4.Room() == s2.Room();
    (ks.(edges := s4), e0)
  }

  /**
   * The two edges `make_edge_pair` creates are default edges whose
   * `adjacent` links name each other, in two different slots; no other
   * slot changes, and on an arena without free cells they are the next
   * two offsets.
   */
  lemma MakeEdgePairTwins(ks: KernelState)
    requires ks.Valid() && ks.edges.HasRoom(2) && FreeDistinct(ks.edges.free)
    ensures var (k, e0) := MakeEdgePair(ks);
            var E := k.edges;
            && E.Get(e0).Some?
            && var e1 := E.Get(e0).value.body.adjacent;
            && e1.offset != e0.offset
            && E.Get(e0) == Some(NewElement(EmptyEdge.(adjacent := e1)).(generation := e0.generation))
            && E.Get(e1) == Some(NewElement(EmptyEdge.(adjacent := e0)).(generation := e1.generation))
            && (forall i :: 0 <= i < |ks.edges.cells| && i != e0.offset && i != e1.offset ==>
                  E.cells[i] == ks.edges.cells[i])
            && (ks.edges.free == [] ==>
                  e0 == Index(|ks.edges.cells|, 1) && e1 == Index(|ks.edges.cells| + 1, 1) && E.free == [])
  {
    var (s1, e0) := ks.edges.Emplaced(NewElement(EmptyEdge));
    var (s2, e1) := s1.Emplaced(NewElement(EmptyEdge));
    assert e1.offset != e0.offset by {
      if s1.free == [] {
        assert e1.offset == |s1.cells|;
      } else {
        assert e1 in s1.free;
      }
    }
    assert s2.cells[e0.offset] == s1.cells[e0.offset];
    var s3 := s2.Put(e0.offset, WithAdjacent(s2.cells[e0.offset], e1));
    var s4 := s3.Put(e1.offset, WithAdjacent(s3.cells[e1.offset], e0));
    assert MakeEdgePair(ks) == (ks.(edges := s4), e0);
    assert s4.cells[e0.offset] == WithAdjacent(s1.cells[e0.offset], e1);
    assert s4.cells[e1.offset] == WithAdjacent(s2.cells[e1.offset], e0);
    assert s4.Get(e0).value.body.adjacent == e1;
  }

  /** All three handles of `connect_edges` are truthy and resolve. */
  predicate Connectable(ks: KernelState, e: EdgeIndex, p: PointIndex, n: EdgeIndex) {
    && e.Truthy() && p.Truthy() && n.Truthy()
    && ks.edges.Resolves(e) && ks.points.Resolves(p) && ks.edges.Resolves(n)
  }

  /**
   * `connect_edges(in, point, out)`. Any falsy or unresolvable argument
   * returns the invalid vertex and changes nothing. Otherwise a vertex
   * {point, out} is emplaced; if its handle is falsy (the free list handed
   * out the dummy slot) the invalid vertex is returned without wiring.
   * Otherwise `in.next = out`, then `out.vertex = v` and `out.prev = in`,
   * and `v` joins the point's vertex set.
   */
  function ConnectEdges(ks: KernelState, e: EdgeIndex, p: PointIndex, n: EdgeIndex): (r: (KernelState, VertexIndex))
    requires ks.Valid()
    requires Connectable(ks, e, p, n) ==> ks.vertices.HasRoom(1)
    ensures r.0.Valid() && r.0.faces == ks.faces
    ensures SameShape(r.0.edges, ks.edges)
    ensures r.0.points.free == ks.points.free && |r.0.points.cells| == |ks.points.cells|
    ensures !Connectable(ks, e, p, n) ==> r == (ks, Invalid())
    ensures Connectable(ks, e, p, n) ==>
              var (vs, v) := ks.vertices.Emplaced(NewElement(Vertex(p, n)));
              && r.0.vertices == vs
              && r.0.vertices.Get(v) == Some(NewElement(Vertex(p, n)).(generation := v.generation))
              && (if v.Truthy() then r.1 == v else r.1 == Invalid() && r.0 == ks.(vertices := vs))
    ensures r.1.Truthy() ==>
              var E := r.0.edges;
              && E.cells[e.offset].body.next == n
              && E.cells[n.offset].body.vertex == r.1
              && E.cells[n.offset].body.prev == e
              && (e.offset != n.offset ==> E.cells[e.offset] == ks.edges.cells[e.offset].(body := ks.edges.cells[e.offset].body.(next := n)))
              && (e.offset != n.offset ==> E.cells[n.offset] == ks.edges.cells[n.offset].(body := ks.edges.cells[n.offset].body.(vertex := r.1, prev := e)))
              && (e.offset == n.offset ==> E.cells[e.offset] == ks.edges.cells[e.offset].(body := ks.edges.cells[e.offset].body.(next := n, vertex := r.1, prev := e)))
              && (forall i :: 0 <= i < |E.cells| && i != e.offset && i != n.offset ==> E.cells[i] == ks.edges.cells[i])
              && r.0.points.cells[p.offset] == ks.points.cells[p.offset].(body := ks.points.cells[p.offset].body.(vertices := ks.points.cells[p.offset].body.vertices + {r.1}))
              && (forall i :: 0 <= i < |ks.points.cells| && i != p.offset ==> r.0.points.cells[i] == ks.points.cells[i])
  {
    if !Connectable(ks, e, p, n) then (ks, Invalid())
    else
      var (vs, v) := ks.vertices.Emplaced(NewElement(Vertex(p, n)));
      if !v.Truthy() then (ks.(vertices := vs), Invalid())
      else
        var ce := ks.edges.cells[e.offset];
        var E1 := ks.edges.Put(e.offset, ce.(body := ce.body.(next := n)));
        var cn := E1.cells[n.offset];
        var E2 := E1.Put(n.offset, cn.(body := cn.body.(vertex := v, prev := e)));
        var cp := ks.points.cells[p.offset];
        var P1 := ks.points.Put(p.offset, cp.(body := cp.body.(vertices := cp.body.vertices + {v})));
        (KernelState(E2, ks.faces, vs, P1), v)
  }

  // ---------------------------------------------------------------------------
  // make_face

  /**
   * How the `while (current_index)` walk of `make_face` stops: back at the
   * root (Closed), at a falsy `next` (OpenEnd, which the source also
   * reports as a face), at a self-connected edge (Degenerate) or at an
   * unresolvable edge (Disconnected). OutOfFuel only says the bound given
   * to this function was too small.
   */
  datatype WalkEnd = Closed | OpenEnd | Degenerate | Disconnected | OutOfFuel

  /** The outcome of the walk and the edges it inserted into the face, in visiting order. */
  datatype Walk = Walk(end: WalkEnd, visited: seq<EdgeIndex>)

  function NextOf(E: EdgeStore, h: EdgeIndex): EdgeIndex
    requires h.offset < |E.cells|
  {
    E.cells[h.offset].body.next
  }

  /** The loop of `make_face` from `current`, at most `fuel` iterations. */
  function FaceWalk(E: EdgeStore, root: EdgeIndex, current: EdgeIndex, fuel: nat): (w: Walk)
    ensures forall i :: 0 <= i < |w.visited| ==> E.Resolves(w.visited[i]) && w.visited[i].Truthy()
    ensures |w.visited| <= fuel
    ensures w.end == Closed ==>
              |w.visited| > 0 && E.Resolves(w.visited[|w.visited| - 1]) && NextOf(E, w.visited[|w.visited| - 1]) == root
    decreases fuel
  {
    if !current.Truthy() then Walk(OpenEnd, [])
    else if fuel == 0 then Walk(OutOfFuel, [])
    else if !E.Resolves(current) then Walk(Disconnected, [])
    else
      var next := NextOf(E, current);
      if next == current then Walk(Degenerate, [current])
      else if next == root then Walk(Closed, [current])
      else
        var w := FaceWalk(E, root, next, fuel - 1);
        Walk(w.end, [current] + w.visited)
  }

  /** The walk from `root` stops for some bound: `make_face` terminates. */
  ghost predicate WalkEnds(E: EdgeStore, root: EdgeIndex) {
    exists fuel: nat :: FaceWalk(E, root, root, fuel).end != OutOfFuel
  }

  /** Given enough fuel, the walk's result does not depend on the fuel. */
  lemma {:induction false} FuelIrrelevant(E: EdgeStore, root: EdgeIndex, current: EdgeIndex, f1: nat, f2: nat)
    requires FaceWalk(E, root, current, f1).end != OutOfFuel
    requires FaceWalk(E, root, current, f2).end != OutOfFuel
    ensures FaceWalk(E, root, current, f1) == FaceWalk(E, root, current, f2)
    decreases f1
  {
    if current.Truthy() && E.Resolves(current) {
      var next := NextOf(E, current);
      if next != current && next != root {
        FuelIrrelevant(E, root, next, f1 - 1, f2 - 1);
      }
    }
  }

  /** The walk `make_face` performs, for a root whose walk ends. */
  ghost function TheWalk(E: EdgeStore, root: EdgeIndex): Walk
    requires WalkEnds(E, root)
  {
    var fuel: nat :| FaceWalk(E, root, root, fuel).end != OutOfFuel;
    FaceWalk(E, root, root, fuel)
  }

  /** Any bound under which the walk ends gives the walk `make_face` performs. */
  lemma TheWalkIs(E: EdgeStore, root: EdgeIndex, fuel: nat)
    requires FaceWalk(E, root, root, fuel).end != OutOfFuel
    ensures WalkEnds(E, root)
    ensures TheWalk(E, root) == FaceWalk(E, root, root, fuel)
  {
    var chosen: nat :| FaceWalk(E, root, root, chosen).end != OutOfFuel && TheWalk(E, root) == FaceWalk(E, root, root, chosen);
    FuelIrrelevant(E, root, root, chosen, fuel);
  }

  /** The slot offsets of a sequence of handles. */
  function Offsets(hs: seq<EdgeIndex>): set<nat> {
    set h | h in hs :: h.offset as nat
  }

  /** The edge record with its face link set. */
  function WithFace(c: Element<Edge>, f: FaceIndex): Element<Edge> {
    c.(body := c.body.(face := f))
  }

  /** The writes `elem->face_index = f` to the slots of `hs`, in order. */
  function Stamp(E: EdgeStore, hs: seq<EdgeIndex>, f: FaceIndex): EdgeStore
    decreases |hs|
  {
    if hs == [] then E
    else
      var S := Stamp(E, hs[..|hs| - 1], f);
      var h := hs[|hs| - 1];
      if h.offset < |S.cells| then S.Put(h.offset, WithFace(S.cells[h.offset], f)) else S
  }

  /** Stamping sets the face link of exactly the slots `hs` names and keeps everything else. */
  lemma {:induction false} StampSpec(E: EdgeStore, hs: seq<EdgeIndex>, f: FaceIndex)
    ensures SameShape(Stamp(E, hs, f), E)
    ensures forall i :: 0 <= i < |E.cells| ==>
              Stamp(E, hs, f).cells[i] == if i in Offsets(hs) then WithFace(E.cells[i], f) else E.cells[i]
    decreases |hs|
  {
    if hs != [] {
      var init := hs[..|hs| - 1];
      StampSpec(E, init, f);
      assert hs == init + [hs[|hs| - 1]];
      assert Offsets(hs) == Offsets(init) + {hs[|hs| - 1].offset as nat};
    }
  }

  /** `make_face` is defined where the root does not resolve or the walk from it ends. */
  ghost predicate MakeFaceDefined(ks: KernelState, root: EdgeIndex) {
    ks.Valid() && (ks.edges.Resolves(root) ==> ks.faces.HasRoom(1) && WalkEnds(ks.edges, root))
  }

  /**
   * `make_face(root)`. An unresolvable root returns the invalid face and
   * changes nothing. Otherwise a face {root, edges} is emplaced, every
   * visited edge is inserted into its edge set and stamped with it, and
   * the face handle is returned when the walk closed or ran into a falsy
   * `next`; a self-connected or disconnected chain returns the invalid
   * face but keeps the face slot and the stamps made so far.
   */
  ghost function MakeFace(ks: KernelState, root: EdgeIndex): (KernelState, FaceIndex)
    requires MakeFaceDefined(ks, root)
  {
    if !ks.edges.Resolves(root) then (ks, Invalid())
    else
      var (F1, f) := ks.faces.Emplaced(NewElement(EmptyFace));
      var w := TheWalk(ks.edges, root);
      var c := F1.cells[f.offset];
      var F2 := F1.Put(f.offset, c.(body := Face(root, set h | h in w.visited)));
      (ks.(edges := Stamp(ks.edges, w.visited, f), faces := F2),
       if w.end == Closed || w.end == OpenEnd then f else Invalid())
  }

  /**
   * What `make_face` does: the store stays valid and keeps its shape; an
   * unresolvable root changes nothing; otherwise the emplaced face holds the
   * root and the walked edges, each of which is stamped with it, and the
   * handle is returned exactly when the walk closed or ran into a falsy link.
   */
  lemma MakeFaceSpec(ks: KernelState, root: EdgeIndex)
    requires MakeFaceDefined(ks, root)
    ensures var r := MakeFace(ks, root);
            && r.0.Valid()
            && r.0.vertices == ks.vertices && r.0.points == ks.points
            && SameShape(r.0.edges, ks.edges)
            && (!ks.edges.Resolves(root) ==> r == (ks, Invalid()))
            && (ks.edges.Resolves(root) ==>
                  var (F1, f) := ks.faces.Emplaced(NewElement(EmptyFace));
                  var w := TheWalk(ks.edges, root);
                  && r.1 == (if w.end == Closed || w.end == OpenEnd then f else Invalid())
                  && r.0.faces == F1.Put(f.offset, NewElement(Face(root, set h | h in w.visited)).(generation := f.generation))
                  && r.0.edges == Stamp(ks.edges, w.visited, f))
  {
    if ks.edges.Resolves(root) {
      var (F1, f) := ks.faces.Emplaced(NewElement(EmptyFace));
      var w := TheWalk(ks.edges, root);
      StampSpec(ks.edges, w.visited, f);
      SameShapeResolves(Stamp(ks.edges, w.visited, f), ks.edges);
    }
  }

  /** The outcome of `make_face` once the face slot was taken, spelled out field by field. */
  lemma MakeFaceOutcome(ks: KernelState, root: EdgeIndex, F1: Store<Face, FaceKind>, f: FaceIndex, fuel: nat)
    requires MakeFaceDefined(ks, root) && ks.edges.Resolves(root)
    requires (F1, f) == ks.faces.Emplaced(NewElement(EmptyFace))
    requires FaceWalk(ks.edges, root, root, fuel).end != OutOfFuel
    ensures var w := FaceWalk(ks.edges, root, root, fuel);
            var face := NewElement(Face(root, set h | h in w.visited)).(generation := f.generation);
            MakeFace(ks, root)
            == (KernelState(Stamp(ks.edges, w.visited, f), F1.Put(f.offset, face), ks.vertices, ks.points),
                if w.end == Closed || w.end == OpenEnd then f else Invalid())
  {
    TheWalkIs(ks.edges, root, fuel);
    MakeFaceSpec(ks, root);
  }

  /**
   * The loop of `make_face` run on, from `current` with `visited` already
   * done and at most `k` more iterations, stops with the walk `w`.
   */
  ghost predicate Finishes(E: EdgeStore, root: EdgeIndex, current: EdgeIndex, k: nat, visited: seq<EdgeIndex>, w: Walk)
    decreases k
  {
    if !current.Truthy() then w == Walk(OpenEnd, visited)
    else if k == 0 then false
    else if !E.Resolves(current) then w == Walk(Disconnected, visited)
    else
      var next := NextOf(E, current);
      if next == current then w == Walk(Degenerate, visited + [current])
      else if next == root then w == Walk(Closed, visited + [current])
      else Finishes(E, root, next, k - 1, visited + [current], w)
  }

  /** A walk that ends is what the loop, run from the same edge, stops with. */
  lemma {:induction false} WalkFinishes(E: EdgeStore, root: EdgeIndex, current: EdgeIndex, k: nat, visited: seq<EdgeIndex>)
    requires FaceWalk(E, root, current, k).end != OutOfFuel
    ensures var fw := FaceWalk(E, root, current, k);
            Finishes(E, root, current, k, visited, Walk(fw.end, visited + fw.visited))
    decreases k
  {
    var fw := FaceWalk(E, root, current, k);
    if !current.Truthy() {
      assert visited + fw.visited == visited;
    } else if E.Resolves(current) {
      var next := NextOf(E, current);
      if next != current && next != root {
        WalkFinishes(E, root, next, k - 1, visited + [current]);
        var rest := FaceWalk(E, root, next, k - 1);
        assert visited + fw.visited == (visited + [current]) + rest.visited;
      }
    } else {
      assert visited + fw.visited == visited;
    }
  }

  /** The face record after one more edge joins its edge set. */
  lemma FaceRecordStep(root: EdgeIndex, hs: seq<EdgeIndex>, h: EdgeIndex, g: u32)
    ensures var c := NewElement(Face(root, set e | e in hs)).(generation := g);
            c.(body := c.body.(edges := c.body.edges + {h})) == NewElement(Face(root, set e | e in hs + [h])).(generation := g)
  {
    assert (set e | e in hs + [h]) == (set e | e in hs) + {h};
  }

  /** Stamping keeps which handles resolve and where each edge's `next` points. */
  lemma StampResolves(E: EdgeStore, hs: seq<EdgeIndex>, f: FaceIndex, h: EdgeIndex)
    ensures Stamp(E, hs, f).Resolves(h) == E.Resolves(h)
    ensures E.Resolves(h) ==> Stamp(E, hs, f).cells[h.offset].body.next == NextOf(E, h)
  {
    StampSpec(E, hs, f);
  }

  /** Stamping one more edge is one more write of its face link. */
  lemma StampStep(E: EdgeStore, hs: seq<EdgeIndex>, h: EdgeIndex, f: FaceIndex)
    requires h.offset < |Stamp(E, hs, f).cells|
    ensures var S := Stamp(E, hs, f);
            S.Put(h.offset, WithFace(S.cells[h.offset], f)) == Stamp(E, hs + [h], f)
  {
    assert (hs + [h])[..|hs|] == hs;
  }

  // ---------------------------------------------------------------------------
  // Properties of the walk

  /** Each step of the walk follows the `next` link of the edge before it. */
  lemma {:induction false} WalkFollowsNext(E: EdgeStore, root: EdgeIndex, current: EdgeIndex, fuel: nat)
    ensures var w := FaceWalk(E, root, current, fuel);
            && (|w.visited| > 0 ==> w.visited[0] == current)
            && forall i :: 0 <= i < |w.visited| - 1 ==> NextOf(E, w.visited[i]) == w.visited[i + 1]
    decreases fuel
  {
    if current.Truthy() && fuel > 0 && E.Resolves(current) {
      var next := NextOf(E, current);
      if next != current && next != root {
        WalkFollowsNext(E, root, next, fuel - 1);
      }
    }
  }

  /** The walk from any visited edge is the rest of the walk. */
  lemma {:induction false} WalkSuffix(E: EdgeStore, root: EdgeIndex, current: EdgeIndex, fuel: nat, i: nat)
    requires i < |FaceWalk(E, root, current, fuel).visited|
    ensures var w := FaceWalk(E, root, current, fuel);
            i <= fuel && FaceWalk(E, root, w.visited[i], fuel - i) == Walk(w.end, w.visited[i..])
    decreases fuel
  {
    var w := FaceWalk(E, root, current, fuel);
    WalkFollowsNext(E, root, current, fuel);
    if i > 0 {
      var next := NextOf(E, current);
      var w' := FaceWalk(E, root, next, fuel - 1);
      assert w.visited == [current] + w'.visited;
      WalkSuffix(E, root, next, fuel - 1, i - 1);
      assert w.visited[i..] == w'.visited[i - 1..];
    }
  }

  /**
   * A walk that stops visits every edge at most once: a face's edge set
   * has exactly as many members as the loop has edges.
   */
  lemma WalkIsSimple(E: EdgeStore, root: EdgeIndex, current: EdgeIndex, fuel: nat)
    requires FaceWalk(E, root, current, fuel).end != OutOfFuel
    ensures var w := FaceWalk(E, root, current, fuel);
            forall i, j :: 0 <= i < j < |w.visited| ==> w.visited[i] != w.visited[j]
  {
    var w := FaceWalk(E, root, current, fuel);
    forall i, j | 0 <= i < j < |w.visited|
      ensures w.visited[i] != w.visited[j]
    {
      if w.visited[i] == w.visited[j] {
        WalkSuffix(E, root, current, fuel, i);
        WalkSuffix(E, root, current, fuel, j);
        FuelIrrelevant(E, root, w.visited[i], fuel - i, fuel - j);
        assert false;
      }
    }
  }

  lemma DistinctSeqSetSize(s: seq<EdgeIndex>)
    requires forall i, j :: 0 <= i < j < |s| ==> s[i] != s[j]
    ensures |set h | h in s| == |s|
  {
    if s != [] {
      var t := s[1..];
      DistinctSeqSetSize(t);
      assert (set h | h in s) == (set h | h in t) + {s[0]};
      assert s[0] !in t;
    }
  }

  /**
   * A closed walk is a loop: it starts at the root, each edge's `next` is
   * the following edge, the last edge's `next` is the root, and its
   * edges are pairwise distinct, as many as the face's edge set holds.
   */
  lemma ClosedWalkIsLoop(E: EdgeStore, root: EdgeIndex)
    requires WalkEnds(E, root) && TheWalk(E, root).end == Closed
    ensures var w := TheWalk(E, root).visited;
            && |w| > 0 && w[0] == root
            && (forall i :: 0 <= i < |w| - 1 ==> NextOf(E, w[i]) == w[i + 1])
            && NextOf(E, w[|w| - 1]) == root
            && |set h | h in w| == |w|
  {
    var fuel: nat :| FaceWalk(E, root, root, fuel).end != OutOfFuel;
    TheWalkIs(E, root, fuel);
    WalkFollowsNext(E, root, root, fuel);
    WalkIsSimple(E, root, root, fuel);
    DistinctSeqSetSize(TheWalk(E, root).visited);
  }

  /**
   * A chain whose root's `next` is falsy still makes a face: `make_face`
   * returns the new face's handle for an open chain, as for a closed one.
   */
  lemma OpenChainMakesFace(ks: KernelState, root: EdgeIndex)
    requires ks.Valid() && ks.faces.HasRoom(1)
    requires root.Truthy() && ks.edges.Resolves(root) && !NextOf(ks.edges, root).Truthy()
    ensures WalkEnds(ks.edges, root)
    ensures TheWalk(ks.edges, root) == Walk(OpenEnd, [root])
    ensures MakeFace(ks, root).1 == ks.faces.Emplaced(NewElement(EmptyFace)).1
  {
    assert FaceWalk(ks.edges, root, root, 2) == Walk(OpenEnd, [root]);
    TheWalkIs(ks.edges, root, 2);
    MakeFaceSpec(ks, root);
  }

  /** An edge whose `next` is itself: `make_face` fails but keeps the face slot and that edge's stamp. */
  lemma SelfLoopIsDegenerate(ks: KernelState, root: EdgeIndex)
    requires ks.Valid() && ks.faces.HasRoom(1)
    requires root.Truthy() && ks.edges.Resolves(root) && NextOf(ks.edges, root) == root
    ensures WalkEnds(ks.edges, root)
    ensures TheWalk(ks.edges, root) == Walk(Degenerate, [root])
    ensures MakeFace(ks, root).1 == Invalid()
    ensures MakeFace(ks, root).0.faces.Live() == ks.faces.Live() + 1
    ensures |MakeFace(ks, root).0.edges.cells| == |ks.edges.cells|
    ensures MakeFace(ks, root).0.edges.cells[root.offset].body.face == ks.faces.Emplaced(NewElement(EmptyFace)).1
  {
    assert FaceWalk(ks.edges, root, root, 1) == Walk(Degenerate, [root]);
    TheWalkIs(ks.edges, root, 1);
    MakeFaceSpec(ks, root);
    var w := TheWalk(ks.edges, root);
    var (F1, f) := ks.faces.Emplaced(NewElement(EmptyFace));
    StampSpec(ks.edges, w.visited, f);
    assert root.offset in Offsets(w.visited);
  }

  /**
   * With a generation-0 root, `next == root` never holds for a stored link
   * with a real generation: around a two-edge cycle through the root's own
   * slot the walk never stops, for any bound.
   */
  lemma {:induction false} WildcardRootNeverCloses(E: EdgeStore, root: EdgeIndex, a: EdgeIndex, fuel: nat)
    requires root.Truthy() && root.generation == 0
    requires a.Truthy() && a.offset != root.offset && E.Resolves(a) && NextOf(E, a) != a
    requires root.offset < |E.cells|
    requires var r := NextOf(E, a);
             r.offset == root.offset && r.generation != 0 && E.Resolves(r) && NextOf(E, r) == a
    requires NextOf(E, root) == a
    ensures FaceWalk(E, root, root, fuel).end == OutOfFuel
    ensures FaceWalk(E, root, a, fuel).end == OutOfFuel
    decreases fuel
  {
    if fuel > 0 {
      WildcardRootNeverCloses(E, root, a, fuel - 1);
      var r := NextOf(E, a);
      if fuel > 1 {
        WildcardRootNeverCloses(E, root, a, fuel - 2);
        assert FaceWalk(E, root, r, fuel - 1).end == FaceWalk(E, root, a, fuel - 2).end;
      }
    }
  }

  /** So `make_face` does not terminate on such a root. */
  lemma WildcardRootHasNoWalk(E: EdgeStore, root: EdgeIndex, a: EdgeIndex)
    requires root.Truthy() && root.generation == 0
    requires a.Truthy() && a.offset != root.offset && E.Resolves(a) && NextOf(E, a) != a
    requires root.offset < |E.cells|
    requires var r := NextOf(E, a);
             r.offset == root.offset && r.generation != 0 && E.Resolves(r) && NextOf(E, r) == a
    requires NextOf(E, root) == a
    ensures !WalkEnds(E, root)
  {
    if WalkEnds(E, root) {
      var f: nat :| FaceWalk(E, root, root, f).end != OutOfFuel;
      WildcardRootNeverCloses(E, root, a, f);
    }
  }
}
