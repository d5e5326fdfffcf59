# hedge-cpp half-edge mesh, modelled in Dafny

This project models the core of `hedge`, a half-edge mesh library in C++.
Mesh elements live in generational arenas and are reached through typed
handles. The model has these parts:

- **Handles** (`Handles`). `index_t` is a pair `(offset, generation)` with a
  phantom element kind. Offset 0 is the invalid handle. Equality is strict
  on both fields, and `<`/`>` compare offsets only.
- **Element records** (`Elements`). Edge, face, vertex and point records
  carry only handles, sets of handles, status, tag and generation. A
  position is a triple of reals, standing for the source's `float`
  coordinates. The core stores and returns it and never inspects it.
- **Arena** (`Arena`). `element_vector_t` is modelled twice:
  - as the value `Store` (cells plus free list), with `Emplaced`, `Removed`,
    `Swapped`, `Get` and the count;
  - as the class `ElementVector`, whose methods update two fields in place
    and are proved equal to those functions.

  Slot 0 is a dummy record. Generation 0 in a handle is a wildcard for
  `get`. The free list hands out its lowest offset first, and generations
  wrap as the source makes them wrap.
- **Kernel** (`Topology`, `KernelImpl`). `make_edge_pair`, `connect_edges`
  and `make_face` are modelled over the four arenas of `basic_kernel_t`.
  They are first functions of the kernel value, then methods of a
  `Kernel` class that owns four `ElementVector`s. `make_face`'s `while` loop
  is a loop, and its walk of the `next` links is specified by `FaceWalk`.
- **Proxies** (`Proxies`). `element_fn_t` and its edge/face/vertex/point
  subclasses resolve a handle against the kernel. Each navigation
  accessor degrades to the `invalid` proxy. The module also has
  `is_boundary`, `points` and `vertices`.
- **Builders and mesh** (`Builders`, `MeshImpl`).
  - `edge_loop_builder_t` is a state machine over four handles.
  - `mesh_builder_t::add_triangle` has four overloads.
  - `mesh_t` exposes its counts.

  Each appears as a function of the kernel value and as a class whose
  methods are proved equal to that function.
- **Triangles** (`Triangles`). On arenas without free cells, these lemmas
  give independent, record-by-record descriptions of what the triangle
  builders and the raw kernel calls produce. They are proved equal to the
  builder functions: the loop's `next`/`prev` cycle, the face's edge set,
  the twins, the points of each edge, and which edges are on the boundary.
- **Scenarios** (`Scenarios`). The repository's current tests, over the
  model:
  - the point arena after emplaces and removes;
  - the triangle built from kernel calls;
  - the quad built with the mesh builder;
  - the loop builder given bad input.
- **Prototype** (`Prototype`). The earlier design in `scratch/main.cpp`,
  each part its own member:
  - a `size_t` handle whose invalid value is the maximum index, and whose
    generation 0 is a wildcard in equality;
  - an append-only buffer class;
  - proxies with `next`/`prev`/`adjacent`;
  - `connect_to` and `make_edge_pair`;
  - the two three-edge loops that `main` asserts.

Behaviour the source has and the model states as it is:

- **`make_face` can run forever.** It does so when the `next` chain cycles
  away from the root, or when the root handle has generation 0, because
  the strict `==` never matches again.
  - The model's `MakeFace` requires that the walk ends (`WalkEnds`).
  - `WildcardRootNeverCloses` and `WildcardRootHasNoWalk` show a chain on
    which no amount of fuel ends the walk.
- **`make_face` accepts an open chain.** A `next` with offset 0 ends the
  loop and returns a valid face (`OpenChainMakesFace`).
  - Because slot 0 always resolves, the invalid root handle also "makes" an
    empty face with no edges (`FalsyFirstPointMakesEmptyFace`). On a face
    arena with no free cells that face is appended and its handle is
    truthy; otherwise it takes the least queued offset and is falsy exactly
    when face slot 0 was queued.
  - A self-connected edge leaves the face allocated and the edge stamped
    (`SelfLoopIsDegenerate`).
- **`remove` of a generation-0 handle** always resolves. It can therefore
  free a slot twice, and can free the dummy slot 0. Both are modelled as
  duplicate free-list entries (`WildcardDoubleFree`,
  `RemovingInvalidFreesSentinel`).
- **Generation wrap-around.** `remove` increments the generation and sets it
  to 1 only when the result equals the 32-bit maximum. A generation of
  `0xFFFFFFFF` itself wraps to 0 (`NextGeneration`).

Facts about the code that a reader might not expect:

- `remove` skips only the generation `0xFFFFFFFF`. A generation of
  `0xFFFFFFFF` therefore wraps to 0, not to 1 (hedge/hedge.cpp:102-106).
- `add_triangle(p0, p1, p2)` makes an edge pair for each side. A triangle
  on new arenas has six edges, and its sides are rooted at offsets 1, 3
  and 5, as `tests/high_level_api.cpp` expects. Two older tests expect
  something else. `hedge/hedge_test.cpp` expects a new point to have
  generation 0 (line 85) and a triangle to have three edges (lines 194 and
  234). The second scenario of `hedge/tests/kernel_operations.cpp` expects
  three edges besides the dummy one (line 181). Both tests use members the
  current headers no longer declare, and the model does not follow them.
- `edge_loop_builder_t(mesh, pindex)` allocates only an edge pair. It does
  not allocate a vertex.

## Model

| member | source | states |
|---|---|---|
| Handles.Index.Reset | hedge/hedge.hpp:77-81 | a reset handle is the invalid handle (0, 0) and is falsy |
| Handles.Invalid | hedge/hedge.hpp:59-63 | the default handle and each type's `invalid` constant is (0, 0) |
| Handles.FromOffset | hedge/hedge.hpp:65-69 | an offset-only handle has generation 0 and is truthy iff its offset is non-zero |
| Handles.EqualityIsStrict | hedge/hedge.hpp:83-90 | `==` holds iff both offset and generation agree; `!=` is its negation |
| Handles.OrderIgnoresGeneration | hedge/hedge.hpp:92-99 | `<` and `>` compare offsets only: handles at one offset are unordered, `<` is a strict total preorder, `>` is `<` flipped |
| Handles.TruthyIsOffsetOnly | hedge/hedge.hpp:101-104 | a handle is truthy iff its offset is non-zero, whatever its generation; (0, 7) is falsy but not `invalid` |
| Handles.Index.Truthy | hedge/hedge.hpp:101-104 | `operator bool`: the offset is non-zero; its meaning, independent of the generation, is stated by `TruthyIsOffsetOnly` |
| Handles.Less | hedge/hedge.hpp:92-95 | `operator<` on offsets alone; `OrderIgnoresGeneration` states that it is a strict order on offsets and leaves handles at one offset unordered |
| Handles.Greater | hedge/hedge.hpp:96-99 | `operator>` is `<` swapped; `OrderIgnoresGeneration` states that it holds iff the second offset is the smaller |
| Handles.NotEqual | hedge/hedge.hpp:83-86 | `operator!=`; `EqualityIsStrict` states that it holds iff the offsets or the generations differ |
| Handles.CoreTypesHandleChecks | hedge/tests/core_types.cpp:10-33 | the default edge handle is (0, 0), differs from (1, 1), and (20, 0) > (1, 1) |
| Elements.NewElement | hedge/hedge.hpp:218-224 | a new record is active, tag 0, generation 1, with the given body |
| Elements.NewPoint | hedge/hedge.cpp:536-538 | `point_t(p)` is a new record holding position p and no vertices |
| Arena.NextGeneration | hedge/hedge.cpp:102-106 | the bumped generation always differs from the old one and is never the maximum; g+1 below the maximum, 1 when g+1 is the maximum, 0 when g is the maximum |
| Arena.ArgMin | hedge/hedge.cpp:37-39 | the free list's top is an entry of least offset, the first such |
| Arena.Store.Get | hedge/hedge.cpp:53-77 | a handle resolves iff its offset is in range and its generation is 0 or the slot's; then the slot's record is returned |
| Arena.Store.Count | hedge/hedge.cpp:49-51 | `count()`: the live count, size less free entries, in `size_t`; `CountSteps` states that an emplace adds one, a resolving remove takes one away and any other remove keeps it, and `Fresh` that a new arena counts 1 |
| Arena.Store.Put | hedge/hedge.cpp:84-86 | writing through a resolved record replaces that cell and nothing else |
| Arena.Store.Emplaced | hedge/hedge.cpp:79-96 | an emplace reuses the free entry of least offset with its stored generation, or appends at the old size with the record's generation; the count grows by 1, other cells are unchanged and the new handle resolves to the record |
| Arena.Store.Removed | hedge/hedge.cpp:98-110 | an unresolved handle changes nothing; otherwise the slot goes inactive with the next generation, (offset, new generation) joins the free list, the count drops by 1 and a non-wildcard handle no longer resolves |
| Arena.Store.Swapped | hedge/hedge.cpp:113-124 | when both resolve the two records trade places with each generation bumped (wrapping mod 2^32); otherwise nothing changes |
| Arena.Fresh | hedge/hedge.cpp:41-43 | a new arena holds only its dummy record: count 1 |
| Arena.PutTwice | hedge/hedge.cpp:84-86 | a second write to one cell overrides the first |
| Arena.CountSteps | hedge/hedge.cpp:49-51 | `count()` (size minus free list, in `size_t`) rises by 1 per emplace, drops by 1 per resolving remove, and is unchanged by a remove that does not resolve |
| Arena.RemoveThenEmplace | hedge/hedge.cpp:79-110 | when every queued offset is higher than the removed one (in particular when none is queued), removing a live slot and then emplacing reuses that slot with the bumped generation, leaves the older queue and the live count as they were, and a stale handle with a non-zero generation no longer resolves |
| Arena.WildcardDoubleFree | hedge/hedge.cpp:53-65 | removing through a generation-0 handle twice frees the same offset twice and lowers the count by 2 |
| Arena.RemovingInvalidFreesSentinel | hedge/hedge.cpp:98-110 | the invalid handle resolves to the dummy slot, so removing it puts offset 0 on the free list |
| Arena.LiveHandlesAreUnique | hedge/hedge.cpp:53-65 | two resolving non-wildcard handles at one offset are the same handle |
| Arena.ElementVector.constructor | hedge/hedge.cpp:41-43 | a new vector's value is the fresh arena |
| Arena.ElementVector.Emplace | hedge/hedge.cpp:79-96 | the in-place emplace leaves the value and handle that `Store.Emplaced` gives |
| Arena.ElementVector.Remove | hedge/hedge.cpp:98-110 | the in-place remove leaves the value that `Store.Removed` gives |
| Arena.ElementVector.Swap | hedge/hedge.cpp:113-124 | the in-place swap leaves the value that `Store.Swapped` gives |
| Arena.ElementVector.Put | hedge/hedge.cpp:84-86 | a write through a returned record pointer leaves the value that `Store.Put` gives |
| Arena.ElementVector.Count | hedge/hedge.cpp:49-51 | the object's `count()` is `Store.Count` of its value, so `CountSteps` and `Fresh` carry over to it |
| Arena.ElementVector.Get | hedge/hedge.cpp:53-77 | the object's `get` is `Store.Get` of its value: a record exactly when the offset is in range and the generation is 0 or matches |
| Topology.FreshKernel | hedge/hedge.cpp:248-253 | a new `basic_kernel_t` is four valid arenas with count 1 each |
| Topology.SameShapeResolves | hedge/hedge.cpp:53-65 | link rewrites keep generations, so the same handles resolve and the count is kept |
| Topology.MakeEdgePair | hedge/hedge.cpp:133-143 | only the edge arena changes, its count grows by 2 and free offsets stay distinct |
| Topology.MakeEdgePairTwins | hedge/hedge.cpp:133-143 | the two new edges are at different offsets and name each other as `adjacent`, no other cell changes, and with no free cells they are (n, 1) and (n+1, 1) |
| Topology.ConnectEdges | hedge/hedge.cpp:189-244 | a falsy or unresolved handle changes nothing and gives the invalid vertex; otherwise a vertex {p, next} is emplaced, `in.next`, `next.prev`, `next.vertex` are set, the vertex joins p's set, and nothing else changes |
| Topology.FaceWalk | hedge/hedge.cpp:158-184 | every visited edge resolves and is truthy; a closed walk's last edge links back to the root |
| Topology.FuelIrrelevant | hedge/hedge.cpp:158-184 | any two bounds on which the walk ends give the same walk |
| Topology.TheWalkIs | hedge/hedge.cpp:158-184 | the walk is what any sufficient bound computes |
| Topology.StampSpec | hedge/hedge.cpp:165-166 | stamping gives exactly the visited cells the new face and leaves the rest unchanged |
| Topology.Stamp | hedge/hedge.cpp:165-166 | the `face_index` writes of the walk, in order; `StampSpec` states that exactly the visited in-range cells get the face and every other cell is unchanged, and `StampResolves` that no generation or `next` link changes |
| Topology.MakeFaceSpec | hedge/hedge.cpp:147-187 | an unresolved root gives the invalid face and no change; otherwise a face is emplaced with the root and the visited set, each visited edge is stamped, and the handle is returned only if the walk closed or ended open |
| Topology.MakeFace | hedge/hedge.cpp:147-187 | `make_face` on a loop whose walk ends; what it leaves is stated by `MakeFaceSpec`, and the loop proved against it is `KernelImpl.Kernel.WalkFace` |
| Topology.MakeFaceOutcome | hedge/hedge.cpp:147-187 | the result of `make_face` computed from any walk bound that suffices |
| Topology.WalkFinishes | hedge/hedge.cpp:158-184 | the walk as an accumulator loop ends in the state the function computes |
| Topology.FaceRecordStep | hedge/hedge.cpp:165 | inserting an edge into the face record's set matches adding it to the visited prefix |
| Topology.StampResolves | hedge/hedge.cpp:166 | stamping keeps every handle's resolution and every `next` link |
| Topology.StampStep | hedge/hedge.cpp:166 | stamping one more visited edge is one more write through `get` |
| Topology.WalkFollowsNext | hedge/hedge.cpp:158-184 | the walk starts at its start edge and each step follows `next` |
| Topology.WalkSuffix | hedge/hedge.cpp:158-184 | the walk from a visited edge is the rest of the walk |
| Topology.WalkIsSimple | hedge/hedge.cpp:158-184 | an ended walk visits no edge twice |
| Topology.ClosedWalkIsLoop | hedge/hedge.cpp:178-181 | a closed walk starts at the root, follows `next`, returns to the root, and its edge set has as many members as steps |
| Topology.OpenChainMakesFace | hedge/hedge.cpp:159-186 | a root whose `next` is offset 0 still yields a valid new face with one edge |
| Topology.SelfLoopIsDegenerate | hedge/hedge.cpp:170-176 | a self-connected root gives the invalid face, yet the face slot stays allocated and the root keeps its stamp |
| Topology.WildcardRootNeverCloses | hedge/hedge.cpp:178-181 | with a generation-0 root on a two-edge cycle no fuel ends the walk |
| Topology.WildcardRootHasNoWalk | hedge/hedge.cpp:158-184 | so `make_face` never returns on that input |
| KernelImpl.Kernel.constructor | hedge/hedge.cpp:248-253 | a new kernel's value is the fresh kernel over four fresh arenas |
| KernelImpl.Kernel.EmplacePoint | hedge/hedge.cpp:294-296 | `emplace(point_t)` changes only the point arena, as its `Emplaced` does |
| KernelImpl.Kernel.MakeEdgePair | hedge/hedge.cpp:133-143 | the in-place pair leaves the value and handle of `Topology.MakeEdgePair` |
| KernelImpl.Kernel.ConnectEdges | hedge/hedge.cpp:189-244 | the in-place connect leaves the value and vertex of `Topology.ConnectEdges` |
| KernelImpl.Kernel.MakeFace | hedge/hedge.cpp:147-187 | the in-place face build leaves the value and face of `Topology.MakeFace` |
| KernelImpl.Kernel.WalkFace | hedge/hedge.cpp:158-184 | the `while` loop stamps exactly the walked edges, fills the face's set with them and reports whether it ended by closing or at offset 0 |
| Proxies.InvalidFn | hedge/hedge.cpp:20-23 | each type's `invalid` proxy has a null kernel and the invalid handle |
| Proxies.ElementOf | hedge/hedge.hpp:311-321 | `element()` is present iff the kernel is bound and the handle resolves, and is then the slot's record |
| Proxies.Follow | hedge/hedge.cpp:542-576 | a navigation accessor gives the `invalid` proxy when the element is absent, else a bound proxy over the stored link |
| Proxies.IsBoundary | hedge/hedge.cpp:578-593 | an edge is not on the boundary iff it resolves, has a truthy face and its twin has a truthy face |
| Proxies.FaceEdges | hedge/hedge.cpp:632-636 | a resolving face's `edges()` is its stored set |
| Proxies.PointPosition | hedge/hedge.cpp:662-666 | a resolving point's `position()` is its stored position |
| Proxies.NullProxyIsFalsy | hedge/tests/core_types.cpp:42-55 | a null-kernel proxy has no element and is falsy, as is every `invalid` proxy |
| Proxies.InvalidHandleIsFalsy | hedge/hedge.hpp:296-299 | a bound proxy over offset 0 is falsy although `element()` finds the dummy record |
| Proxies.TruthyMeans | hedge/hedge.hpp:296-299 | a proxy is truthy iff bound, non-zero offset and resolving |
| Proxies.EqualityIgnoresKernel | hedge/hedge.hpp:301-309 | proxy `==` compares handles only, `!=` is its negation, and bound and null proxies of one handle are equal |
| Proxies.Truthy | hedge/hedge.hpp:296-299 | `operator bool`; `TruthyMeans` states it is true exactly for a bound proxy whose handle has a non-zero offset and resolves |
| Proxies.Equals | hedge/hedge.hpp:301-304 | proxy `==`; `EqualityIgnoresKernel` states that it compares handles only, so a null and a bound proxy over one handle are equal |
| Proxies.Differs | hedge/hedge.hpp:306-309 | proxy `!=`; `EqualityIgnoresKernel` states that it is the negation of `==` |
| Proxies.InvalidStaysInvalid | hedge/hedge.cpp:542-576 | from an absent edge every chain of `next`/`prev`/`adjacent` is the `invalid` proxy and falsy |
| Proxies.InvalidVertexAndFace | hedge/hedge.cpp:612-630 | an absent vertex's `edge()`/`point()` and an absent face's `root_edge()` are `invalid` |
| Proxies.InvalidEdgeEnds | hedge/hedge.cpp:578-605 | an absent edge's `points()` and `vertices()` are both `invalid`, and it is on the boundary |
| Proxies.BoundaryByFaces | hedge/hedge.cpp:578-593 | a faceless edge is on the boundary; an edge with a face is on it iff its twin has none |
| Proxies.EdgePointsOfWiredEdge | hedge/hedge.cpp:595-599 | `points()` of a wired edge is its vertex's point and its `next`'s vertex's point |
| Proxies.AccessorsFollowLinks | hedge/hedge.cpp:566-630 | on a present record each accessor is a bound proxy over the stored link, and `points()`/`vertices()` take the vertex and `next`'s vertex |
| Proxies.EdgeVertex | hedge/hedge.cpp:566 | `vertex()`: the stored vertex on a present edge (`AccessorsFollowLinks`), else `invalid` (`InvalidStaysInvalid`) |
| Proxies.EdgeFace | hedge/hedge.cpp:568 | `face()`: the stored face on a present edge (`AccessorsFollowLinks`), else `invalid` (`InvalidStaysInvalid`) |
| Proxies.Next | hedge/hedge.cpp:570 | `next()`: the stored successor on a present edge (`AccessorsFollowLinks`), else `invalid` for every chain (`InvalidStaysInvalid`) |
| Proxies.Prev | hedge/hedge.cpp:572 | `prev()`: the stored predecessor on a present edge (`AccessorsFollowLinks`), else `invalid` (`InvalidStaysInvalid`) |
| Proxies.Adjacent | hedge/hedge.cpp:574-576 | `adjacent()`: the stored twin on a present edge (`AccessorsFollowLinks`), else `invalid` (`InvalidStaysInvalid`) |
| Proxies.EdgePoints | hedge/hedge.cpp:595-599 | `points()`: the points of the vertex and of `next`'s vertex (`AccessorsFollowLinks`, `EdgePointsOfWiredEdge`), both `invalid` on an absent edge (`InvalidEdgeEnds`) |
| Proxies.EdgeVertices | hedge/hedge.cpp:601-605 | `vertices()`: the vertex and `next`'s vertex (`AccessorsFollowLinks`), both `invalid` on an absent edge (`InvalidEdgeEnds`) |
| Proxies.VertexEdge | hedge/hedge.cpp:612 | `vertex_fn_t::edge()`: the stored edge on a present vertex (`AccessorsFollowLinks`), else `invalid` (`InvalidVertexAndFace`) |
| Proxies.VertexPoint | hedge/hedge.cpp:614 | `vertex_fn_t::point()`: the stored point on a present vertex (`AccessorsFollowLinks`), else `invalid` (`InvalidVertexAndFace`) |
| Proxies.RootEdge | hedge/hedge.cpp:630 | `root_edge()`: the stored root on a present face (`AccessorsFollowLinks`), else `invalid` (`InvalidVertexAndFace`) |
| Builders.StartAtPoint | hedge/hedge.cpp:400-412 | a falsy point leaves the kernel and an unstarted builder; otherwise one edge pair is made and it is root and last edge, the point root and last point |
| Builders.StartAtEdge | hedge/hedge.cpp:414-448 | a started builder has the given edge as root and last edge and two truthy points |
| Builders.AddPoint | hedge/hedge.cpp:450-462 | without a last point nothing changes; otherwise one edge pair is used, the last edge and point advance, and the roots stay |
| Builders.Close | hedge/hedge.cpp:464-479 | the root edge is always returned; with no last point, or last point equal to the root, nothing changes; otherwise the last point is reset |
| Builders.TriangleLoop | hedge/hedge.cpp:353-356 | the three-point loop changes no face |
| Builders.TriangleLoopSteps | hedge/hedge.cpp:353-356 | each chained step's precondition holds after the previous one and the chain computes `TriangleLoop` |
| Builders.EmplaceThree | hedge/hedge.cpp:340-346 | the three given point records are emplaced as they are; only the point arena changes, and its count grows by 3 |
| Builders.AddTriangle | hedge/hedge.cpp:348-358 | the three-point loop then `make_face`; on clean arenas with usable points and a last point other than the first it is defined and gives `TriangleMesh` and face (size, 1) (`Triangles.AddTriangleAppends`), wired as `Triangles.TriangleWiring` states |
| Builders.AddTriangleOfPoints | hedge/hedge.cpp:340-346 | the given records are emplaced unchanged (`EmplaceThree`), then the index overload runs on their handles |
| Builders.AddTriangleFromEdge | hedge/hedge.cpp:370-385 | a falsy edge gives invalid and no change (`FalsyEdgeAddsNothing`); on clean arenas with a free twin it gives `FromEdgeMesh` and a new face (`Triangles.AddTriangleFromEdgeAppends`), wired as `Triangles.FromEdgeWiring` states |
| Builders.AddTriangleFromEdgeAt | hedge/hedge.cpp:360-368 | a falsy edge gives invalid before any emplace (`FalsyEdgeAddsNothing`); otherwise the given record is emplaced unchanged, then the index overload runs |
| Builders.FromEdgeLoop | hedge/hedge.cpp:379-383 | the edge-started loop changes no face |
| Builders.FromEdgeLoopSteps | hedge/hedge.cpp:379-383 | each chained step's precondition holds after the previous one and the chain computes `FromEdgeLoop` |
| Builders.MeshCount | hedge/hedge.cpp:494-505 | `mesh_t` counts are the kernel count less one, as a `size_t` |
| Builders.InertBuilder | hedge/hedge.cpp:450-453 | an unstarted builder's `add_point` and `close` change nothing and return the root edge |
| Builders.InvalidStartBuildsNothing | hedge/tests/core_types.cpp:73-91 | a loop started at point 0 then given points 1 and 2 changes nothing and returns the invalid edge |
| Builders.CloseAtRootPoint | hedge/hedge.cpp:468-471 | closing when the last point is the root point changes nothing and returns the root edge |
| Builders.ClosedBuilderIsInert | hedge/hedge.cpp:472-478 | after a successful close later `add_point`/`close` are no-ops returning the same root |
| Builders.CloseConnects | hedge/hedge.cpp:464-479 | on any arena, free cells included, with a last point set and different from the root point, `close` resets the last point and returns the root; a successful connect makes the last edge's `next` the root and the root's `prev` the last edge, gives the root a new vertex {last point, root edge}, and records that vertex at the last point |
| Builders.AddPointExtends | hedge/hedge.cpp:454-460 | on any arena, free cells included, a successful connect links the old last edge and the new edge by `next`/`prev`, gives the new edge a new vertex {last point, new edge}, and records that vertex at the last point |
| Builders.StartAtEdgeCases | hedge/hedge.cpp:414-448 | the edge-started builder starts iff the edge is truthy, faceless, its twin resolves and the twin's points are truthy, and then takes the twin's points |
| Builders.FreshMeshIsEmpty | hedge/tests/core_types.cpp:57-71 | a new mesh has kernel counts 1 and mesh counts 0 |
| Builders.MeshCountIsLiveLessOne | hedge/hedge.cpp:494-505 | for a non-empty arena the mesh count is the live count less one |
| Builders.FalsyFirstPointMakesEmptyFace | hedge/hedge.cpp:147-159 | `add_triangle` with a falsy first point changes no edge, yet `make_face` emplaces a face with an invalid root and no edges; with no free face cells it is appended and truthy, otherwise it takes a queued offset and is falsy exactly when face slot 0 was queued |
| Builders.FalsyEdgeAddsNothing | hedge/hedge.cpp:360-378 | both edge-based `add_triangle` overloads return the invalid face for a falsy edge and change nothing |
| MeshImpl.Mesh.constructor | hedge/hedge.cpp:486-488 | a new mesh owns a fresh kernel |
| MeshImpl.EdgeLoopBuilder.FromPoint | hedge/hedge.cpp:400-412 | the constructor leaves the kernel and fields that `StartAtPoint` gives |
| MeshImpl.EdgeLoopBuilder.FromEdge | hedge/hedge.cpp:414-448 | the constructor leaves the fields that `StartAtEdge` gives and changes no arena |
| MeshImpl.EdgeLoopBuilder.AddPoint | hedge/hedge.cpp:450-462 | `add_point` leaves the kernel and fields that `Builders.AddPoint` gives |
| MeshImpl.EdgeLoopBuilder.Close | hedge/hedge.cpp:464-479 | `close` leaves the kernel, fields and root that `Builders.Close` gives |
| MeshImpl.MeshBuilder.constructor | hedge/hedge.cpp:337-338 | the builder drives the given mesh |
| MeshImpl.MeshBuilder.StartEdgeLoop | hedge/hedge.cpp:387-389 | a new loop builder as `StartAtPoint` gives |
| MeshImpl.MeshBuilder.StartEdgeLoopAt | hedge/hedge.cpp:391-393 | a new loop builder as `StartAtEdge` gives |
| MeshImpl.MeshBuilder.AddTriangle | hedge/hedge.cpp:348-358 | the chained loop and `make_face` leave what `Builders.AddTriangle` gives |
| MeshImpl.MeshBuilder.AddTriangleOfPoints | hedge/hedge.cpp:340-346 | the three given records are emplaced unchanged, then the index overload runs, as `Builders.AddTriangleOfPoints` gives |
| MeshImpl.MeshBuilder.AddTriangleFromEdge | hedge/hedge.cpp:370-385 | the twin-rooted loop through the edge's point and p then `make_face`, as `Builders.AddTriangleFromEdge` |
| MeshImpl.MeshBuilder.AddTriangleFromEdgeAt | hedge/hedge.cpp:360-368 | a falsy edge returns invalid; otherwise the given record is emplaced unchanged and the index overload runs, as `Builders.AddTriangleFromEdgeAt` gives |
| Triangles.PairAppends | hedge/hedge.cpp:133-143 | with no free edges a pair appends two twins at n, n+1 and returns (n, 1) |
| Triangles.ConnectAppends | hedge/hedge.cpp:189-244 | with no free vertices a connect appends the vertex at m and writes the two edge links |
| Triangles.Step1 | hedge/hedge.cpp:400-462 | the first loop step on clean arenas: the edges and vertex it appends |
| Triangles.Step2 | hedge/hedge.cpp:450-462 | the second `add_point` on clean arenas |
| Triangles.Step3 | hedge/hedge.cpp:464-479 | `close` on clean arenas completes the three-edge cycle |
| Triangles.TriangleLoopAppends | hedge/hedge.cpp:353-356 | the three-point loop builds exactly `TriangleState` and returns its first edge |
| Triangles.TriangleWalk | hedge/hedge.cpp:158-184 | the face walk over that loop closes after three edges n, n+2, n+4 |
| Triangles.FaceAppends | hedge/hedge.cpp:147-187 | with no free faces, a closed walk appends a face with the walked set and stamps the walked edges |
| Triangles.TriangleFace | hedge/hedge.cpp:147-187 | `make_face` on the loop gives `TriangleMesh` and face (faces size, 1) |
| Triangles.AddTriangleAppends | hedge/hedge.cpp:348-358 | `add_triangle(p0, p1, p2)` on clean arenas is defined and gives `TriangleMesh` and a new truthy face |
| Triangles.TriangleWiring | tests/high_level_api.cpp:27-42 | the new triangle is a `next`/`prev` cycle with twins, owned by the new face whose set is its three edges, all on the boundary, with points (p2, p0), (p0, p1), (p1, p2) and counts +6, +3, +1 |
| Triangles.FromEdgeStep1 | hedge/hedge.cpp:414-462 | starting at the twin of e and adding e's point on clean arenas |
| Triangles.FromEdgeStep2 | hedge/hedge.cpp:450-462 | adding p to the twin-rooted loop |
| Triangles.FromEdgeStep3 | hedge/hedge.cpp:464-479 | closing the twin-rooted loop |
| Triangles.FromEdgeLoopAppends | hedge/hedge.cpp:379-383 | the twin-rooted loop builds exactly `FromEdgeState` and returns the twin |
| Triangles.FromEdgeWalk | hedge/hedge.cpp:158-184 | the walk over it closes after the twin, n, n+2 |
| Triangles.FromEdgeFace | hedge/hedge.cpp:147-187 | `make_face` on it appends the face over the twin, n, n+2 and stamps them |
| Triangles.FromEdgeFaceIsMesh | hedge/hedge.cpp:147-187 | `make_face` on the loop rooted at the twin is defined and leaves exactly `FromEdgeMesh` with the appended face |
| Triangles.AddTriangleFromEdgeAppends | hedge/hedge.cpp:370-385 | `add_triangle(e, p)` on an edge whose twin is a free boundary edge is defined and gives `FromEdgeMesh` and a new face |
| Triangles.FromEdgeWiring | tests/high_level_api.cpp:44-60 | the new triangle is a cycle over the twin and two new edges, owned by the new face, sharing the twin with e; the new edges are on the boundary; the shared edge is off the boundary iff e has a face; points (p, q1), (q1, q0), (q0, p); counts +4, +3, +1 |
| Triangles.ThreePairs | tests/kernel_operations.cpp:169-171 | three pairs on clean arenas are edges n, n+2, n+4 and their twins |
| Triangles.KernelConnect1 | tests/kernel_operations.cpp:173 | the first connect of the kernel test on clean arenas |
| Triangles.KernelConnect2 | tests/kernel_operations.cpp:176 | the second connect |
| Triangles.KernelConnect3 | tests/kernel_operations.cpp:179 | the third connect, closing the cycle |
| Triangles.KernelTriangleAppends | tests/kernel_operations.cpp:169-180 | three pairs and three connects build `TriangleState` with edges n, n+2, n+4 and vertices m, m+1, m+2 |
| Scenarios.FourPointsInserted | tests/kernel_operations.cpp:14-30 | four emplaces on a fresh arena give offsets 1-4 and mesh count 4 |
| Scenarios.SecondPointRemoved | tests/kernel_operations.cpp:32-67 | the second point resolves at generation 1; after its removal the count is 3, the cell's generation is 2 and the handle is absent |
| Scenarios.SecondAndThirdRemoved | tests/kernel_operations.cpp:69-77 | removing the second and third points leaves count 2 |
| Scenarios.FreedCellsReused | tests/kernel_operations.cpp:79-113 | the next emplaces reuse offset 2 then 3 at generation 2, count 3 then 4, and the record resolves |
| Scenarios.ThreePointKernel | tests/kernel_operations.cpp:154-165 | the kernel with three new points is clean and its points are usable |
| Scenarios.KernelTriangleOnNewArenas | tests/kernel_operations.cpp:167-218 | on new arenas the kernel-built triangle's face is (1, 1); counts 4, 2, 7; each point has one vertex; the face set is {1, 3, 5}; each edge's vertex, face, next, prev and twin are as checked |
| Scenarios.KernelTriangleScenario | tests/kernel_operations.cpp:167-198 | the same for the test's three points |
| Scenarios.KernelTriangleCalls | tests/kernel_operations.cpp:169-180 | the test's six kernel calls return edges 1, 3, 5 and vertices 1, 2, 3 |
| Scenarios.QuadKernel | tests/high_level_api.cpp:17-23 | the four-point kernel is clean and its points are usable |
| Scenarios.QuadPointsInserted | tests/high_level_api.cpp:17-23 | four inserts on a new mesh give points 1-4 |
| Scenarios.FirstTriangleCounts | tests/high_level_api.cpp:27-31 | a first triangle on new arenas gives mesh counts 6, 3, 1 and keeps the points |
| Scenarios.FirstTriangleRoot | tests/high_level_api.cpp:33-42 | its root is edge 1, next 3, next-next 5, prev 5, all on the boundary |
| Scenarios.QuadKernelIsNew | tests/high_level_api.cpp:17-29 | the quad test's kernel has only dummy edges, vertices and faces and a mesh point count of 4 |
| Scenarios.QuadFirstTriangle | tests/high_level_api.cpp:27 | `add_triangle` on the quad's points returns face 1 and `TriangleMesh` |
| Scenarios.SecondTriangleReady | tests/high_level_api.cpp:44-47 | the root's `next` is edge 3, from p0 to p1 with twin 4, ready to extend |
| Scenarios.SecondTriangleCounts | tests/high_level_api.cpp:49-51 | extending edge 3 gives mesh counts 10, 6, 2 |
| Scenarios.SecondTriangleRoot | tests/high_level_api.cpp:53-60 | the second face's root is edge 4, off the boundary, next 7, next-next 9, prev 9, those two on the boundary |
| Scenarios.QuadSecondTriangle | tests/high_level_api.cpp:46-47 | `add_triangle(3, p3)` returns face 2 and `FromEdgeMesh` |
| Scenarios.InsertQuadPoints | tests/high_level_api.cpp:19-23 | the four inserts on a new mesh's kernel leave the quad kernel |
| Scenarios.BuildQuad | tests/high_level_api.cpp:10-65 | the whole quad test run on the mesh objects: faces 1 and 2, counts 10, 6, 2, 4, and the second face's root facts |
| Scenarios.LoopFromBadInput | hedge/tests/core_types.cpp:73-91 | the loop builder given bad input on a new mesh leaves all counts 0 and returns a falsy edge |
| Prototype.DefaultHandle | scratch/main.cpp:38-43 | a default handle is (INVALID_INDEX, 0) |
| Prototype.FromIndex | scratch/main.cpp:45-47 | a handle from an index has the ignored generation |
| Prototype.Reset | scratch/main.cpp:57-60 | reset gives the default handle, which is invalid |
| Prototype.NewHalfEdge | scratch/main.cpp:100-124 | a new half-edge has tag 0, generation 1 and default links |
| Prototype.Buffer.constructor | scratch/main.cpp:130-131 | a new buffer is empty |
| Prototype.Buffer.Push | scratch/main.cpp:137-141 | push appends the element and returns (old size, its generation), a valid in-range handle to it |
| Prototype.Buffer.IsValidHandle | scratch/main.cpp:133-135 | `is_valid_handle`: the index is in range, generation ignored; `Prototype.Follow` gives `invalid` exactly when it fails, and `ProxyValidMeans` states the in-range part of `is_valid` |
| Prototype.Buffer.Get | scratch/main.cpp:150-152 | `get` through `at()`: the record at the handle's index; `Push` and `Add` state that the returned handle gets back the element just stored |
| Prototype.Buffer.Add | scratch/main.cpp:143-148 | add appends a new half-edge and returns (old size, 1) |
| Prototype.InvalidProxy | scratch/main.cpp:171-174 | the default and `invalid` proxy have a null buffer and the default handle |
| Prototype.Follow | scratch/main.cpp:214-256 | `next`/`prev`/`adjacent` give `invalid` for an out-of-range handle, else a proxy on the same buffer over the stored link |
| Prototype.Next | scratch/main.cpp:214-224 | `next()`: `Follow` over the `next` link; `ConnectedProxies` states that after `a.connect_to(b)` it leads from a to b, and `TwoLoopsNavigate` the cycle of main's loops |
| Prototype.Prev | scratch/main.cpp:237-246 | `prev()`: `Follow` over the `prev` link; `ConnectedProxies` states that after `a.connect_to(b)` it leads from b back to a |
| Prototype.Adjacent | scratch/main.cpp:248-256 | `adjacent()`: `Follow` over the `adjacent` link; `ConnectLinks` states that connecting keeps every twin, and `TwoLoopsNavigate` the twins main asserts |
| Prototype.WithNext | scratch/main.cpp:231 | setting `next` of one element changes nothing else |
| Prototype.WithPrev | scratch/main.cpp:232 | setting `prev` of one element changes nothing else |
| Prototype.ConnectTo | scratch/main.cpp:225-234 | if either handle is out of range `at` throws and nothing changes; otherwise `a.next` becomes b's handle and `b.prev` a's, in one buffer or two |
| Prototype.MakeEdgePair | scratch/main.cpp:270-278 | appends two half-edges that are each other's `adjacent` and returns a proxy to the first |
| Prototype.SameMeans | scratch/main.cpp:62-73 | equal indices are required, and equal generations only when both are non-zero; `==` is reflexive and symmetric, and `!=` is its negation |
| Prototype.SameIsNotTransitive | scratch/main.cpp:66-73 | a wildcard handle equals (1, 1) and (1, 2), which differ |
| Prototype.DefaultIsTheFalsyHandle | scratch/main.cpp:75-81 | a handle is invalid iff its index is INVALID_INDEX |
| Prototype.MainHandleChecks | scratch/main.cpp:286-300 | the default handle equals `invalid`, differs from handle 1, and only handle 1 is valid |
| Prototype.NullProxyIsInvalid | scratch/main.cpp:308-310 | a null-buffer proxy is invalid and equals `invalid` iff its handle does |
| Prototype.ProxyValidMeans | scratch/main.cpp:197-205 | a proxy is valid iff its buffer is non-null, its handle is valid and in range; a valid proxy never equals `invalid` |
| Prototype.Same | scratch/main.cpp:66-73 | `operator==` on handles; `SameMeans` states it, and `SameIsNotTransitive` shows the wildcard breaks transitivity |
| Prototype.Differs | scratch/main.cpp:62-64 | `operator!=`; `SameMeans` states that it is the negation of `==` |
| Prototype.IsValid | scratch/main.cpp:75-81 | `is_valid`; `DefaultIsTheFalsyHandle` states it holds iff the index is not `INVALID_INDEX` |
| Prototype.ProxySame | scratch/main.cpp:189-191 | proxy `operator==`: the same buffer and `Same` handles; `NullProxyIsInvalid` and `ProxyValidMeans` state how it meets `invalid`, and `ConnectedProxies` uses it |
| Prototype.ProxyValid | scratch/main.cpp:197-205 | proxy `is_valid`; its meaning is stated by `ProxyValidMeans` and `NullProxyIsInvalid` |
| Prototype.ConnectLinks | scratch/main.cpp:225-234 | a connect sets exactly those two links and keeps every `adjacent` |
| Prototype.ConnectedProxies | scratch/main.cpp:214-245 | once connected, `a.next() == b` and `b.prev() == a` |
| Prototype.TwoLoopsNavigate | scratch/main.cpp:312-335 | on the two wired loops every assertion of `main` holds |
| Prototype.MainLoops | scratch/main.cpp:302-335 | three pairs and six connects give the two opposite loops on which `main`'s assertions hold |

## Left out

- Floating-point geometry: an Eigen position is a triple of reals that the core stores unchanged, and float rounding is not modelled. Normals, `calc_area` and `face_fn_t::area` are not modelled.
- Logging: every `LOG(...)` call is a side channel with no effect on results, and is dropped.
- `normal`/`calculate_normal` are `assert(false)` stubs and `defrag` only logs, so they are not modelled.
- `kernel_t`'s virtual dispatch and `unique_ptr` deleter are not modelled: there is one concrete kernel, and a mesh has exactly one.
- A proxy's kernel pointer is a flag (`bound`). The accessors read the kernel's value, passed in, rather than a pointer.
- `insert` is the same call as `emplace` in `basic_kernel_t`, so it is not modelled separately.
- `reserve` only affects capacity and is not modelled.
- `mesh_t(kernel_t::ptr_t&&)` (a mesh over a caller's kernel) is not modelled, because it falls under the same one-kernel assumption.
- `point_fn_t::vertices()` is declared but never defined, so it has no model.
- `std::priority_queue` is a sequence whose pop takes the first entry of least offset. The standard leaves the order of equal offsets unspecified.
- `Topology.MakeEdgePair` requires distinct free offsets (`Arena.FreeDistinct`), over the whole queue although only the two entries it pops matter. After a wildcard double free the queue holds two entries for one offset: the two emplaces at hedge/hedge.cpp:134-135 take both, the second overwrites the generation, so `get(eindex0)` at line 137 returns null and line 139 dereferences it. The model does not follow that state.
- `Topology.MakeFace` requires that the face walk ends. Where it does not, the source loops forever, and `WildcardRootHasNoWalk` shows such an input.
- `Proxies.IsBoundary` requires the twin to resolve when the edge has a face, because the source dereferences it unchecked.
- `Builders.CanAddPoint` asks for room for a vertex and an edge pair, and `Builders.CanClose` for room for a vertex, even though the source checks neither. `emplace` asserts that it has room, and the model makes those asserts preconditions.
- The `Triangles` and `Scenarios` lemmas cover only arenas without free cells. On arenas with free cells, the builder functions themselves are the model.
- `Topology.FaceWalk` takes a fuel bound. The `WalkEnds` precondition makes the bound irrelevant (`FuelIrrelevant`).
- `MeshImpl.Mesh` exposes its counts and proxy constructors as functions without contracts. The counts are stated by `Builders.MeshCount`; a proxy made by `Edge` and its siblings is a bound `Fn`, whose accessors `Proxies.Follow` and `Proxies.AccessorsFollowLinks` state.
- Prototype `push` cannot be instantiated: it copies an element, and the element's copy constructor is deleted. It is modelled as the append it evidently intends.
- Prototype `element()`, `next()` and the other accessors dereference the buffer pointer without a check. The model requires a non-null buffer.
- Prototype `Buffer.Push` and `Buffer.Add` require the vector's size to stay below `INVALID_INDEX`, the largest `size_t`.
- `at()` throwing `std::out_of_range` is modelled only in `connect_to`, where a reachable input causes it. Elsewhere the model's preconditions exclude it.
- `main` is a process entry point. Its assertions are the ensures of `Prototype.MainLoops`.
