/**
 * The element records of hedge/hedge.hpp: the common `element_t` header
 * (status, tag, generation) around a kind-specific body. Positions are
 * stored and returned unchanged; normals are not modelled.
 */
module Elements {
  import opened Handles

  /** `element_status_t`: active = 0x0000, inactive = 0x8000. */
  datatype Status = Active | Inactive

  /** `element_t` with its body: every record of every arena has this shape. */
  datatype Element<T> = Element(status: Status, tag: u16, generation: u32, body: T)

  /** A default-constructed record: active, tag 0, generation 1. */
  function NewElement<T>(body: T): (e: Element<T>)
    ensures e.status == Active && e.tag == 0 && e.generation == 1 && e.body == body
  {
    Element(Active, 0, 1, body)
  }

  /** `edge_t`: the half-edge's links, all handles. */
  datatype Edge = Edge(vertex: VertexIndex, face: FaceIndex, next: EdgeIndex, prev: EdgeIndex, adjacent: EdgeIndex)

  /** `face_t` (without its normal): the root edge and the unordered set of loop edges. */
  datatype Face = Face(root: EdgeIndex, edges: set<EdgeIndex>)

  /** `vertex_t` (without its normal): its point and its outgoing edge. */
  datatype Vertex = Vertex(point: PointIndex, edge: EdgeIndex)

  /** A position: three reals standing for the source's `float` coordinates. The core stores and returns it and never inspects its fields. */
  datatype Position = Position(x: real, y: real, z: real)

  /** `point_t` (without its normal): its position and the set of vertices that use it. */
  datatype Point = Point(position: Position, vertices: set<VertexIndex>)

  const EmptyEdge: Edge := Edge(Invalid(), Invalid(), Invalid(), Invalid(), Invalid())
  const EmptyFace: Face := Face(Invalid(), {})
  const EmptyVertex: Vertex := Vertex(Invalid(), Invalid())
  const Origin: Position := Position(0.0, 0.0, 0.0)
  /** `point_t()`: a point at the origin used by no vertex. */
  const EmptyPoint: Point := Point(Origin, {})

  /** `point_t(position)`: a fresh point record at `p`. */
  function NewPoint(p: Position): (e: Element<Point>)
    ensures e.body.position == p && e.body.vertices == {}
    ensures e.status == Active && e.tag == 0 && e.generation == 1
  {
    NewElement(Point(p, {}))
  }
}
