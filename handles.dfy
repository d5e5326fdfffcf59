/**
 * Generational handles: the `index_t` template of hedge/hedge.hpp and its
 * four discriminated subtypes. A handle is an (offset, generation) pair of
 * unsigned 32-bit integers; offset 0 is the reserved "invalid" slot and a
 * generation of 0 means "do not check the generation".
 */
module Handles {

  /** `offset_t` and `generation_t` are `uint32_t`. */
  const U32_MOD: int := 0x1_0000_0000
  const U32_MAX: int := 0xFFFF_FFFF
  type u32 = x: int | 0 <= x < 0x1_0000_0000
  type u16 = x: int | 0 <= x < 0x1_0000

  /** `size_t` (64 bits) is the type of every count. */
  const SIZE_MOD: int := 0x1_0000_0000_0000_0000

  /** The element kinds a handle can be tagged with (`index_type_t`). */
  datatype EdgeKind = EdgeKind
  datatype FaceKind = FaceKind
  datatype VertexKind = VertexKind
  datatype PointKind = PointKind

  /**
   * `index_t<K>`. The kind `K` is a phantom tag: it only keeps handles of
   * different element types apart, exactly as the distinct C++ subtypes do.
   * Dafny's structural `==` on this datatype is the source's `operator==`:
   * both the offset and the generation must agree.
   */
  datatype Index<K> = Index(offset: u32, generation: u32) {

    /** `explicit operator bool`: a handle is truthy iff its offset is not 0. */
    predicate Truthy() {
      offset > 0
    }

    /** `reset()`: the handle afterwards is the default (0, 0). */
    function Reset(): (r: Index<K>)
      ensures r == Invalid() && !r.Truthy()
    {
      Index(0, 0)
    }
  }

  type EdgeIndex = Index<EdgeKind>
  type FaceIndex = Index<FaceKind>
  type VertexIndex = Index<VertexKind>
  type PointIndex = Index<PointKind>

  /** The default constructor and the `invalid` constant of each subtype: (0, 0). */
  function Invalid<K>(): (r: Index<K>)
    ensures r.offset == 0 && r.generation == 0
  {
    Index(0, 0)
  }

  /** The offset-only constructor: the generation is 0, the wildcard. */
  function FromOffset<K>(o: u32): (r: Index<K>)
    ensures r.offset == o && r.generation == 0
    ensures r.Truthy() <==> o != 0
  {
    Index(o, 0)
  }

  /** `operator<`: only the offsets are compared. */
  predicate Less<K>(a: Index<K>, b: Index<K>) {
    a.offset < b.offset
  }

  /** `operator>` is `operator<` with its arguments swapped. */
  predicate Greater<K>(a: Index<K>, b: Index<K>) {
    Less(b, a)
  }

  /** `operator!=` is the negation of `operator==`. */
  predicate NotEqual<K>(a: Index<K>, b: Index<K>) {
    !(a == b)
  }

  /** Equality is strict in both fields; in particular a generation-0 handle is not a wildcard for `==`. */
  lemma EqualityIsStrict<K>(a: Index<K>, b: Index<K>)
    ensures a == b <==> a.offset == b.offset && a.generation == b.generation
    ensures NotEqual(a, b) <==> a.offset != b.offset || a.generation != b.generation
  {
  }

  /**
   * The ordering ignores the generation: handles that differ only in their
   * generation are unordered, and `<` is a strict order on offsets.
   */
  lemma OrderIgnoresGeneration<K>(a: Index<K>, b: Index<K>, c: Index<K>)
    ensures a.offset == b.offset ==> !Less(a, b) && !Less(b, a) && !Greater(a, b)
    ensures Greater(a, b) <==> b.offset < a.offset
    ensures Less(a, b) && Less(b, c) ==> Less(a, c)
    ensures !Less(a, a)
    ensures Less(a, b) || Less(b, a) || a.offset == b.offset
  {
  }

  /**
   * A falsy handle is any handle with offset 0, whatever its generation,
   * so "falsy" and "equal to invalid" differ.
   */
  lemma TruthyIsOffsetOnly<K>(h: Index<K>)
    ensures !h.Truthy() <==> h.offset == 0
    ensures h == Invalid() ==> !h.Truthy()
    ensures var z: Index<K> := Index(0, 7); !z.Truthy() && z != Invalid()
  {
  }

  /** The checks of hedge/tests/core_types.cpp on edge handles. */
  lemma CoreTypesHandleChecks()
    ensures Invalid<EdgeKind>() == Index(0, 0)
    ensures NotEqual(Invalid<EdgeKind>(), Index(1, 1))
    ensures var e1: EdgeIndex, e3: EdgeIndex := Index(1, 1), Index(20, 0); Greater(e3, e1) && Less(e1, e3)
  {
  }
}
