/**
 * The earlier, self-contained design of scratch/main.cpp: a `size_t`
 * handle whose invalid value is the largest index and whose generation 0
 * is a wildcard for equality, an append-only buffer of half-edges, and a
 * proxy that pairs a buffer pointer with a handle and navigates the
 * `next`, `prev` and `adjacent` links.
 */
module Prototype {

  /** `index_t` is `size_t`; `INVALID_INDEX` is its maximum. */
  const INVALID_INDEX: int := 0xFFFF_FFFF_FFFF_FFFF
  type SizeT = x: int | 0 <= x <= 0xFFFF_FFFF_FFFF_FFFF
  type Gen = x: int | 0 <= x < 0x1_0000_0000
  type Tag = x: int | 0 <= x < 0x1_0000

  /** `IGNORED_GENERATION`. */
  const IGNORED: Gen := 0

  /** `handle_t<half_edge_t>`. */
  datatype Handle = Handle(index: SizeT, generation: Gen)

  /** The default handle, what `reset()` leaves, and the static `invalid` handle. */
  function DefaultHandle(): (h: Handle)
    ensures h.index == INVALID_INDEX && h.generation == IGNORED
  {
    Handle(INVALID_INDEX, IGNORED)
  }

  /** The implicit constructor from an index: the generation is the wildcard. */
  function FromIndex(i: SizeT): (h: Handle)
    ensures h.index == i && h.generation == IGNORED
  {
    Handle(i, IGNORED)
  }

  /** `reset()`. */
  function Reset(h: Handle): (r: Handle)
    ensures r == DefaultHandle() && !IsValid(r)
  {
    DefaultHandle()
  }

  /**
   * `operator==`: the indices must agree, and the generations too unless
   * either of them is the wildcard.
   */
  predicate Same(a: Handle, b: Handle) {
    if a.generation != IGNORED && b.generation != IGNORED then
      a.index == b.index && a.generation == b.generation
    else
      a.index == b.index
  }

  /** `operator!=`. */
  predicate Differs(a: Handle, b: Handle) {
    !Same(a, b)
  }

  /** `is_valid` and `operator bool`: any index but `INVALID_INDEX`. */
  predicate IsValid(h: Handle) {
    h.index != INVALID_INDEX
  }

  /** `half_edge_t`: the element header (tag 0, generation 1) and three links, all invalid at first. */
  datatype HalfEdge = HalfEdge(tag: Tag, generation: Gen, next: Handle, prev: Handle, adjacent: Handle)

  function NewHalfEdge(): (e: HalfEdge)
    ensures e.tag == 0 && e.generation == 1
    ensures e.next == DefaultHandle() && e.prev == DefaultHandle() && e.adjacent == DefaultHandle()
  {
    HalfEdge(0, 1, DefaultHandle(), DefaultHandle(), DefaultHandle())
  }

  /** `element_buffer_t<half_edge_t>`: a vector that only grows. */
  class Buffer {
    var elements: seq<HalfEdge>

    constructor ()
      ensures elements == []
    {
      elements := [];
    }

    /** `is_valid_handle`: the index is in range; the generation is not looked at. */
    predicate IsValidHandle(h: Handle)
      reads this
    {
      h.index < |elements|
    }

    /** `get(handle)`, which goes through `vector::at`. */
    function Get(h: Handle): HalfEdge
      requires IsValidHandle(h)
      reads this
    {
      elements[h.index]
    }

    /** `push(element)`: appends and hands out (old size, the element's generation). */
    method Push(e: HalfEdge) returns (h: Handle)
      requires |elements| < INVALID_INDEX
      modifies this
      ensures elements == old(elements) + [e]
      ensures h == Handle(|old(elements)|, e.generation)
      ensures IsValid(h) && IsValidHandle(h) && Get(h) == e
    {
      h := Handle(|elements|, e.generation);
      elements := elements + [e];
    }

    /** `add()`: appends a default half-edge and hands out (old size, 1). */
    method Add() returns (h: Handle)
      requires |elements| < INVALID_INDEX
      modifies this
      ensures elements == old(elements) + [NewHalfEdge()]
      ensures h == Handle(|old(elements)|, 1)
      ensures IsValid(h) && IsValidHandle(h) && Get(h) == NewHalfEdge()
    {
      h := Push(NewHalfEdge());
    }
  }

  /** `proxy_t<half_edge_t>` and `half_edge_proxy_t`: a buffer pointer (possibly null) and a handle. */
  datatype Proxy = Proxy(buffer: Buffer?, handle: Handle)

  /** The default proxy and the static `invalid` proxy: a null buffer and the default handle. */
  function InvalidProxy(): (p: Proxy)
    ensures p.buffer == null && p.handle == DefaultHandle()
  {
    Proxy(null, DefaultHandle())
  }

  /** `operator==` on proxies: the same buffer object and equal handles. */
  predicate ProxySame(p: Proxy, q: Proxy) {
    p.buffer == q.buffer && Same(p.handle, q.handle)
  }

  /** `is_valid` and `operator bool` on proxies. */
  predicate ProxyValid(p: Proxy)
    reads p.buffer
  {
    p.buffer != null && IsValid(p.handle) && p.buffer.IsValidHandle(p.handle)
  }

  /** The three links a half-edge proxy navigates. */
  datatype Link = NextLink | PrevLink | AdjacentLink

  function LinkOf(e: HalfEdge, l: Link): Handle {
    match l
    case NextLink => e.next
    case PrevLink => e.prev
    case AdjacentLink => e.adjacent
  }

  /**
   * `next()`, `prev()` and `adjacent()`: the buffer is dereferenced
   * unchecked; an index out of range gives the `invalid` proxy, and
   * otherwise the proxy over the stored link on the same buffer.
   */
  function Follow(p: Proxy, l: Link): (r: Proxy)
    requires p.buffer != null
    reads p.buffer
    ensures !p.buffer.IsValidHandle(p.handle) ==> r == InvalidProxy()
    ensures p.buffer.IsValidHandle(p.handle) ==> r.buffer == p.buffer && r.handle == LinkOf(p.buffer.elements[p.handle.index], l)
  {
    if !p.buffer.IsValidHandle(p.handle) then InvalidProxy()
    else Proxy(p.buffer, LinkOf(p.buffer.Get(p.handle), l))
  }

  function Next(p: Proxy): Proxy
    requires p.buffer != null
    reads p.buffer
  {
    Follow(p, NextLink)
  }

  function Prev(p: Proxy): Proxy
    requires p.buffer != null
    reads p.buffer
  {
    Follow(p, PrevLink)
  }

  function Adjacent(p: Proxy): Proxy
    requires p.buffer != null
    reads p.buffer
  {
    Follow(p, AdjacentLink)
  }

  /** The record at `i` with its `next` link replaced. */
  function WithNext(es: seq<HalfEdge>, i: nat, h: Handle): (r: seq<HalfEdge>)
    requires i < |es|
    ensures |r| == |es| && r[i] == es[i].(next := h)
    ensures forall j :: 0 <= j < |es| && j != i ==> r[j] == es[j]
  {
    es[i := es[i].(next := h)]
  }

  /** The record at `i` with its `prev` link replaced. */
  function WithPrev(es: seq<HalfEdge>, i: nat, h: Handle): (r: seq<HalfEdge>)
    requires i < |es|
    ensures |r| == |es| && r[i] == es[i].(prev := h)
    ensures forall j :: 0 <= j < |es| && j != i ==> r[j] == es[j]
  {
    es[i := es[i].(prev := h)]
  }

  /**
   * `a.connect_to(b)`. Both records are fetched with `vector::at`, which
   * throws when an index is out of range; then, and only then, nothing
   * changes and `thrown` is set. Otherwise `a`'s record points forward to
   * `b`'s handle and `b`'s record back to `a`'s, in that order, which
   * matters when both are the same record.
   */
  method ConnectTo(a: Proxy, b: Proxy) returns (thrown: bool)
    requires a.buffer != null && b.buffer != null
    modifies a.buffer, b.buffer
    ensures thrown <==> !old(a.buffer.IsValidHandle(a.handle)) || !old(b.buffer.IsValidHandle(b.handle))
    ensures thrown ==> a.buffer.elements == old(a.buffer.elements) && b.buffer.elements == old(b.buffer.elements)
    ensures !thrown && a.buffer == b.buffer ==>
              a.buffer.elements == WithPrev(WithNext(old(a.buffer.elements), a.handle.index, b.handle), b.handle.index, a.handle)
    ensures !thrown && a.buffer != b.buffer ==>
              && a.buffer.elements == WithNext(old(a.buffer.elements), a.handle.index, b.handle)
              && b.buffer.elements == WithPrev(old(b.buffer.elements), b.handle.index, a.handle)
  {
    if !a.buffer.IsValidHandle(a.handle) || !b.buffer.IsValidHandle(b.handle) {
      return true;
    }
    a.buffer.elements := WithNext(a.buffer.elements, a.handle.index, b.handle);
    b.buffer.elements := WithPrev(b.buffer.elements, b.handle.index, a.handle);
    thrown := false;
  }

  /**
   * `make_edge_pair(buffer)`: two default half-edges appended, each the
   * other's `adjacent`, and a proxy to the first.
   */
  method MakeEdgePair(buffer: Buffer) returns (p: Proxy)
    requires |buffer.elements| + 2 <= INVALID_INDEX
    modifies buffer
    ensures var n := |old(buffer.elements)|;
            && buffer.elements == old(buffer.elements) + [NewHalfEdge().(adjacent := Handle(n + 1, 1)),
                                                         NewHalfEdge().(adjacent := Handle(n, 1))]
            && p == Proxy(buffer, Handle(n, 1))
  {
    var eh0 := buffer.Add();
    var eh1 := buffer.Add();
    buffer.elements := buffer.elements[eh0.index := buffer.Get(eh0).(adjacent := eh1)];
    buffer.elements := buffer.elements[eh1.index := buffer.Get(eh1).(adjacent := eh0)];
    p := Proxy(buffer, eh0);
  }

  // ---------------------------------------------------------------------------
  // Properties

  /**
   * Handle equality ignores a wildcard generation: it is reflexive and
   * symmetric, `!=` is its negation, and it compares both fields when
   * neither generation is the wildcard.
   */
  lemma SameMeans(a: Handle, b: Handle)
    ensures Same(a, b) <==> a.index == b.index && (a.generation == IGNORED || b.generation == IGNORED || a.generation == b.generation)
    ensures Same(a, a) && (Same(a, b) <==> Same(b, a))
    ensures Differs(a, b) <==> !Same(a, b)
    ensures a == b ==> Same(a, b)
  {
  }

  /**
   * The wildcard makes handle equality intransitive: (1, 1) equals (1, 0),
   * which equals (1, 2), yet (1, 1) and (1, 2) differ.
   */
  lemma SameIsNotTransitive()
    ensures var a, w, b := Handle(1, 1), FromIndex(1), Handle(1, 2);
            Same(a, w) && Same(w, b) && Differs(a, b)
  {
  }

  /**
   * The default handle is falsy, and it is the only falsy handle up to its
   * generation; a handle equal to it is falsy.
   */
  lemma DefaultIsTheFalsyHandle(h: Handle)
    ensures !IsValid(DefaultHandle())
    ensures !IsValid(h) <==> h.index == DefaultHandle().index
    ensures Same(h, DefaultHandle()) ==> !IsValid(h)
  {
  }

  /** The handle checks at the start of `main`. */
  lemma MainHandleChecks()
    ensures var bad, good := DefaultHandle(), FromIndex(1);
            && Same(bad, DefaultHandle())
            && Differs(bad, good)
            && IsValid(good) && !IsValid(bad)
  {
  }

  /**
   * A proxy with a null buffer, the `invalid` proxy among them, is never
   * valid; proxy equality looks at the buffer object and the handle.
   */
  lemma NullProxyIsInvalid(p: Proxy)
    requires p.buffer == null
    ensures !ProxyValid(p) && !ProxyValid(InvalidProxy())
    ensures ProxySame(p, InvalidProxy()) <==> Same(p.handle, DefaultHandle())
  {
  }

  /**
   * A proxy is valid iff it has a buffer, a valid handle, and that handle is
   * in the buffer's range; so a valid proxy never equals the `invalid` one.
   */
  lemma ProxyValidMeans(p: Proxy)
    ensures ProxyValid(p) <==> p.buffer != null && p.handle.index != INVALID_INDEX && p.handle.index < |p.buffer.elements|
    ensures ProxyValid(p) ==> !ProxySame(p, InvalidProxy())
  {
  }

  /**
   * What `connect_to` leaves on one buffer: the first record's `next` is
   * the second handle and the second record's `prev` the first handle
   * (also when both are one record), every other `next` and `prev` is as
   * it was, and no `adjacent` link changes, so twins stay twins.
   */
  lemma ConnectLinks(es: seq<HalfEdge>, i: nat, j: nat, a: Handle, b: Handle)
    requires i < |es| && j < |es|
    ensures var r := WithPrev(WithNext(es, i, b), j, a);
            && |r| == |es| && r[i].next == b && r[j].prev == a
            && (forall k :: 0 <= k < |es| ==> r[k].adjacent == es[k].adjacent)
            && (forall k :: 0 <= k < |es| && k != i ==> r[k].next == es[k].next)
            && (forall k :: 0 <= k < |es| && k != j ==> r[k].prev == es[k].prev)
  {
    var r1 := WithNext(es, i, b);
    var r := WithPrev(r1, j, a);
    assert r[i].next == r1[i].next;
    forall k | 0 <= k < |es|
      ensures r[k].adjacent == es[k].adjacent
    {
      assert r[k].adjacent == r1[k].adjacent;
    }
  }

  /**
   * Seen through the proxies: once `a` and `b` on one buffer are
   * connected, `a.next()` equals `b` and `b.prev()` equals `a`.
   */
  lemma ConnectedProxies(buffer: Buffer, a: Proxy, b: Proxy)
    requires a.buffer == buffer && b.buffer == buffer
    requires buffer.IsValidHandle(a.handle) && buffer.IsValidHandle(b.handle)
    requires buffer.elements[a.handle.index].next == b.handle && buffer.elements[b.handle.index].prev == a.handle
    ensures ProxySame(Next(a), b) && ProxySame(Prev(b), a)
  {
    SameMeans(b.handle, b.handle);
    SameMeans(a.handle, a.handle);
  }

  /** A default half-edge with the given links. */
  function E(next: Handle, prev: Handle, adjacent: Handle): HalfEdge {
    HalfEdge(0, 1, next, prev, adjacent)
  }

  /** The buffer `main` builds: two opposite loops over three twin pairs. */
  function TwoLoops(): seq<HalfEdge> {
    var h0, h1, h2, h3, h4, h5 := Handle(0, 1), Handle(1, 1), Handle(2, 1), Handle(3, 1), Handle(4, 1), Handle(5, 1);
    [E(h2, h4, h1), E(h5, h3, h0), E(h4, h0, h3), E(h1, h5, h2), E(h0, h2, h5), E(h3, h1, h4)]
  }

  /**
   * On that buffer, with proxies over the first edge of each pair, `next`
   * and `prev` go round, and two steps forward and across is the twin of
   * the third edge, distinct from the third edge itself.
   */
  lemma TwoLoopsNavigate(buffer: Buffer, e0: Proxy, e1: Proxy, e2: Proxy)
    requires buffer.elements == TwoLoops()
    requires e0 == Proxy(buffer, Handle(0, 1)) && e1 == Proxy(buffer, Handle(2, 1)) && e2 == Proxy(buffer, Handle(4, 1))
    ensures ProxyValid(e0) && ProxyValid(Adjacent(e0))
    ensures ProxySame(Next(e0), e1) && ProxySame(Prev(e0), e2)
    ensures ProxySame(Next(e1), e2) && ProxySame(Prev(e1), e0)
    ensures ProxySame(Next(e2), e0) && ProxySame(Prev(e2), e1)
    ensures ProxySame(Next(Next(e0)), e2)
    ensures ProxySame(Adjacent(Next(Next(e0))), Adjacent(e2))
    ensures ProxySame(Adjacent(Prev(e0)), Adjacent(e2))
    ensures !ProxySame(Adjacent(Prev(e0)), e2)
  {
  }

  /**
   * The loop check at the end of `main`: three edge pairs, three
   * `connect_to` calls round one loop and three round the opposite loop of
   * the twins; then `next` and `prev` go round, and two steps forward and
   * across is the twin of the third edge, distinct from the third edge
   * itself.
   */
  method MainLoops() returns (buffer: Buffer, e0: Proxy, e1: Proxy, e2: Proxy)
    ensures e0.buffer == buffer && e1.buffer == buffer && e2.buffer == buffer
    ensures ProxyValid(e0) && ProxyValid(Adjacent(e0))
    ensures ProxySame(Next(e0), e1) && ProxySame(Prev(e0), e2)
    ensures ProxySame(Next(e1), e2) && ProxySame(Prev(e1), e0)
    ensures ProxySame(Next(e2), e0) && ProxySame(Prev(e2), e1)
    ensures ProxySame(Next(Next(e0)), e2)
    ensures ProxySame(Adjacent(Next(Next(e0))), Adjacent(e2))
    ensures ProxySame(Adjacent(Prev(e0)), Adjacent(e2))
    ensures !ProxySame(Adjacent(Prev(e0)), e2)
  {
    buffer := new Buffer();
    e0 := MakeEdgePair(buffer);
    e1 := MakeEdgePair(buffer);
    e2 := MakeEdgePair(buffer);
    var d := DefaultHandle();
    var h0, h1, h2, h3, h4, h5 := Handle(0, 1), Handle(1, 1), Handle(2, 1), Handle(3, 1), Handle(4, 1), Handle(5, 1);
    assert buffer.elements == [E(d, d, h1), E(d, d, h0), E(d, d, h3), E(d, d, h2), E(d, d, h5), E(d, d, h4)];
    var t := ConnectTo(e0, e1);
    t := ConnectTo(e1, e2);
    t := ConnectTo(e2, e0);
    assert buffer.elements == [E(h2, h4, h1), E(d, d, h0), E(h4, h0, h3), E(d, d, h2), E(h0, h2, h5), E(d, d, h4)];
    var a0, a1, a2 := Adjacent(e0), Adjacent(e1), Adjacent(e2);
    assert a0 == Proxy(buffer, h1) && a1 == Proxy(buffer, h3) && a2 == Proxy(buffer, h5);
    t := ConnectTo(a0, a2);
    t := ConnectTo(a2, a1);
    t := ConnectTo(a1, a0);
    assert buffer.elements == TwoLoops();
    TwoLoopsNavigate(buffer, e0, e1, e2);
  }
}
