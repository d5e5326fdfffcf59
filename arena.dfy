/**
 * The slot arena `element_vector_t` of hedge/hedge.cpp. `Store` is its value
 * (the record vector and the free list) with every operation as a function;
 * `ElementVector` is the object the kernel owns and updates in place, each
 * method proved equal to the function of its old value.
 */
module Arena {
  import opened Handles
  import opened Elements
  import opened Options

  /** `uint32` increment with the source's skip: wrapping onto the maximum restarts at 1. */
  function NextGeneration(g: u32): (n: u32)
    ensures n != g
    ensures n != U32_MAX
    ensures g + 1 < U32_MAX ==> n == g + 1
    ensures g + 1 == U32_MAX ==> n == 1
    ensures g == U32_MAX ==> n == 0
  {
    var bumped := (g + 1) % U32_MOD;
    if bumped == U32_MAX then 1 else bumped
  }

  /** The sequence without its element at position `i` (what popping a priority queue leaves). */
  function RemoveAt<X>(xs: seq<X>, i: nat): (r: seq<X>)
    requires i < |xs|
    ensures |r| == |xs| - 1
    ensures forall j :: 0 <= j < i ==> r[j] == xs[j]
    ensures forall j :: i <= j < |r| ==> r[j] == xs[j + 1]
  {
    xs[..i] + xs[i + 1..]
  }

  /** The position of the first entry of least offset: the top of the min-by-offset free queue. */
  function ArgMin<K>(free: seq<Index<K>>): (i: nat)
    requires |free| > 0
    ensures i < |free|
    ensures forall j :: 0 <= j < |free| ==> free[i].offset <= free[j].offset
    ensures forall j :: 0 <= j < i ==> free[i].offset < free[j].offset
    decreases |free|
  {
    if |free| == 1 then 0
    else
      var k := ArgMin(free[..|free| - 1]);
      if free[|free| - 1].offset < free[k].offset then |free| - 1 else k
  }

  /** No slot appears twice in the free list (it can, after a wildcard removal of a free slot). */
  predicate FreeDistinct<K>(free: seq<Index<K>>) {
    forall i, j :: 0 <= i < j < |free| ==> free[i].offset != free[j].offset
  }

  lemma {:induction false} ModSucc(d: int)
    ensures (d + 1) % SIZE_MOD == (d % SIZE_MOD + 1) % SIZE_MOD
    ensures (d - 1) % SIZE_MOD == (d % SIZE_MOD - 1) % SIZE_MOD
  {
  }

  /** The value of an `element_vector_t`: the record vector (slot 0 is the dummy) and the free cells. */
  datatype Store<T, K> = Store(cells: seq<Element<T>>, free: seq<Index<K>>) {

    /** Slot 0 exists, offsets fit `offset_t`, and every free cell names a stored slot. */
    predicate Valid() {
      && 1 <= |cells| <= U32_MAX
      && forall i :: 0 <= i < |free| ==> free[i].offset < |cells|
    }

    /**
     * How many more `emplace` calls can succeed: each takes a free cell
     * first, and an append needs the new offset below the `offset_t` maximum.
     */
    function Room(): nat
      requires |cells| <= U32_MAX
    {
      |free| + (U32_MAX - |cells|)
    }

    predicate HasRoom(n: nat) {
      |cells| <= U32_MAX && Room() >= n
    }

    /** The vector size minus the free-list size, before the `size_t` wrap. */
    function Live(): int {
      |cells| - |free|
    }

    /** `count()`: the vector size minus the free-list size, as a `size_t`. */
    function Count(): nat {
      Live() % SIZE_MOD
    }

    /** `get(index)` finds a record: the offset is in range and the generation is 0 or matches. */
    predicate Resolves(h: Index<K>) {
      h.offset < |cells| && (h.generation == 0 || cells[h.offset].generation == h.generation)
    }

    /** `get(index)`: the record, or None for an out-of-range offset or a generation mismatch. */
    function Get(h: Index<K>): (r: Option<Element<T>>)
      ensures r.Some? <==> h.offset < |cells| && (h.generation == 0 || cells[h.offset].generation == h.generation)
      ensures r.Some? ==> r.value == cells[h.offset]
    {
      if Resolves(h) then Some(cells[h.offset]) else None
    }

    /** A write through the record pointer `get` handed out. */
    function Put(offset: nat, c: Element<T>): (r: Store<T, K>)
      requires offset < |cells|
      ensures |r.cells| == |cells| && r.free == free
      ensures r.cells[offset] == c
      ensures forall i :: 0 <= i < |cells| && i != offset ==> r.cells[i] == cells[i]
    {
      Store(cells[offset := c], free)
    }

    /**
     * `emplace(element)`. With free cells, the lowest freed offset is reused
     * and the record takes the generation `remove` left there; otherwise the
     * record is appended at offset `size` with its own generation.
     */
    function Emplaced(e: Element<T>): (r: (Store<T, K>, Index<K>))
      requires Valid() && HasRoom(1)
      ensures r.0.Valid()
      ensures r.0.Live() == Live() + 1
      ensures r.0.Room() == Room() - 1
      ensures r.0.Get(r.1) == Some(e.(generation := r.1.generation))
      ensures free != [] ==>
                && r.1 in free
                && (forall j :: 0 <= j < |free| ==> r.1.offset <= free[j].offset)
                && |r.0.cells| == |cells|
                && r.0.free == RemoveAt(free, ArgMin(free))
      ensures free == [] ==>
                && r.1 == Index(|cells|, e.generation)
                && r.0.cells == cells + [e]
                && r.0.free == []
      ensures forall i :: 0 <= i < |cells| && i != r.1.offset ==> r.0.cells[i] == cells[i]
      ensures FreeDistinct(free) ==> FreeDistinct(r.0.free) && (forall j :: 0 <= j < |r.0.free| ==> r.0.free[j].offset != r.1.offset)
    {
      if free != [] then
        var i := ArgMin(free);
        var h := free[i];
        (Store(cells[h.offset := e.(generation := h.generation)], RemoveAt(free, i)), h)
      else
        (Store(cells + [e], free), Index(|cells|, e.generation))
    }

    /**
     * `remove(index)`. A handle that resolves makes its slot inactive, moves
     * the slot to the next generation and queues (offset, new generation)
     * as a free cell; any other handle changes nothing.
     */
    function Removed(h: Index<K>): (r: Store<T, K>)
      requires Valid()
      ensures r.Valid()
      ensures !Resolves(h) ==> r == this
      ensures Resolves(h) ==>
                var g := NextGeneration(cells[h.offset].generation);
                && r.cells == cells[h.offset := cells[h.offset].(status := Inactive, generation := g)]
                && r.free == free + [Index(h.offset, g)]
                && r.Live() == Live() - 1
                && r.Room() == Room() + 1
      ensures Resolves(h) && h.generation != 0 ==> !r.Resolves(h)
    {
      if Resolves(h) then
        var g := NextGeneration(cells[h.offset].generation);
        Store(cells[h.offset := cells[h.offset].(status := Inactive, generation := g)], free + [Index(h.offset, g)])
      else
        this
    }

    /**
     * `swap(a, b)`: when both resolve, each slot's generation is incremented
     * (a plain `uint32` increment, which can reach 0) and the two records
     * are exchanged, bumped generations included.
     */
    function Swapped(a: Index<K>, b: Index<K>): (r: Store<T, K>)
      requires Valid()
      ensures r.Valid() && r.free == free && |r.cells| == |cells|
      ensures !(Resolves(a) && Resolves(b)) ==> r == this
      ensures Resolves(a) && Resolves(b) && a.offset != b.offset ==>
                && r.cells[a.offset] == cells[b.offset].(generation := (cells[b.offset].generation + 1) % U32_MOD)
                && r.cells[b.offset] == cells[a.offset].(generation := (cells[a.offset].generation + 1) % U32_MOD)
      ensures Resolves(a) && Resolves(b) && a.offset == b.offset ==>
                r.cells[a.offset] == cells[a.offset].(generation := (cells[a.offset].generation + 2) % U32_MOD)
      ensures forall i :: 0 <= i < |cells| && i != a.offset && i != b.offset ==> r.cells[i] == cells[i]
    {
      if Resolves(a) && Resolves(b) then
        var c1 := cells[a.offset := cells[a.offset].(generation := (cells[a.offset].generation + 1) % U32_MOD)];
        var c2 := c1[b.offset := c1[b.offset].(generation := (c1[b.offset].generation + 1) % U32_MOD)];
        var temp := c2[a.offset];
        var c3 := c2[a.offset := c2[b.offset]];
        Store(c3[b.offset := temp], free)
      else
        this
    }
  }

  /** The freshly constructed arena: the dummy record in slot 0 and no free cells. */
  function Fresh<T, K>(empty: T): (s: Store<T, K>)
    ensures s.Valid() && s.Live() == 1 && s.Count() == 1 && s.Room() == U32_MAX - 1
  {
    Store([NewElement(empty)], [])
  }

  /** A second write to a slot overwrites the first. */
  lemma PutTwice<T, K>(s: Store<T, K>, o: nat, a: Element<T>, b: Element<T>)
    requires o < |s.cells|
    ensures s.Put(o, a).Put(o, b) == s.Put(o, b)
  {
    assert s.cells[o := a][o := b] == s.cells[o := b];
  }

  /** `emplace` adds one to `count()` and a successful `remove` takes one away, modulo 2^64. */
  lemma CountSteps<T, K>(s: Store<T, K>, e: Element<T>, h: Index<K>)
    requires s.Valid() && s.HasRoom(1)
    ensures s.Emplaced(e).0.Count() == (s.Count() + 1) % SIZE_MOD
    ensures s.Resolves(h) ==> s.Removed(h).Count() == (s.Count() - 1) % SIZE_MOD
    ensures !s.Resolves(h) ==> s.Removed(h).Count() == s.Count()
  {
    ModSucc(s.Live());
  }

  /**
   * Removing a live slot, then emplacing, reuses that slot with the bumped
   * generation when every cell already queued lies at a higher offset (in
   * particular when none is queued): the least-offset pop takes the
   * slot just freed, and the older queue is left as it was. A stale handle
   * with a non-zero generation no longer resolves. When a lower offset is
   * queued, the pop takes that one instead.
   */
  lemma RemoveThenEmplace<T, K>(s: Store<T, K>, h: Index<K>, e: Element<T>)
    requires s.Valid() && s.Resolves(h)
    requires forall i :: 0 <= i < |s.free| ==> h.offset < s.free[i].offset
    ensures s.Removed(h).Emplaced(e).1 == Index(h.offset, NextGeneration(s.cells[h.offset].generation))
    ensures s.Removed(h).Emplaced(e).0.free == s.free
    ensures h.generation != 0 ==> s.Removed(h).Emplaced(e).1 != h
    ensures s.Removed(h).Emplaced(e).0.Live() == s.Live()
    ensures s.Removed(h).Emplaced(e).0.cells[h.offset] == e.(generation := NextGeneration(s.cells[h.offset].generation))
    ensures h.generation != 0 ==> !s.Removed(h).Emplaced(e).0.Resolves(h)
  {
    var s1 := s.Removed(h);
    var g := NextGeneration(s.cells[h.offset].generation);
    assert s1.free == s.free + [Index(h.offset, g)];
    var k := ArgMin(s1.free);
    assert s1.free[|s.free|].offset == h.offset;
    assert k == |s.free|;
    assert RemoveAt(s1.free, k) == s.free;
    var (s2, h2) := s1.Emplaced(e);
    assert h2 == Index(h.offset, g);
    assert s2.cells == s1.cells[h.offset := e.(generation := g)];
  }

  /**
   * A generation-0 handle still resolves after its slot was removed, so a
   * second removal queues the same slot again: the free list then holds
   * the offset twice.
   */
  lemma {:induction false} WildcardDoubleFree<T, K>(s: Store<T, K>, o: u32)
    requires s.Valid() && o < |s.cells|
    ensures var h: Index<K> := Index(o, 0);
            var s2 := s.Removed(h).Removed(h);
            && |s2.free| == |s.free| + 2
            && s2.free[|s.free|].offset == o && s2.free[|s.free| + 1].offset == o
            && !FreeDistinct(s2.free)
            && s2.Live() == s.Live() - 2
  {
    var h: Index<K> := Index(o, 0);
    var s1 := s.Removed(h);
    assert s1.Resolves(h);
    var s2 := s1.Removed(h);
    assert s2.free == s.free + [s1.free[|s.free|], s2.free[|s.free| + 1]];
    assert !FreeDistinct(s2.free) by {
      assert s2.free[|s.free|].offset == s2.free[|s.free| + 1].offset;
    }
  }

  /** The invalid handle (0, 0) resolves to the dummy slot, so `remove` frees the sentinel. */
  lemma RemovingInvalidFreesSentinel<T, K>(s: Store<T, K>)
    requires s.Valid()
    ensures s.Resolves(Invalid())
    ensures s.Removed(Invalid()).free == s.free + [Index(0, NextGeneration(s.cells[0].generation))]
  {
  }

  /**
   * Two resolving handles with non-zero generations at the same offset are
   * the same handle: both carry the slot's generation.
   */
  lemma LiveHandlesAreUnique<T, K>(s: Store<T, K>, a: Index<K>, b: Index<K>)
    requires s.Resolves(a) && s.Resolves(b)
    requires a.generation != 0 && b.generation != 0 && a.offset == b.offset
    ensures a == b
  {
  }

  /** The object form of `element_vector_t`. */
  class ElementVector<T, K> {
    var cells: seq<Element<T>>
    var free: seq<Index<K>>

    function View(): Store<T, K>
      reads this
    {
      Store(cells, free)
    }

    /** The constructor stores the dummy record `TElement{}` in slot 0. */
    constructor (empty: T)
      ensures View() == Fresh(empty)
    {
      cells := [NewElement(empty)];
      free := [];
    }

    function Count(): nat
      reads this
    {
      View().Count()
    }

    function Get(h: Index<K>): Option<Element<T>>
      reads this
    {
      View().Get(h)
    }

    method Emplace(e: Element<T>) returns (h: Index<K>)
      requires View().Valid() && View().HasRoom(1)
      modifies this
      ensures (View(), h) == old(View()).Emplaced(e)
    {
      if |free| > 0 {
        var i := ArgMin(free);
        h := free[i];
        free := RemoveAt(free, i);
        cells := cells[h.offset := e.(generation := h.generation)];
      } else {
        h := Index(|cells|, e.generation);
        cells := cells + [e];
      }
    }

    method Remove(h: Index<K>)
      requires View().Valid()
      modifies this
      ensures View() == old(View()).Removed(h)
    {
      if View().Resolves(h) {
        var g := NextGeneration(cells[h.offset].generation);
        cells := cells[h.offset := cells[h.offset].(status := Inactive, generation := g)];
        free := free + [Index(h.offset, g)];
      }
    }

    method Swap(a: Index<K>, b: Index<K>)
      requires View().Valid()
      modifies this
      ensures View() == old(View()).Swapped(a, b)
    {
      if View().Resolves(a) && View().Resolves(b) {
        cells := cells[a.offset := cells[a.offset].(generation := (cells[a.offset].generation + 1) % U32_MOD)];
        cells := cells[b.offset := cells[b.offset].(generation := (cells[b.offset].generation + 1) % U32_MOD)];
        var temp := cells[a.offset];
        cells := cells[a.offset := cells[b.offset]];
        cells := cells[b.offset := temp];
      }
    }

    /** A write through the pointer that `get` returned for slot `offset`. */
    method Put(offset: nat, c: Element<T>)
      requires offset < |cells|
      modifies this
      ensures View() == old(View()).Put(offset, c)
    {
      cells := cells[offset := c];
    }
  }
}
