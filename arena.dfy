/** The allocator's state as values: which blocks exist, how large they are,
    which are allocated, and the order of the free list from its anchor. Each
    function here states what one routine of allocator.c does to that state;
    the class in allocator.dfy is proved to do the same to its headers. */
module ArenaModel {
  import opened Powers
  import opened Layout
  import opened Ring

  /** The abstract allocator state.
      initialised: the arena has been acquired (memory != NULL);
      capacity:    memory_size;
      free:        the free list in list order, starting at the anchor free_list_ptr;
      inUse:       offsets of the blocks handed out to callers;
      size:        the size of every live block, free or allocated. */
  datatype Arena = Arena(
    initialised: bool,
    capacity: nat,
    free: seq<nat>,
    inUse: set<nat>,
    size: map<nat, nat>)

  /** The result of sal_free: it returns, or it aborts the process. */
  datatype Outcome = Done(arena: Arena) | Aborted

  /** The state before sal_init: static globals are zero. */
  const Empty: Arena := Arena(false, 0, [], {}, map[])

  /** The size field of the block at offset o (0 for an offset holding no block). */
  function SizeOf(a: Arena, o: nat): nat
  {
    if o in a.size then a.size[o] else 0
  }

  /** The members at positions i and j, if both exist with i before j, are
      in address order. */
  ghost predicate Below(list: seq<nat>, i: int, j: int)
  {
    0 <= i < j < |list| ==> list[i] < list[j]
  }

  /** The list is strictly ascending. Triggered on Below alone, so that the
      pairs are only compared where a proof names them. */
  ghost predicate Ascending(list: seq<nat>)
  {
    forall i, j {:trigger Below(list, i, j)} :: Below(list, i, j)
  }

  /** A block of size s at offset b is a whole size class, aligned to its size,
      inside an arena of the given capacity. */
  ghost predicate WellPlaced(b: nat, s: nat, capacity: nat)
  {
    IsPow2(s) && b % s == 0 && b + s <= capacity
  }

  /** Offset b holds a live block. Named so that the last clause of
      Partition is only used where a proof asks for it. */
  ghost predicate Live(a: Arena, b: nat)
  {
    b in a.size
  }

  /** Free and allocated blocks are disjoint, and together they are the live blocks. */
  ghost predicate Partition(a: Arena)
  {
    && (forall i :: 0 <= i < |a.free| ==> a.free[i] in a.size && a.free[i] !in a.inUse)
    && (forall b :: b in a.inUse ==> b in a.size)
    && (forall b {:trigger Live(a, b)} :: Live(a, b) ==> b in a.inUse || b in a.free)
  }

  /** Every live block is a well-placed power of two. */
  ghost predicate Placed(a: Arena)
  {
    forall b {:trigger WellPlaced(b, a.size[b], a.capacity)} :: b in a.size ==> WellPlaced(b, a.size[b], a.capacity)
  }

  /** The live blocks at b and c, if both exist and differ, do not overlap. */
  ghost predicate Disjoint(size: map<nat, nat>, b: nat, c: nat)
  {
    b in size && c in size && b != c ==> b + size[b] <= c || c + size[c] <= b
  }

  /** No two live blocks overlap. Triggered on Disjoint alone, so that the
      pairs are only looked at where a proof names them. */
  ghost predicate Separated(size: map<nat, nat>)
  {
    forall b, c {:trigger Disjoint(size, b, c)} :: Disjoint(size, b, c)
  }

  /** The invariant of the allocator. Before initialisation everything is empty.
      Afterwards the capacity is a power of two; the free list is non-empty and
      ascending from its anchor (so the anchor is the lowest free block); free
      and allocated blocks are disjoint sets that together are the live blocks;
      every block is a well-placed power of two; and no two blocks overlap. */
  ghost predicate WellFormed(a: Arena)
  {
    if !a.initialised then
      a.capacity == 0 && a.free == [] && a.inUse == {} && a.size == map[]
    else
      && IsPow2(a.capacity) && a.capacity <= MAX_ARENA
      && |a.free| >= 1 && Ascending(a.free)
      && Partition(a) && Placed(a) && Separated(a.size)
  }

  /** The minimal shape the operations need to be defined. */
  ghost predicate Shaped(a: Arena)
  {
    if a.initialised then |a.free| >= 1 else a.capacity == 0
  }

  // ---------------------------------------------------------------- sal_init

  /** sal_init (allocator.c:53-83): on an arena not yet acquired, and a size
      below MAX_SIZE, one free block covering the rounded-up capacity at offset
      0, which is also the anchor; otherwise nothing changes. */
  function InitSpec(a: Arena, requested: nat): (r: Arena)
  {
    if !a.initialised && requested < MAX_SIZE then
      var c := RoundUp(requested);
      Arena(true, c, [0], {}, map[0 := c])
    else
      a
  }

  // -------------------------------------------------------------- sal_malloc

  /** The best-fit scan of sal_malloc (allocator.c:116-129) from list position i,
      where found is the position chosen so far and best its size bound. */
  function ScanFrom(a: Arena, need: nat, i: nat, found: nat, best: int): (r: nat)
    requires i <= |a.free| && found < |a.free|
    ensures r < |a.free|
    decreases |a.free| - i
  {
    if i == |a.free| then found
    else
      var s := SizeOf(a, a.free[i]);
      if s >= need && s <= best then ScanFrom(a, need, i + 1, i, s)
      else ScanFrom(a, need, i + 1, found, best)
  }

  /** The list position sal_malloc chooses: the scan starts after the anchor,
      with the anchor as the default and the capacity as the bound. */
  function BestFit(a: Arena, need: nat): (r: nat)
    requires |a.free| >= 1
    ensures r < |a.free|
  {
    ScanFrom(a, need, 1, 0, a.capacity)
  }

  /** One step of reduceMemory (allocator.c:161-181): the block at position j
      keeps its lower half and the upper half becomes a free block linked right
      after it. */
  function SplitStep(a: Arena, j: nat): (r: Arena)
    requires j < |a.free|
  {
    var c := a.free[j];
    var h := SizeOf(a, c) / 2;
    a.(free := a.free[..j + 1] + [c + h] + a.free[j + 1..],
       size := a.size[c := h][c + h := h])
  }

  /** reduceMemory (allocator.c:159-189): split the block at position j, then
      keep splitting the upper half while its half still holds need bytes.
      Returns the new state and the list position of the last upper half. */
  function Reduce(a: Arena, j: nat, need: nat): (r: (Arena, nat))
    requires j < |a.free| && need >= 1 && SizeOf(a, a.free[j]) / 2 >= need
    ensures j < r.1 < |r.0.free|
    decreases SizeOf(a, a.free[j])
  {
    var a' := SplitStep(a, j);
    assert a'.free[j + 1] == a.free[j] + SizeOf(a, a.free[j]) / 2;
    if SizeOf(a', a'.free[j + 1]) / 2 >= need then Reduce(a', j + 1, need)
    else (a', j + 1)
  }

  /** Unlinking the block at position j and tagging it allocated
      (allocator.c:138-150); the anchor moves on when j is 0. */
  function Take(a: Arena, j: nat): (r: Arena)
    requires j < |a.free|
  {
    a.(free := a.free[..j] + a.free[j + 1..], inUse := a.inUse + {a.free[j]})
  }

  /** The end of sal_malloc once the block at position j holds need bytes
      (allocator.c:135-152): split it down while its half still holds them,
      then take the block reached and return the address past its header. */
  function Carve(a: Arena, j: nat, need: nat): (r: (Arena, Ptr))
    requires j < |a.free| && need >= 1
  {
    if SizeOf(a, a.free[j]) / 2 >= need then
      var (a', k) := Reduce(a, j, need);
      (Take(a', k), Payload(a'.free[k] + HEADER_SIZE))
    else
      (Take(a, j), Payload(a.free[j] + HEADER_SIZE))
  }

  /** sal_malloc (allocator.c:94-156): the new state and the pointer returned. */
  function MallocSpec(a: Arena, n: nat): (r: (Arena, Ptr))
    requires Shaped(a)
  {
    var need := n + HEADER_SIZE;
    if !(need <= a.capacity / 2 && n > 0) then (a, Null)
    else if |a.free| == 1 && SizeOf(a, a.free[0]) / 2 < need then (a, Null)
    else
      var j := BestFit(a, need);
      if SizeOf(a, a.free[j]) < need then (a, Null)
      else Carve(a, j, need)
  }

  // ---------------------------------------------------------------- sal_free

  /** Where sal_free links a released block x in (allocator.c:231-242): before
      the first member above x, or at the end. */
  function InsertPos(list: seq<nat>, x: nat): (p: nat)
    ensures p <= |list|
    ensures forall k :: 0 <= k < p ==> list[k] <= x
    ensures p < |list| ==> list[p] > x
  {
    if list == [] || list[0] > x then 0 else 1 + InsertPos(list[1..], x)
  }

  /** The released block x rejoins the free list at its address position and
      stops being allocated (allocator.c:229-259). */
  function Release(a: Arena, x: nat): (r: Arena)
  {
    var p := InsertPos(a.free, x);
    a.(free := a.free[..p] + [x] + a.free[p..], inUse := a.inUse - {x})
  }

  /** validMerge (allocator.c:318-337) as a condition: stepping up from index by
      twice the size lands exactly on the capacity. */
  predicate BuddyAligned(capacity: nat, index: nat, size: nat)
  {
    size > 0 && index <= capacity && (capacity - index) % (2 * size) == 0
  }

  /** The block at position j absorbs its successor, which it doubles in size
      with (allocator.c:295-307). */
  function Absorb(a: Arena, j: nat): (r: Arena)
    requires j + 1 < |a.free|
  {
    var c := a.free[j];
    a.(free := a.free[..j + 1] + a.free[j + 2..],
       size := (a.size - {a.free[j + 1]})[c := 2 * SizeOf(a, c)])
  }

  /** checkMerge (allocator.c:269-290) on the block at position j. */
  function CheckMergeSpec(a: Arena, j: nat): (r: Arena)
    requires j < |a.free|
    decreases |a.free|, 1
  {
    var list := a.free;
    var c := list[j];
    var s := SizeOf(a, c);
    var next := Succ(list, j);
    if s == next - c && s == SizeOf(a, next) && next != list[0] then
      if BuddyAligned(a.capacity, c, s) then MergeSpec(a, j) else a
    else
      var prev := Pred(list, j);
      var ps := SizeOf(a, prev);
      if ps == c - prev && ps == s && c != list[0] then
        if BuddyAligned(a.capacity, prev, ps) then MergeSpec(a, j - 1) else a
      else
        a
  }

  /** merge (allocator.c:293-314): absorb, then check the enlarged block again. */
  function MergeSpec(a: Arena, j: nat): (r: Arena)
    requires j + 1 < |a.free|
    decreases |a.free|, 0
  {
    CheckMergeSpec(Absorb(a, j), j)
  }

  /** sal_free (allocator.c:212-265). */
  function FreeSpec(a: Arena, p: Ptr): (r: Outcome)
  {
    match p
    case Null => Done(a)
    case Payload(addr) =>
      var chunk := addr - HEADER_SIZE;
      if chunk < 0 || chunk !in a.inUse then Aborted
      else
        var a' := Release(a, chunk);
        Done(CheckMergeSpec(a', InsertPos(a.free, chunk)))
  }
}
