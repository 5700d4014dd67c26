/** The block headers of the arena as a map from byte offset to header, what
    it means for them to realise an abstract state of ArenaModel, and the
    header writes of each routine of allocator.c, proved to realise the
    matching step of the abstract state. */
module Headers {
  import opened Layout
  import opened Ring
  import opened ArenaModel
  import opened ArenaFacts

  /** Every live block's header holds its size. */
  ghost predicate SizesRecorded(h: map<nat, Header>, size: map<nat, nat>)
  {
    forall o :: o in size ==> o in h && h[o].size == size[o]
  }

  /** The allocated blocks are exactly the headers tagged ALLOC, and their
      links are -1. */
  ghost predicate AllocTagged(h: map<nat, Header>, inUse: set<nat>)
  {
    && (forall o :: o in inUse ==>
          o in h && h[o].magic == MAGIC_ALLOC && h[o].next == NO_LINK && h[o].prev == NO_LINK)
    && (forall o :: o in h && h[o].magic == MAGIC_ALLOC ==> o in inUse)
  }

  /** The header at offset o is tagged FREE. */
  ghost predicate FreeAt(h: map<nat, Header>, o: nat)
  {
    o in h && h[o].magic == MAGIC_FREE
  }

  /** Every header tagged FREE belongs to a member of the free list.
      Triggered on FreeAt alone, so that it is used only where a proof asks. */
  ghost predicate FreeListed(h: map<nat, Header>, list: seq<nat>)
  {
    forall o {:trigger FreeAt(h, o)} :: FreeAt(h, o) ==> o in list
  }

  /** The headers h realise the abstract state a: the free list is exactly
      the circle of FREE headers, every live block's header holds its size,
      the allocated blocks are exactly the headers tagged ALLOC and their
      links are -1, and a keeps the invariant of ArenaModel. */
  ghost predicate Realises(h: map<nat, Header>, a: Arena)
  {
    && WellFormed(a)
    && Linked(h, a.free)
    && FreeListed(h, a.free)
    && SizesRecorded(h, a.size)
    && AllocTagged(h, a.inUse)
  }

  /** The globals of allocator.c and the headers realise the abstract state
      m: the headers realise m, m records whether the arena is acquired and
      its size, and free_list_ptr is the anchor of m's free list; before
      sal_init there are no headers and every global is zero. */
  ghost predicate Realised(headers: map<nat, Header>, m: Arena, initialised: bool, memorySize: nat, freeListPtr: nat)
  {
    && Realises(headers, m)
    && m.initialised == initialised && m.capacity == memorySize
    && (if initialised then freeListPtr == m.free[0] else headers == map[] && freeListPtr == 0)
  }

  /** The header writes of one split of the block c at m, whose successor on
      the circle is after: m gets a FREE header of size d linked between c
      and after, c shrinks to d and links to m, after links back to m, and
      nothing else changes. */
  ghost predicate SplitWrites(h: map<nat, Header>, h': map<nat, Header>, c: nat, m: nat, after: nat, d: nat)
    requires c in h && after in h
  {
    && h'.Keys == h.Keys + {m}
    && h'[m] == Header(MAGIC_FREE, d, after, c)
    && h'[c] == h[c].(size := d, next := m, prev := if after == c then m else h[c].prev)
    && (after != c ==> h'[after] == h[after].(prev := m))
    && (forall o :: o in h && o != m && o != c && o != after ==> h'[o] == h[o])
  }

  /** The split's header writes link m into the circle right after c. */
  lemma SplitLinks(h: map<nat, Header>, h': map<nat, Header>, list: seq<nat>, j: nat, m: nat, d: nat)
    requires Linked(h, list) && Distinct(list) && j < |list| && m !in list
    requires list[j] in h && h[list[j]].next in h
    requires SplitWrites(h, h', list[j], m, h[list[j]].next, d)
    ensures Linked(h', list[..j + 1] + [m] + list[j + 1..])
  {
    var c := list[j];
    var after := h[c].next;
    LinkedAt(h, list, j);
    assert after == Succ(list, j);
    forall k | 0 <= k < |list|
      ensures list[k] in h' && h'[list[k]].magic == MAGIC_FREE
      ensures k != j ==> list[k] in h && h'[list[k]].next == h[list[k]].next
      ensures list[k] != after ==> list[k] in h && h'[list[k]].prev == h[list[k]].prev
    {
      LinkedAt(h, list, k);
    }
    assert InsertedLinks(h, h', list, j, m);
    LinkedInsert(h, h', list, j, m);
  }

  /** The headers h realise a, and h' is h after the header writes that
      split the free block at position j of a in two. */
  ghost predicate SplitReady(a: Arena, h: map<nat, Header>, h': map<nat, Header>, j: nat)
  {
    && Realises(h, a) && a.initialised && j < |a.free|
    && var c := a.free[j]; var s := SizeOf(a, c);
       && c in h && h[c].next in h && s >= 2
       && SplitWrites(h, h', c, c + s / 2, h[c].next, s / 2)
  }

  /** Before a split: the upper half of the block is not a live block, and
      the block's successor on the circle is the header it links to. */
  lemma SplitReadyFacts(a: Arena, h: map<nat, Header>, h': map<nat, Header>, j: nat)
    requires SplitReady(a, h, h', j)
    ensures var c := a.free[j]; var m := c + SizeOf(a, c) / 2;
      && m !in a.size && m !in a.free && m !in a.inUse && Distinct(a.free)
      && h[c].next == Succ(a.free, j) && c in a.size
  {
    var c := a.free[j];
    var s := SizeOf(a, c);
    assert c in a.size;
    NoBlockInside(a.size, c, c + s / 2);
    AscendingDistinct(a.free);
    LinkedAt(h, a.free, j);
  }

  lemma SplitLinksAt(a: Arena, h: map<nat, Header>, h': map<nat, Header>, j: nat)
    requires SplitReady(a, h, h', j)
    ensures Linked(h', SplitStep(a, j).free)
  {
    var c := a.free[j];
    var s := SizeOf(a, c);
    SplitReadyFacts(a, h, h', j);
    SplitLinks(h, h', a.free, j, c + s / 2, s / 2);
  }

  lemma SplitSizesAt(a: Arena, h: map<nat, Header>, h': map<nat, Header>, j: nat)
    requires SplitReady(a, h, h', j)
    ensures SizesRecorded(h', SplitStep(a, j).size)
  {
    SplitReadyFacts(a, h, h', j);
  }

  lemma SplitTagsAt(a: Arena, h: map<nat, Header>, h': map<nat, Header>, j: nat)
    requires SplitReady(a, h, h', j)
    ensures AllocTagged(h', a.inUse)
  {
    SplitReadyFacts(a, h, h', j);
    LinkedAt(h, a.free, j);
    var c := a.free[j];
    LinkedAt(h, a.free, if j + 1 < |a.free| then j + 1 else 0);
  }

  lemma SplitListedAt(a: Arena, h: map<nat, Header>, h': map<nat, Header>, j: nat)
    requires SplitReady(a, h, h', j)
    ensures FreeListed(h', SplitStep(a, j).free)
  {
    SplitReadyFacts(a, h, h', j);
    var c := a.free[j];
    var m := c + SizeOf(a, c) / 2;
    InsertMembers(a.free, j + 1, m);
    forall o | FreeAt(h', o) ensures o in SplitStep(a, j).free {
      if o != m {
        assert FreeAt(h, o);
      }
    }
  }

  /** The split's header writes realise SplitStep. */
  lemma SplitRealises(a: Arena, h: map<nat, Header>, h': map<nat, Header>, j: nat)
    requires SplitReady(a, h, h', j)
    ensures Realises(h', SplitStep(a, j))
  {
    SplitStepWellFormed(a, j);
    SplitLinksAt(a, h, h', j);
    SplitSizesAt(a, h, h', j);
    SplitTagsAt(a, h, h', j);
    SplitListedAt(a, h, h', j);
  }

  /** The three header writes of reduceMemory, in the source's order, are
      the split's writes. */
  lemma SplitWritesHold(h: map<nat, Header>, c: nat, m: nat, after: nat, d: nat)
    requires c in h && after in h && m != c && m != after
    ensures var h1: map<nat, Header> := h[m := Header(MAGIC_FREE, d, after, c)];
      var h2: map<nat, Header> := h1[c := h1[c].(size := d, next := m)];
      var h3: map<nat, Header> := h2[after := h2[after].(prev := m)];
      SplitWrites(h, h3, c, m, after, d)
  {
  }

  /** The header writes of one step of reduceMemory (allocator.c:161-176)
      on the free block list at position j of a, whose upper half middleList
      starts divideSize bytes in: middleList gets a FREE header linked between
      list and its successor afterList, list shrinks to divideSize and links
      to middleList, and afterList links back. They realise SplitStep. */
  function SplitHeaders(h: map<nat, Header>, list: nat, middleList: nat, divideSize: nat,
                        ghost a: Arena, ghost j: nat): (h': map<nat, Header>)
    requires Realises(h, a) && a.initialised && j < |a.free| && list == a.free[j]
    requires SizeOf(a, list) >= 2 && divideSize == SizeOf(a, list) / 2 && middleList == list + divideSize
    ensures Realises(h', SplitStep(a, j))
  {
    SplitPrepared(a, h, j);
    var afterList := h[list].next;
    LinkedAt(h, a.free, j);
    LinkedMember(h, a.free, afterList);
    SplitWritesHold(h, list, middleList, afterList, divideSize);
    var h1: map<nat, Header> := h[middleList := Header(MAGIC_FREE, divideSize, afterList, list)];
    var h2: map<nat, Header> := h1[list := h1[list].(size := divideSize, next := middleList)];
    var h3: map<nat, Header> := h2[afterList := h2[afterList].(prev := middleList)];
    SplitRealises(a, h, h3, j);
    // checkCorruption(list), checkCorruption(middleList), checkCorruption(afterList)
    assert h3[list].magic == MAGIC_FREE && h3[middleList].magic == MAGIC_FREE && h3[afterList].magic == MAGIC_FREE;
    h3
  }

  /** Before reduceMemory's writes: the block's header holds its size and
      links to a header, its upper half is neither the block nor that
      successor, and the split puts the upper half at position j + 1 with
      half the size, leaving the anchor in place. */
  lemma SplitPrepared(a: Arena, h: map<nat, Header>, j: nat)
    requires Realises(h, a) && a.initialised && j < |a.free| && SizeOf(a, a.free[j]) >= 2
    ensures var c := a.free[j]; var m := c + SizeOf(a, c) / 2;
      && c in h && h[c].size == SizeOf(a, c) && h[c].next in h && m != c && m != h[c].next
    ensures var a' := SplitStep(a, j); var c := a.free[j];
      && j + 1 < |a'.free| && a'.free[0] == a.free[0] && a'.free[j + 1] == c + SizeOf(a, c) / 2
      && SizeOf(a', a'.free[j + 1]) == SizeOf(a, c) / 2
  {
    var c := a.free[j];
    var s := SizeOf(a, c);
    LinkedAt(h, a.free, j);
    assert c in a.size;
    NoBlockInside(a.size, c, c + s / 2);
    if j + 1 < |a.free| {
      FreeBlockBeforeNext(a, j);
    }
  }

  /** sal_free aborts exactly when the header in front of the pointer is not
      tagged ALLOC (allocator.c:219), the only test it makes; NULL changes
      nothing. */
  lemma FreeAborts(h: map<nat, Header>, a: Arena, p: Ptr)
    requires Realises(h, a)
    ensures p == Null ==> FreeSpec(a, p) == Done(a)
    ensures FreeSpec(a, p).Aborted? <==>
      p.Payload? && (p.addr < HEADER_SIZE || p.addr - HEADER_SIZE !in h || h[p.addr - HEADER_SIZE].magic != MAGIC_ALLOC)
  {
  }

  /** The header of the free block at position i holds its size. */
  lemma FreeSizeAt(a: Arena, h: map<nat, Header>, i: nat)
    requires WellFormed(a) && a.initialised && SizesRecorded(h, a.size) && i < |a.free|
    ensures a.free[i] in h && h[a.free[i]].size == SizeOf(a, a.free[i]) >= 1
  {
    assert a.free[i] in a.size;
    assert WellPlaced(a.free[i], a.size[a.free[i]], a.capacity);
  }

  // ------------------------------------------------------ unlinking (malloc)

  /** The header writes of sal_malloc that hand out the block c, whose
      neighbours on the circle are pr and nx: c is tagged ALLOC with both
      links -1, pr and nx are linked to each other, and nothing else changes. */
  ghost predicate TakeWrites(h: map<nat, Header>, h': map<nat, Header>, c: nat, pr: nat, nx: nat)
    requires c in h && pr in h && nx in h
  {
    && h'.Keys == h.Keys
    && h'[c] == h[c].(magic := MAGIC_ALLOC, next := NO_LINK, prev := NO_LINK)
    && (if pr == nx then h'[pr] == h[pr].(next := pr, prev := pr)
        else h'[pr] == h[pr].(next := nx) && h'[nx] == h[nx].(prev := pr))
    && (forall o :: o in h && o != c && o != pr && o != nx ==> h'[o] == h[o])
  }

  /** The headers h realise a, a has at least two free blocks, and h' is h
      after the writes that hand out the free block at position j. */
  ghost predicate TakeReady(a: Arena, h: map<nat, Header>, h': map<nat, Header>, j: nat)
  {
    && Realises(h, a) && a.initialised && 2 <= |a.free| && j < |a.free|
    && a.free[j] in h && Pred(a.free, j) in h && Succ(a.free, j) in h
    && TakeWrites(h, h', a.free[j], Pred(a.free, j), Succ(a.free, j))
  }

  lemma TakeLinksAt(a: Arena, h: map<nat, Header>, h': map<nat, Header>, j: nat)
    requires TakeReady(a, h, h', j)
    ensures Linked(h', Take(a, j).free)
  {
    var list := a.free;
    AscendingDistinct(list);
    forall k | 0 <= k < |list| && k != j
      ensures list[k] in h' && h'[list[k]].magic == MAGIC_FREE
      ensures list[k] != Pred(list, j) ==> list[k] in h && h'[list[k]].next == h[list[k]].next
      ensures list[k] != Succ(list, j) ==> list[k] in h && h'[list[k]].prev == h[list[k]].prev
    {
      LinkedAt(h, list, k);
    }
    LinkedAt(h, list, j);
    assert RemovedLinks(h, h', list, j);
    LinkedRemove(h, h', list, j);
  }

  lemma TakeSizesAt(a: Arena, h: map<nat, Header>, h': map<nat, Header>, j: nat)
    requires TakeReady(a, h, h', j)
    ensures SizesRecorded(h', Take(a, j).size)
  {
  }

  lemma TakeTagsAt(a: Arena, h: map<nat, Header>, h': map<nat, Header>, j: nat)
    requires TakeReady(a, h, h', j)
    ensures AllocTagged(h', Take(a, j).inUse)
  {
    LinkedAt(h, a.free, j);
    LinkedAt(h, a.free, if j > 0 then j - 1 else |a.free| - 1);
    LinkedAt(h, a.free, if j + 1 < |a.free| then j + 1 else 0);
  }

  lemma TakeListedAt(a: Arena, h: map<nat, Header>, h': map<nat, Header>, j: nat)
    requires TakeReady(a, h, h', j)
    ensures FreeListed(h', Take(a, j).free)
  {
    RemoveMembers(a.free, j);
    forall o | FreeAt(h', o) ensures o in Take(a, j).free {
      assert o != a.free[j];
      assert FreeAt(h, o);
    }
  }

  /** Handing out the block at position j by its header writes realises Take. */
  lemma TakeRealises(a: Arena, h: map<nat, Header>, h': map<nat, Header>, j: nat)
    requires TakeReady(a, h, h', j)
    ensures Realises(h', Take(a, j))
  {
    TakeWellFormed(a, j);
    TakeLinksAt(a, h, h', j);
    TakeSizesAt(a, h, h', j);
    TakeTagsAt(a, h, h', j);
    TakeListedAt(a, h, h', j);
  }

  /** The four header writes of sal_malloc, in the source's order, are the
      hand-out's writes. */
  lemma TakeWritesHold(h: map<nat, Header>, c: nat)
    requires c in h && h[c].prev in h && h[c].next in h && h[c].prev != c && h[c].next != c
    ensures var h1: map<nat, Header> := h[c := h[c].(magic := MAGIC_ALLOC)];
      var h2: map<nat, Header> := h1[h1[c].prev := h1[h1[c].prev].(next := h1[c].next)];
      var h3: map<nat, Header> := h2[h2[c].next := h2[h2[c].next].(prev := h2[c].prev)];
      var h4: map<nat, Header> := h3[c := h3[c].(next := NO_LINK, prev := NO_LINK)];
      TakeWrites(h, h4, c, h[c].prev, h[c].next)
  {
  }

  /** The header writes of sal_malloc that hand out foundMemory, the free
      block at position j of a (allocator.c:142-150): it is tagged ALLOC, its
      predecessor links forward to its successor and back, and its own links
      become -1. They realise Take. */
  function UnlinkHeaders(h: map<nat, Header>, foundMemory: nat, ghost a: Arena, ghost j: nat): (h': map<nat, Header>)
    requires Realises(h, a) && a.initialised && 2 <= |a.free| && j < |a.free| && foundMemory == a.free[j]
    ensures Realises(h', Take(a, j))
  {
    NeighboursDiffer(a.free, j);
    LinkedAt(h, a.free, j);
    LinkedAt(h, a.free, if j > 0 then j - 1 else |a.free| - 1);
    LinkedAt(h, a.free, if j + 1 < |a.free| then j + 1 else 0);
    TakeWritesHold(h, foundMemory);
    var h1: map<nat, Header> := h[foundMemory := h[foundMemory].(magic := MAGIC_ALLOC)];
    var current := h1[foundMemory].prev;
    var h2: map<nat, Header> := h1[current := h1[current].(next := h1[foundMemory].next)];
    var current := h2[foundMemory].next;
    var h3: map<nat, Header> := h2[current := h2[current].(prev := h2[foundMemory].prev)];
    var h4: map<nat, Header> := h3[foundMemory := h3[foundMemory].(next := NO_LINK, prev := NO_LINK)];
    TakeRealises(a, h, h4, j);
    h4
  }

  // ------------------------------------------------------- linking in (free)

  /** The list position sal_free links a released block x in after: the
      predecessor of its address position on the circle. */
  function InsertAfter(list: seq<nat>, x: nat): (q: nat)
    requires |list| >= 1
    ensures q < |list|
  {
    var p := InsertPos(list, x);
    if p > 0 then p - 1 else |list| - 1
  }

  /** The header writes of sal_free that link the block x in between cur and
      its successor after: x is tagged FREE and linked between them, and
      nothing else changes. */
  ghost predicate InsertWrites(h: map<nat, Header>, h': map<nat, Header>, x: nat, cur: nat, after: nat)
    requires x in h && cur in h && after in h
  {
    && h'.Keys == h.Keys
    && h'[x] == h[x].(magic := MAGIC_FREE, next := after, prev := cur)
    && (if cur == after then h'[cur] == h[cur].(next := x, prev := x)
        else h'[cur] == h[cur].(next := x) && h'[after] == h[after].(prev := x))
    && (forall o :: o in h && o != x && o != cur && o != after ==> h'[o] == h[o])
  }

  /** The headers h realise a, x is allocated, and h' is h after the writes
      that link x back in after position InsertAfter(a.free, x). */
  ghost predicate ReleaseReady(a: Arena, h: map<nat, Header>, h': map<nat, Header>, x: nat)
  {
    && Realises(h, a) && a.initialised && x in a.inUse && x in h
    && var cur := a.free[InsertAfter(a.free, x)];
       && cur in h && h[cur].next in h
       && InsertWrites(h, h', x, cur, h[cur].next)
  }

  /** sal_free's header writes link x into the circle right after position q. */
  lemma InsertLinks(h: map<nat, Header>, h': map<nat, Header>, list: seq<nat>, q: nat, x: nat)
    requires Linked(h, list) && Distinct(list) && q < |list| && x !in list
    requires x in h && list[q] in h && h[list[q]].next in h
    requires InsertWrites(h, h', x, list[q], h[list[q]].next)
    ensures Linked(h', list[..q + 1] + [x] + list[q + 1..])
  {
    LinkedAt(h, list, q);
    forall k | 0 <= k < |list|
      ensures list[k] in h' && h'[list[k]].magic == MAGIC_FREE
      ensures k != q ==> list[k] in h && h'[list[k]].next == h[list[k]].next
      ensures list[k] != Succ(list, q) ==> list[k] in h && h'[list[k]].prev == h[list[k]].prev
    {
      LinkedAt(h, list, k);
    }
    assert InsertedLinks(h, h', list, q, x);
    LinkedInsert(h, h', list, q, x);
  }

  /** Inserting after the predecessor of x's address position is inserting at
      that position; when the position is 0 the predecessor is the last member
      and x lands at the end of the circle. */
  lemma InsertAfterShape(list: seq<nat>, x: nat)
    requires |list| >= 1
    ensures var p, q := InsertPos(list, x), InsertAfter(list, x);
      list[..q + 1] + [x] + list[q + 1..] == if p == 0 then list + [x] else list[..p] + [x] + list[p..]
  {
  }

  lemma ReleaseLinksAt(a: Arena, h: map<nat, Header>, h': map<nat, Header>, x: nat)
    requires ReleaseReady(a, h, h', x)
    ensures Linked(h', Release(a, x).free)
  {
    var list := a.free;
    var p := InsertPos(list, x);
    AscendingDistinct(list);
    assert x !in list by {
      forall k | 0 <= k < |list| ensures list[k] != x {
      }
    }
    InsertLinks(h, h', list, InsertAfter(list, x), x);
    InsertAfterShape(list, x);
    if p == 0 {
      LinkedRotate(h', list, x);
      assert Release(a, x).free == [x] + list;
    }
  }

  lemma ReleaseSizesAt(a: Arena, h: map<nat, Header>, h': map<nat, Header>, x: nat)
    requires ReleaseReady(a, h, h', x)
    ensures SizesRecorded(h', Release(a, x).size)
  {
  }

  lemma ReleaseTagsAt(a: Arena, h: map<nat, Header>, h': map<nat, Header>, x: nat)
    requires ReleaseReady(a, h, h', x)
    ensures AllocTagged(h', Release(a, x).inUse)
  {
    var q := InsertAfter(a.free, x);
    LinkedAt(h, a.free, q);
    LinkedAt(h, a.free, if q + 1 < |a.free| then q + 1 else 0);
  }

  lemma ReleaseListedAt(a: Arena, h: map<nat, Header>, h': map<nat, Header>, x: nat)
    requires ReleaseReady(a, h, h', x)
    ensures FreeListed(h', Release(a, x).free)
  {
    InsertMembers(a.free, InsertPos(a.free, x), x);
    forall o | FreeAt(h', o) ensures o in Release(a, x).free {
      if o != x {
        assert FreeAt(h, o);
      }
    }
  }

  /** Linking a released block in by its header writes realises Release. */
  lemma ReleaseRealises(a: Arena, h: map<nat, Header>, h': map<nat, Header>, x: nat)
    requires ReleaseReady(a, h, h', x)
    ensures Realises(h', Release(a, x))
  {
    ReleaseWellFormed(a, x);
    ReleaseLinksAt(a, h, h', x);
    ReleaseSizesAt(a, h, h', x);
    ReleaseTagsAt(a, h, h', x);
    ReleaseListedAt(a, h, h', x);
  }

  /** Once sal_free has linked x in, the two headers it then checks
      (allocator.c:251, 261), x's successor and the previous anchor, are
      tagged FREE. */
  lemma ReleaseChecked(h: map<nat, Header>, a: Arena, x: nat)
    requires Realises(h, Release(a, x)) && |a.free| >= 1
    ensures x in h && h[x].next in h && h[h[x].next].magic == MAGIC_FREE
    ensures a.free[0] in h && h[a.free[0]].magic == MAGIC_FREE
  {
    var list := Release(a, x).free;
    var p := InsertPos(a.free, x);
    InsertMembers(a.free, p, x);
    assert list[p] == x;
    LinkedAt(h, list, p);
    LinkedMember(h, list, h[x].next);
    LinkedMember(h, list, a.free[0]);
  }

  /** The four header writes of sal_free, in the source's order, are the
      link-in's writes. */
  lemma InsertWritesHold(h: map<nat, Header>, x: nat, cur: nat)
    requires x in h && cur in h && h[cur].next in h && x != cur && x != h[cur].next
    ensures var h1: map<nat, Header> := h[x := h[x].(magic := MAGIC_FREE)];
      var h2: map<nat, Header> := h1[x := h1[x].(next := h1[cur].next, prev := cur)];
      var h3: map<nat, Header> := h2[cur := h2[cur].(next := x)];
      var h4: map<nat, Header> := h3[h3[x].next := h3[h3[x].next].(prev := x)];
      InsertWrites(h, h4, x, cur, h[cur].next)
  {
  }

  /** The header writes of sal_free that put the allocated block chunk back
      on the circle after current, the free block the walk stopped at
      (allocator.c:229, 245-252): chunk is tagged FREE and linked between
      current and its successor, which both link to it. They realise
      Release. */
  function LinkInHeaders(h: map<nat, Header>, chunk: nat, current: nat, ghost a: Arena): (h': map<nat, Header>)
    requires Realises(h, a) && a.initialised && chunk in a.inUse
    requires current == a.free[InsertAfter(a.free, chunk)]
    ensures Realises(h', Release(a, chunk))
  {
    LinkedAt(h, a.free, InsertAfter(a.free, chunk));
    LinkedAt(h, a.free, if InsertAfter(a.free, chunk) + 1 < |a.free| then InsertAfter(a.free, chunk) + 1 else 0);
    InsertWritesHold(h, chunk, current);
    var h1: map<nat, Header> := h[chunk := h[chunk].(magic := MAGIC_FREE)];
    var h2: map<nat, Header> := h1[chunk := h1[chunk].(next := h1[current].next, prev := current)];
    var h3: map<nat, Header> := h2[current := h2[current].(next := chunk)];
    var after := h3[chunk].next;
    var h4: map<nat, Header> := h3[after := h3[after].(prev := chunk)];
    ReleaseRealises(a, h, h4, chunk);
    h4
  }

  // ---------------------------------------------------------------- merging

  /** The header writes of merge on the block c, its successor d and the
      successor's successor e: c doubles and links to e, e links back to c,
      d's header is zeroed, and nothing else changes. */
  ghost predicate MergeWrites(h: map<nat, Header>, h': map<nat, Header>, c: nat, d: nat, e: nat)
    requires c in h && d in h && e in h
  {
    && h'.Keys == h.Keys
    && h'[d] == ZERO_HEADER
    && (if e == c then h'[c] == h[c].(size := 2 * h[c].size, next := c, prev := c)
        else h'[c] == h[c].(size := 2 * h[c].size, next := e) && h'[e] == h[e].(prev := c))
    && (forall o :: o in h && o != c && o != d && o != e ==> h'[o] == h[o])
  }

  /** The headers h realise a, the free block at position j may absorb its
      successor, and h' is h after merge's writes. */
  ghost predicate AbsorbReady(a: Arena, h: map<nat, Header>, h': map<nat, Header>, j: nat)
  {
    && Realises(h, a) && a.initialised && j + 1 < |a.free| && Mergeable(a, j)
    && var c, d, e := a.free[j], a.free[j + 1], Succ(a.free, j + 1);
       && c in h && d in h && e in h
       && MergeWrites(h, h', c, d, e)
  }

  lemma AbsorbLinksAt(a: Arena, h: map<nat, Header>, h': map<nat, Header>, j: nat)
    requires AbsorbReady(a, h, h', j)
    ensures Linked(h', Absorb(a, j).free)
  {
    var list := a.free;
    AscendingDistinct(list);
    assert Pred(list, j + 1) == list[j];
    forall k | 0 <= k < |list| && k != j + 1
      ensures list[k] in h' && h'[list[k]].magic == MAGIC_FREE
      ensures list[k] != Pred(list, j + 1) ==> list[k] in h && h'[list[k]].next == h[list[k]].next
      ensures list[k] != Succ(list, j + 1) ==> list[k] in h && h'[list[k]].prev == h[list[k]].prev
    {
      LinkedAt(h, list, k);
    }
    LinkedAt(h, list, j);
    assert RemovedLinks(h, h', list, j + 1);
    LinkedRemove(h, h', list, j + 1);
  }

  lemma AbsorbSizesAt(a: Arena, h: map<nat, Header>, h': map<nat, Header>, j: nat)
    requires AbsorbReady(a, h, h', j)
    ensures SizesRecorded(h', Absorb(a, j).size)
  {
    NeighboursDiffer(a.free, j + 1);
    assert a.free[j] in a.size;
  }

  lemma AbsorbTagsAt(a: Arena, h: map<nat, Header>, h': map<nat, Header>, j: nat)
    requires AbsorbReady(a, h, h', j)
    ensures AllocTagged(h', Absorb(a, j).inUse)
  {
    NeighboursDiffer(a.free, j + 1);
    LinkedAt(h, a.free, j);
    LinkedAt(h, a.free, j + 1);
    LinkedAt(h, a.free, if j + 2 < |a.free| then j + 2 else 0);
  }

  lemma AbsorbListedAt(a: Arena, h: map<nat, Header>, h': map<nat, Header>, j: nat)
    requires AbsorbReady(a, h, h', j)
    ensures FreeListed(h', Absorb(a, j).free)
  {
    RemoveMembers(a.free, j + 1);
    assert a.free[..j + 1] + a.free[j + 2..] == a.free[..j + 1] + a.free[j + 1 + 1..];
    forall o | FreeAt(h', o) ensures o in Absorb(a, j).free {
      assert o != a.free[j + 1];
      assert FreeAt(h, o);
    }
  }

  /** Merging by merge's header writes realises Absorb, which keeps the
      anchor and the merged block's position. */
  lemma AbsorbRealises(a: Arena, h: map<nat, Header>, h': map<nat, Header>, j: nat)
    requires AbsorbReady(a, h, h', j)
    ensures Realises(h', Absorb(a, j))
    ensures var a' := Absorb(a, j);
      && a'.initialised && a'.capacity == a.capacity
      && j < |a'.free| && a'.free[0] == a.free[0] && a'.free[j] == a.free[j]
  {
    AbsorbWellFormed(a, j);
    AbsorbLinksAt(a, h, h', j);
    AbsorbSizesAt(a, h, h', j);
    AbsorbTagsAt(a, h, h', j);
    AbsorbListedAt(a, h, h', j);
  }

  /** The four header writes of merge, in the source's order, are the
      merge's writes. */
  lemma MergeWritesHold(h: map<nat, Header>, c: nat)
    requires c in h && h[c].next in h && h[h[c].next].next in h
    requires h[c].next != c && h[h[c].next].next != h[c].next
    ensures var d := h[c].next;
      var h1: map<nat, Header> := h[c := h[c].(next := h[d].next)];
      var h2: map<nat, Header> := h1[d := ZERO_HEADER];
      var h3: map<nat, Header> := h2[h2[c].next := h2[h2[c].next].(prev := c)];
      var h4: map<nat, Header> := h3[c := h3[c].(size := h3[c].size * 2)];
      MergeWrites(h, h4, c, d, h[d].next)
  {
  }

  /** The header writes of merge on chunk, the free block at position j of
      a, and its successor afterChunk (allocator.c:295-307): chunk links to
      afterChunk's successor, afterChunk's header is zeroed, the successor
      links back to chunk, and chunk doubles in size. They realise Absorb. */
  function MergeHeaders(h: map<nat, Header>, chunk: nat, ghost a: Arena, ghost j: nat): (h': map<nat, Header>)
    requires Realises(h, a) && a.initialised && j + 1 < |a.free| && chunk == a.free[j] && Mergeable(a, j)
    ensures Realises(h', Absorb(a, j))
  {
    NeighboursDiffer(a.free, j + 1);
    LinkedAt(h, a.free, j);
    LinkedAt(h, a.free, j + 1);
    LinkedAt(h, a.free, if j + 2 < |a.free| then j + 2 else 0);
    MergeWritesHold(h, chunk);
    var afterChunk := h[chunk].next;
    var h1: map<nat, Header> := h[chunk := h[chunk].(next := h[afterChunk].next)];
    // checkCorruption(chunk), checkCorruption(afterChunk)
    assert h1[chunk].magic == MAGIC_FREE && h1[afterChunk].magic == MAGIC_FREE;
    var h2: map<nat, Header> := h1[afterChunk := ZERO_HEADER];
    var after := h2[chunk].next;
    var h3: map<nat, Header> := h2[after := h2[after].(prev := chunk)];
    var h4: map<nat, Header> := h3[chunk := h3[chunk].(size := h3[chunk].size * 2)];
    AbsorbRealises(a, h, h4, j);
    // checkCorruption(chunk), checkCorruption(afterChunk)
    assert h4[chunk].magic == MAGIC_FREE && h4[after].magic == MAGIC_FREE;
    h4
  }
}
