/** The suballocator of allocator.c as the program keeps it: the arena's block
    headers, addressed by byte offset, and the three globals memory (here
    initialised), memory_size and free_list_ptr. Ghost fields name the
    abstract state the headers realise; every routine is proved to change
    that state exactly as the matching function of ArenaModel says. */
module Allocator {
  import opened Powers
  import opened Layout
  import opened Ring
  import opened ArenaModel
  import opened ArenaFacts
  import opened Headers

  /** power_of_two (allocator.c:86-92): double from 1 until the request is
      reached. Past 2^31 the 32-bit counter wraps to 0 and the loop never
      ends, so the request is bounded by 2^31. */
  method PowerOfTwo(number: nat) returns (rounded: nat)
    requires number <= MAX_ARENA
    ensures rounded == RoundUp(number)
    ensures IsPow2(rounded) && number <= rounded && (rounded == 1 || rounded / 2 < number)
  {
    rounded := 1;
    while rounded < number
      invariant IsPow2(rounded) && (rounded == 1 || rounded / 2 < number)
      decreases number - rounded
    {
      Pow2Double(rounded);
      rounded := rounded * 2;
    }
    RoundUpUnique(number, rounded);
  }

  /** Adding the modulus keeps a multiple a multiple. */
  lemma AddModulus(x: int, m: int)
    requires m > 0 && x % m == 0
    ensures (x + m) % m == 0
  {
    var q := x / m;
    assert x == q * m;
    assert x + m == (q + 1) * m;
    ModUnique(x + m, m, q + 1, 0);
  }

  /** A walk from index in strides of step that stops at the first point x at
      or past the capacity lands on the capacity exactly when the distance
      from index to the capacity is a multiple of the step. */
  lemma LandsOnCapacity(capacity: int, index: int, step: int, x: int)
    requires step > 0 && index <= capacity <= x < capacity + step && (x - index) % step == 0
    ensures x == capacity <==> (capacity - index) % step == 0
  {
    if (capacity - index) % step == 0 {
      ModDifference(x - index, x - capacity, step);
      ModUnique(x - capacity, step, 0, x - capacity);
    }
  }

  /** The allocator state: the globals of allocator.c and the block headers. */
  class SubAllocator {
    /** memory != NULL */
    var initialised: bool
    /** memory_size */
    var memorySize: nat
    /** free_list_ptr */
    var freeListPtr: nat
    /** The header at each offset of the arena that has ever held one. */
    var headers: map<nat, Header>

    /** The abstract state the headers realise: the free list from its
        anchor, the allocated blocks and the size of every live block. */
    ghost var Model: Arena

    /** The headers realise the abstract state, whose anchor is free_list_ptr;
        before sal_init there are none. */
    ghost predicate Valid()
      reads this
    {
      Realised(headers, Model, initialised, memorySize, freeListPtr)
    }

    /** The static globals before sal_init: all zero. */
    constructor ()
      ensures Valid() && Model == Empty
    {
      initialised, memorySize, freeListPtr, headers := false, 0, 0, map[];
      Model := Empty;
    }

    /** sal_init (allocator.c:53-83). A size of 2^31 or more below MAX_SIZE
        makes power_of_two loop forever, so it is excluded. */
    method Init(size: nat)
      requires Valid() && size <= MAX_SIZE
      requires initialised || size <= MAX_ARENA || size == MAX_SIZE
      modifies this
      ensures Valid() && Model == InitSpec(old(Model), size)
    {
      InitWellFormed(Model, size);
      if !initialised && size < MAX_SIZE {
        var allocatedSize := PowerOfTwo(size);
        initialised := true;
        memorySize := allocatedSize;
        freeListPtr := 0;
        headers := map[0 := Header(MAGIC_FREE, allocatedSize, 0, 0)];
        Model := InitSpec(Model, size);
      }
    }

    /** validMerge (allocator.c:318-337): step up from index in strides of
        twice the size while below memory_size; the merge is valid when the
        walk lands on memory_size. The source answers 0 for valid. */
    method ValidMerge(index: nat, size: nat) returns (valid: bool)
      requires size > 0
      ensures valid <==> BuddyAligned(memorySize, index, size)
    {
      var newIndex := index;
      var newSize := size * 2;
      ModUnique(0, newSize, 0, 0);
      while newIndex < memorySize
        invariant index <= newIndex && (newIndex - index) % newSize == 0
        invariant newIndex > index ==> newIndex < memorySize + newSize
        decreases memorySize - newIndex
      {
        AddModulus(newIndex - index, newSize);
        newIndex := newIndex + newSize;
      }
      if index <= memorySize {
        LandsOnCapacity(memorySize, index, newSize, newIndex);
      }
      valid := newIndex == memorySize;
    }
  
    /** The best-fit scan of sal_malloc (allocator.c:114-129): walk the circle
        from the anchor's successor back to the anchor, keeping the last
        block of least size that holds need bytes; the anchor is the default
        and is never compared. */
    method ScanBestFit(startList: nat, need: nat) returns (foundMemory: nat, ghost j: nat)
      requires Valid() && initialised && startList == Model.free[0]
      ensures foundMemory == Model.free[BestFit(Model, need)]
      ensures j == BestFit(Model, need) && j < |Model.free| && foundMemory == Model.free[j]
    {
      ghost var a := Model;
      AscendingDistinct(Model.free);
      foundMemory, j := startList, 0;
      LinkedAt(headers, Model.free, 0);
      var current := headers[startList].next;
      LinkedMember(headers, Model.free, current);
      assert headers[current].magic == MAGIC_FREE;  // checkCorruption(current)
      ghost var i := 1;
      var bestMemorySize: int := memorySize;
      while current != startList
        invariant 1 <= i <= |Model.free| && j < i
        invariant current == Succ(Model.free, i - 1)
        invariant foundMemory == Model.free[j]
        invariant ScanFrom(a, need, i, j, bestMemorySize) == BestFit(a, need)
        decreases |Model.free| - i
      {
        assert i < |Model.free|;
        LinkedAt(headers, Model.free, i);
        FreeSizeAt(a, headers, i);
        if headers[current].size >= need && headers[current].size <= bestMemorySize {
          foundMemory, j := current, i;
          bestMemorySize := headers[current].size;
        }
        current := headers[current].next;
        LinkedMember(headers, Model.free, current);
        assert headers[current].magic == MAGIC_FREE;  // checkCorruption(current)
        i := i + 1;
      }
    }

    /** reduceMemory (allocator.c:159-189): split the block at list position j
        in two, link the upper half in after it, and keep splitting the upper
        half while its half still holds size bytes plus a header. Returns the
        last upper half and its list position. */
    method ReduceMemory(list: nat, ghost j: nat, size: nat) returns (middleList: nat, ghost k: nat)
      requires Valid() && initialised && j < |Model.free| && list == Model.free[j]
      requires SizeOf(Model, list) / 2 >= size + HEADER_SIZE
      modifies this`headers, this`Model
      ensures Valid()
      ensures (Model, k) == Reduce(old(Model), j, size + HEADER_SIZE)
      ensures k < |Model.free| && middleList == Model.free[k]
      decreases SizeOf(Model, list)
    {
      ghost var a := Model;
      SplitPrepared(a, headers, j);
      var divideSize := headers[list].size / 2;
      middleList := list + divideSize;
      headers, Model := SplitHeaders(headers, list, middleList, divideSize, a, j), SplitStep(a, j);
      FreeSizeAt(Model, headers, j + 1);
      k := j + 1;
      if headers[middleList].size / 2 >= size + HEADER_SIZE {
        middleList, k := ReduceMemory(middleList, j + 1, size);
      }
    }

    /** The hand-out at the end of sal_malloc (allocator.c:138-150): move the
        anchor on if the anchor is the chosen block, tag the block ALLOC and
        unlink it, setting its links to -1. */
    method HandOut(foundMemory: nat, ghost j: nat, startList: nat)
      requires Valid() && initialised && 2 <= |Model.free| && j < |Model.free|
      requires foundMemory == Model.free[j] && startList == freeListPtr
      modifies this`headers, this`freeListPtr, this`Model
      ensures Valid() && Model == Take(old(Model), j)
    {
      ghost var a := Model;
      LinkedAt(headers, Model.free, 0);
      var anchor := freeListPtr;
      if foundMemory == startList {
        anchor := headers[startList].next;
      }
      TakeUnlinks(a, j);
      headers, freeListPtr, Model := UnlinkHeaders(headers, foundMemory, a, j), anchor, Take(a, j);
    }

    /** sal_malloc (allocator.c:94-156): refuse requests that are empty or
        need more than half the arena, refuse when the only free block cannot
        be split, pick the best fit, refuse when it is too small, split it
        down while its half still holds the request, move the anchor on if
        the anchor was chosen, and unlink the block tagged ALLOC. Returns the
        address just past the block's header. */
    method Malloc(n: nat) returns (p: Ptr)
      requires Valid()
      modifies this`headers, this`freeListPtr, this`Model
      ensures Valid() && (Model, p) == MallocSpec(old(Model), n)
    {
      ghost var a := Model;
      p := Null;
      if n + HEADER_SIZE <= memorySize / 2 && n > 0 {
        var startList := freeListPtr;
        if |Model.free| >= 2 {
          AscendingAt(Model.free, 0, 1);
        }
        LinkedAt(headers, Model.free, 0);
        FreeSizeAt(a, headers, 0);
        assert headers[startList].magic == MAGIC_FREE;  // checkCorruption(startList)
        if !(startList == headers[startList].next && headers[startList].size / 2 < n + HEADER_SIZE) {
          var foundMemory, j := ScanBestFit(startList, n + HEADER_SIZE);
          FreeSizeAt(a, headers, j);
          if headers[foundMemory].size >= n + HEADER_SIZE {
            p := Allocate(foundMemory, j, startList, n);
          }
        }
      }
    }

    /** The end of sal_malloc (allocator.c:135-152), once the chosen block at
        list position j holds the request: split it down while its half still
        holds the request plus a header, then hand out the block reached. */
    method Allocate(foundMemory: nat, ghost j: nat, startList: nat, n: nat) returns (p: Ptr)
      requires Valid() && initialised && j < |Model.free| && foundMemory == Model.free[j]
      requires startList == freeListPtr && SizeOf(Model, foundMemory) >= n + HEADER_SIZE
      requires 2 <= |Model.free| || SizeOf(Model, foundMemory) / 2 >= n + HEADER_SIZE
      modifies this`headers, this`freeListPtr, this`Model
      ensures Valid() && (Model, p) == Carve(old(Model), j, n + HEADER_SIZE)
    {
      FreeSizeAt(Model, headers, j);
      var list, k := foundMemory, j;
      if headers[foundMemory].size / 2 >= n + HEADER_SIZE {
        list, k := ReduceMemory(foundMemory, j, n);
      }
      HandOut(list, k, startList);
      p := Payload(list + HEADER_SIZE);
    }
  
    /** sal_free (allocator.c:212-265). NULL changes nothing. A pointer whose
        header is not tagged ALLOC aborts the process, before any write. For an
        allocated block: tag it FREE, walk the circle from the anchor to the
        first block above it (or to the last block), step back one, link it in
        after that block, make it the anchor if it lies below the anchor, and
        check it for merging. */
    method Free(ptr: Ptr) returns (aborted: bool)
      requires Valid()
      modifies this`headers, this`freeListPtr, this`Model
      ensures aborted <==> FreeSpec(old(Model), ptr).Aborted?
      ensures aborted ==> unchanged(this)
      ensures !aborted ==> Valid() && Model == FreeSpec(old(Model), ptr).arena
    {
      FreeAborts(headers, Model, ptr);
      aborted := false;
      if ptr.Payload? {
        var chunk := ptr.addr - HEADER_SIZE;
        if chunk < 0 || chunk !in headers || headers[chunk].magic != MAGIC_ALLOC {
          aborted := true;
        } else {
          ReleaseBlock(chunk);
        }
      }
    }

    /** The walk of sal_free (allocator.c:226-242): from the anchor to the
        first block above chunk, or to the last block when there is none,
        then one step back. The block found is the one chunk is linked in
        after. */
    method FindInsertPoint(chunk: nat) returns (current: nat)
      requires Valid() && initialised && chunk in Model.inUse
      ensures current == Model.free[InsertAfter(Model.free, chunk)]
    {
      ghost var list := Model.free;
      AscendingDistinct(list);
      current := freeListPtr;
      ghost var i := 0;
      LinkedAt(headers, list, 0);
      while current < chunk && headers[current].next != freeListPtr
        invariant i < |list| && current == list[i] && current in headers
        invariant forall k :: 0 <= k < i ==> list[k] < chunk
        decreases |list| - i
      {
        LinkedAt(headers, list, i);
        current := headers[current].next;
        i := i + 1;
        LinkedAt(headers, list, i);
        assert headers[current].magic == MAGIC_FREE;  // checkCorruption(current)
      }
      LinkedAt(headers, list, i);
      ghost var p := InsertPos(list, chunk);
      if current < chunk {
        assert p == |list|;
        LinkedAt(headers, list, 0);
        current := headers[current].next;
        current := headers[current].prev;
      } else {
        assert list[i] != chunk;
        assert p == i;
        current := headers[current].prev;
      }
    }

    /** The body of sal_free past its abort check (allocator.c:229-264): tag
        the block FREE, link it in after the block the walk found, make it the
        anchor if it lies below the anchor, and check it for merging. */
    method ReleaseBlock(chunk: nat)
      requires Valid() && initialised && chunk in Model.inUse
      modifies this`headers, this`freeListPtr, this`Model
      ensures Valid() && Model == CheckMergeSpec(Release(old(Model), chunk), InsertPos(old(Model.free), chunk))
    {
      ghost var a := Model;
      var current := FindInsertPoint(chunk);
      var anchor := freeListPtr;
      if chunk < anchor {
        anchor := chunk;
      }
      ReleaseWellFormed(a, chunk);
      headers, freeListPtr, Model := LinkInHeaders(headers, chunk, current, a), anchor, Release(a, chunk);
      ReleaseChecked(headers, a, chunk);
      assert headers[headers[chunk].next].magic == MAGIC_FREE;  // checkCorruption(chunk->next)
      assert headers[a.free[0]].magic == MAGIC_FREE;  // checkCorruption of the previous anchor
      CheckMerge(chunk, InsertPos(a.free, chunk));
    }

    /** checkMerge (allocator.c:269-290) on the free block at list position j:
        merge it with its successor when they are adjacent, of equal size, the
        successor is not the anchor and validMerge agrees; otherwise merge its
        predecessor with it under the same conditions, unless it is the
        anchor. */
    method CheckMerge(chunk: nat, ghost j: nat)
      requires Valid() && initialised && j < |Model.free| && chunk == Model.free[j]
      modifies this`headers, this`Model
      ensures Valid() && Model == CheckMergeSpec(old(Model), j)
      decreases |Model.free|, 1
    {
      ghost var a := Model;
      ghost var n := if j + 1 < |Model.free| then j + 1 else 0;
      LinkedAt(headers, Model.free, j);
      LinkedAt(headers, Model.free, n);
      FreeSizeAt(a, headers, j);
      FreeSizeAt(a, headers, n);
      var current := headers[chunk].next;
      assert headers[current].magic == MAGIC_FREE;  // checkCorruption(current)
      if headers[chunk].size == current - chunk && headers[chunk].size == headers[current].size && current != freeListPtr {
        var valid := ValidMerge(chunk, headers[chunk].size);
        if valid {
          Merge(chunk, j);
        }
      } else {
        current := headers[chunk].prev;
        ghost var m := if j > 0 then j - 1 else |Model.free| - 1;
        LinkedAt(headers, Model.free, m);
        FreeSizeAt(a, headers, m);
        if headers[current].size == headers[current].next - current && headers[current].size == headers[chunk].size && chunk != freeListPtr {
          var valid := ValidMerge(current, headers[current].size);
          if valid {
            Merge(current, j - 1);
          }
        }
      }
    }

    /** merge (allocator.c:293-314): the free block at list position j absorbs
        its successor, whose header is zeroed, doubles in size, and is checked
        for merging again. */
    method Merge(chunk: nat, ghost j: nat)
      requires Valid() && initialised && j + 1 < |Model.free| && chunk == Model.free[j]
      requires Mergeable(Model, j)
      modifies this`headers, this`Model
      ensures Valid() && Model == MergeSpec(old(Model), j)
      decreases |Model.free|, 0
    {
      ghost var a := Model;
      AbsorbWellFormed(a, j);
      headers, Model := MergeHeaders(headers, chunk, a, j), Absorb(a, j);
      CheckMerge(chunk, j);
    }
}
}
