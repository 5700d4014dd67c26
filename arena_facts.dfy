/** What the operations of the abstract model preserve and promise. */
module ArenaFacts {
  import opened Powers
  import opened Layout
  import opened Ring
  import opened ArenaModel

  /** Two members of an ascending list, in list order. */
  lemma AscendingAt(list: seq<nat>, i: nat, k: nat)
    requires Ascending(list) && i < k < |list|
    ensures list[i] < list[k]
  {
    assert Below(list, i, k);
  }

  /** On an ascending circle of two or more, a member differs from both its
      neighbours, and only position 0 holds the anchor. */
  lemma NeighboursDiffer(list: seq<nat>, j: nat)
    requires Ascending(list) && 2 <= |list| && j < |list|
    ensures Pred(list, j) != list[j] && Succ(list, j) != list[j]
    ensures j > 0 ==> list[j] != list[0]
  {
    if j > 0 {
      AscendingAt(list, j - 1, j);
      AscendingAt(list, 0, j);
    } else {
      AscendingAt(list, 0, |list| - 1);
    }
    if j + 1 < |list| {
      AscendingAt(list, j, j + 1);
    }
  }

  lemma AscendingDistinct(list: seq<nat>)
    requires Ascending(list)
    ensures Distinct(list)
  {
    forall i, k | 0 <= i < k < |list| ensures list[i] != list[k] {
      AscendingAt(list, i, k);
    }
  }

  // ---------------------------------------------------------------- sal_init

  /** sal_init keeps the invariant; on a fresh arena it installs one free
      block of RoundUp(size) bytes at offset 0, the anchor. */
  lemma InitWellFormed(a: Arena, requested: nat)
    requires WellFormed(a)
    requires a.initialised || requested <= MAX_ARENA || requested >= MAX_SIZE
    ensures WellFormed(InitSpec(a, requested))
  {
    if !a.initialised && requested < MAX_SIZE {
      var c := RoundUp(requested);
      Pow2Of31();
      RoundUpLeast(requested, MAX_ARENA);
      assert 0 % c == 0;
      assert WellPlaced(0, c, c);
    }
  }

  /** sal_init acquires the arena only once. On a fresh arena and a size
      below MAX_SIZE, the capacity is the least power of two holding the size
      and a single free block at offset 0, the anchor, covers all of it;
      otherwise nothing changes. */
  lemma InitOnce(a: Arena, requested: nat)
    ensures a.initialised || requested >= MAX_SIZE ==> InitSpec(a, requested) == a
    ensures !a.initialised && requested < MAX_SIZE ==>
      var r := InitSpec(a, requested);
      && r.initialised && IsPow2(r.capacity) && requested <= r.capacity
      && (forall p :: IsPow2(p) && requested <= p ==> r.capacity <= p)
      && r.free == [0] && r.inUse == {} && SizeOf(r, 0) == r.capacity
  {
    forall p | IsPow2(p) && requested <= p ensures RoundUp(requested) <= p {
      RoundUpLeast(requested, p);
    }
  }

  // ------------------------------------------------------------- splitting

  /** Inserting x at position p of an ascending list keeps it ascending when x
      lies strictly between its new neighbours. */
  lemma InsertAscending(list: seq<nat>, p: nat, x: nat)
    requires Ascending(list) && p <= |list|
    requires p > 0 ==> list[p - 1] < x
    requires p < |list| ==> x < list[p]
    ensures Ascending(list[..p] + [x] + list[p..])
  {
    var l := list[..p] + [x] + list[p..];
    forall i, k ensures Below(l, i, k) {
      if 0 <= i < k < |l| {
        if i < p && k < p {
          assert l[i] == list[i] && l[k] == list[k];
          AscendingAt(list, i, k);
        } else if i < p && k == p {
          assert l[i] == list[i];
          if i < p - 1 { AscendingAt(list, i, p - 1); }
        } else if i < p {
          assert l[i] == list[i] && l[k] == list[k - 1];
          AscendingAt(list, i, k - 1);
        } else if i == p {
          assert l[k] == list[k - 1];
          if p < k - 1 { AscendingAt(list, p, k - 1); }
        } else {
          assert l[i] == list[i - 1] && l[k] == list[k - 1];
          AscendingAt(list, i - 1, k - 1);
        }
      }
    }
  }

  /** Removing a member keeps a list ascending. */
  lemma RemoveAscending(list: seq<nat>, j: nat)
    requires Ascending(list) && j < |list|
    ensures Ascending(list[..j] + list[j + 1..])
  {
    var l := list[..j] + list[j + 1..];
    forall i, k ensures Below(l, i, k) {
      if 0 <= i < k < |l| {
        var ii := if i < j then i else i + 1;
        var kk := if k < j then k else k + 1;
        assert l[i] == list[ii] && l[k] == list[kk];
        AscendingAt(list, ii, kk);
      }
    }
  }

  /** Under the invariant, a free block at position j ends before the next
      member of the list starts. */
  lemma FreeBlockBeforeNext(a: Arena, j: nat)
    requires WellFormed(a) && a.initialised && j + 1 < |a.free|
    ensures a.free[j] + a.size[a.free[j]] <= a.free[j + 1]
  {
    var c, d := a.free[j], a.free[j + 1];
    AscendingAt(a.free, j, j + 1);
    assert c in a.size && d in a.size;
    assert Disjoint(a.size, c, d);
  }

  /** No live block starts strictly inside another. */
  lemma NoBlockInside(size: map<nat, nat>, c: nat, x: nat)
    requires Separated(size) && c in size && c < x < c + size[c]
    ensures x !in size
  {
    assert Disjoint(size, c, x);
  }

  lemma SplitPartition(a: Arena, j: nat)
    requires Partition(a) && j < |a.free|
    requires a.free[j] + SizeOf(a, a.free[j]) / 2 !in a.size
    requires SizeOf(a, a.free[j]) >= 2
    ensures Partition(SplitStep(a, j))
  {
    var c := a.free[j];
    var m := c + SizeOf(a, c) / 2;
    var a' := SplitStep(a, j);
    forall i | 0 <= i < |a'.free| ensures a'.free[i] in a'.size && a'.free[i] !in a'.inUse {
      if i != j + 1 {
        var ii := if i <= j then i else i - 1;
        assert a'.free[i] == a.free[ii];
      }
    }
    forall b | Live(a', b) ensures b in a'.inUse || b in a'.free {
      if b != m {
        assert b in a.size;
        if b !in a.inUse {
          assert Live(a, b);
          var i :| 0 <= i < |a.free| && a.free[i] == b;
          var i' := if i <= j then i else i + 1;
          assert a'.free[i'] == b;
        }
      } else {
        assert a'.free[j + 1] == m;
      }
    }
  }

  lemma SplitPlaced(a: Arena, j: nat)
    requires Placed(a) && j < |a.free| && a.free[j] in a.size && a.size[a.free[j]] >= 2
    ensures Placed(SplitStep(a, j))
  {
    var c := a.free[j];
    var s := a.size[c];
    assert WellPlaced(c, s, a.capacity);
    Pow2Half(s);
    AlignHalf(c, s);
  }

  lemma SplitSeparated(size: map<nat, nat>, c: nat, h: nat)
    requires Separated(size) && c in size && size[c] == 2 * h && h >= 1
    ensures Separated(size[c := h][c + h := h])
  {
    var size' := size[c := h][c + h := h];
    var m := c + h;
    NoBlockInside(size, c, m);
    forall b, d ensures Disjoint(size', b, d) {
      if b in size' && d in size' && b != d {
        if b != c && b != m && d != c && d != m {
          assert Disjoint(size, b, d);
        } else if (b == c && d == m) || (b == m && d == c) {
        } else if b == c || b == m {
          assert d in size && d != c;
          assert Disjoint(size, c, d);
        } else {
          assert b in size && b != c;
          assert Disjoint(size, b, c);
        }
      }
    }
  }

  lemma SplitAscending(a: Arena, j: nat)
    requires WellFormed(a) && a.initialised && j < |a.free| && SizeOf(a, a.free[j]) >= 2
    ensures Ascending(SplitStep(a, j).free)
  {
    var c := a.free[j];
    var s := a.size[c];
    var m := c + s / 2;
    if j + 1 < |a.free| {
      FreeBlockBeforeNext(a, j);
    }
    InsertAscending(a.free, j + 1, m);
  }

  lemma SplitSeparatedStep(a: Arena, j: nat)
    requires WellFormed(a) && a.initialised && j < |a.free| && SizeOf(a, a.free[j]) >= 2
    ensures Separated(SplitStep(a, j).size)
  {
    var c := a.free[j];
    var s := a.size[c];
    assert WellPlaced(c, s, a.capacity);
    Pow2Half(s);
    SplitSeparated(a.size, c, s / 2);
  }

  lemma SplitPartitionStep(a: Arena, j: nat)
    requires WellFormed(a) && a.initialised && j < |a.free| && SizeOf(a, a.free[j]) >= 2
    ensures Partition(SplitStep(a, j))
  {
    var c := a.free[j];
    var s := a.size[c];
    NoBlockInside(a.size, c, c + s / 2);
    SplitPartition(a, j);
  }

  /** One split keeps the invariant: the two halves are well-placed powers of
      two, the upper half lies strictly between the block and the next member
      of the list, and it overlaps nothing. */
  lemma SplitStepWellFormed(a: Arena, j: nat)
    requires WellFormed(a) && a.initialised && j < |a.free| && SizeOf(a, a.free[j]) >= 2
    ensures WellFormed(SplitStep(a, j))
  {
    SplitAscending(a, j);
    SplitPartitionStep(a, j);
    SplitPlaced(a, j);
    SplitSeparatedStep(a, j);
  }

  /** reduceMemory keeps the invariant and hands back a block that still holds
      need bytes while its half would not, and that ends where the block it was
      cut from ended (it is the top end of that block). The anchor stays. */
  lemma {:induction false} ReduceFacts(a: Arena, j: nat, need: nat)
    requires WellFormed(a) && a.initialised && j < |a.free|
    requires need >= 1 && SizeOf(a, a.free[j]) / 2 >= need
    ensures var (a', k) := Reduce(a, j, need);
      && WellFormed(a') && a'.initialised && a'.capacity == a.capacity && a'.inUse == a.inUse
      && |a'.free| >= 2 && a'.free[0] == a.free[0]
      && SizeOf(a', a'.free[k]) >= need && SizeOf(a', a'.free[k]) / 2 < need
      && a'.free[k] + SizeOf(a', a'.free[k]) == a.free[j] + SizeOf(a, a.free[j])
      && a.free[j] < a'.free[k]
    decreases SizeOf(a, a.free[j])
  {
    var c := a.free[j];
    var s := SizeOf(a, c);
    var a1 := SplitStep(a, j);
    SplitStepWellFormed(a, j);
    var m := a1.free[j + 1];
    assert m == c + s / 2;
    assert SizeOf(a1, m) == s / 2;
    assert WellPlaced(c, s, a.capacity);
    Pow2Half(s);
    if SizeOf(a1, m) / 2 >= need {
      ReduceFacts(a1, j + 1, need);
    }
  }

  /** reduceMemory rewrites only the header of the block it splits and those
      of the halves it creates: every other live block keeps its size. */
  lemma {:induction false} ReduceKeepsSizes(a: Arena, j: nat, need: nat)
    requires WellFormed(a) && a.initialised && j < |a.free|
    requires need >= 1 && SizeOf(a, a.free[j]) / 2 >= need
    ensures var a' := Reduce(a, j, need).0;
      forall o :: o in a.size && o != a.free[j] ==> o in a'.size && a'.size[o] == a.size[o]
    decreases SizeOf(a, a.free[j])
  {
    var c := a.free[j];
    var s := SizeOf(a, c);
    var a1 := SplitStep(a, j);
    var m := a1.free[j + 1];
    assert m == c + s / 2;
    NoBlockInside(a.size, c, m);
    if SizeOf(a1, m) / 2 >= need {
      SplitStepWellFormed(a, j);
      ReduceKeepsSizes(a1, j + 1, need);
      var a' := Reduce(a1, j + 1, need).0;
      assert a' == Reduce(a, j, need).0;
      forall o | o in a.size && o != c ensures o in a'.size && a'.size[o] == a.size[o] {
        assert o != m && o in a1.size && a1.size[o] == a.size[o];
      }
    }
  }

  // ------------------------------------------------------------- best fit

  /** The block at position j is what the best-fit scan must pick: if it is
      the anchor (position 0), no other free block holds need bytes; otherwise
      it holds need bytes, no other non-anchor block that does is smaller, and
      every later one that does is larger (ties go to the last). */
  ghost predicate IsBestFit(a: Arena, need: nat, j: nat)
  {
    && j < |a.free|
    && (j == 0 ==> forall k :: 1 <= k < |a.free| ==> SizeOf(a, a.free[k]) < need)
    && (j > 0 ==>
          && SizeOf(a, a.free[j]) >= need
          && (forall k :: 1 <= k < |a.free| && SizeOf(a, a.free[k]) >= need ==>
                SizeOf(a, a.free[j]) <= SizeOf(a, a.free[k]))
          && (forall k :: j < k < |a.free| && SizeOf(a, a.free[k]) >= need ==>
                SizeOf(a, a.free[j]) < SizeOf(a, a.free[k])))
  }

  /** What the scan has established after examining positions 1 .. i-1. */
  ghost predicate ScanInvariant(a: Arena, need: nat, i: nat, found: nat, best: int)
  {
    && 1 <= i <= |a.free| && found < i
    && (found == 0 ==> best == a.capacity && forall k :: 1 <= k < i ==> SizeOf(a, a.free[k]) < need)
    && (found > 0 ==>
          && SizeOf(a, a.free[found]) >= need && best == SizeOf(a, a.free[found])
          && (forall k :: 1 <= k < i && SizeOf(a, a.free[k]) >= need ==> best <= SizeOf(a, a.free[k]))
          && (forall k :: found < k < i && SizeOf(a, a.free[k]) >= need ==> best < SizeOf(a, a.free[k])))
  }

  /** Examining position i keeps the scan's invariant: a block that fits and
      is no larger than the best so far becomes the choice. */
  lemma ScanStep(a: Arena, need: nat, i: nat, found: nat, best: int)
    requires ScanInvariant(a, need, i, found, best) && i < |a.free|
    requires SizeOf(a, a.free[i]) <= a.capacity
    ensures var s := SizeOf(a, a.free[i]);
      if s >= need && s <= best then ScanInvariant(a, need, i + 1, i, s)
      else ScanInvariant(a, need, i + 1, found, best)
  {
  }

  /** Once every position has been examined, the choice is the best fit. */
  lemma ScanDone(a: Arena, need: nat, found: nat, best: int)
    requires ScanInvariant(a, need, |a.free|, found, best)
    ensures IsBestFit(a, need, found)
  {
  }

  lemma {:induction false} ScanFromFacts(a: Arena, need: nat, i: nat, found: nat, best: int)
    requires ScanInvariant(a, need, i, found, best)
    requires forall k :: 0 <= k < |a.free| ==> SizeOf(a, a.free[k]) <= a.capacity
    ensures IsBestFit(a, need, ScanFrom(a, need, i, found, best))
    decreases |a.free| - i
  {
    if i < |a.free| {
      var s := SizeOf(a, a.free[i]);
      ScanStep(a, need, i, found, best);
      if s >= need && s <= best {
        ScanFromFacts(a, need, i + 1, i, s);
      } else {
        ScanFromFacts(a, need, i + 1, found, best);
      }
    } else {
      ScanDone(a, need, found, best);
    }
  }

  /** The scan keeps its current choice or moves to a later position whose
      block holds need bytes and is no larger than the bound. */
  lemma {:induction false} ScanFromFits(a: Arena, need: nat, i: nat, found: nat, best: int)
    requires i <= |a.free| && found < |a.free|
    ensures var r := ScanFrom(a, need, i, found, best);
      r == found || (i <= r && need <= SizeOf(a, a.free[r]) <= best)
    decreases |a.free| - i
  {
    if i < |a.free| {
      var s := SizeOf(a, a.free[i]);
      if s >= need && s <= best {
        ScanFromFits(a, need, i + 1, i, s);
      } else {
        ScanFromFits(a, need, i + 1, found, best);
      }
    }
  }

  /** The best-fit choice of sal_malloc (allocator.c:116-129). */
  lemma BestFitChoice(a: Arena, need: nat)
    requires WellFormed(a) && a.initialised
    ensures IsBestFit(a, need, BestFit(a, need))
  {
    forall k | 0 <= k < |a.free| ensures SizeOf(a, a.free[k]) <= a.capacity {
      assert a.free[k] in a.size;
      assert WellPlaced(a.free[k], a.size[a.free[k]], a.capacity);
    }
    ScanFromFacts(a, need, 1, 0, a.capacity);
  }

  // ------------------------------------------------------------- unlinking

  lemma TakePartition(a: Arena, j: nat)
    requires Partition(a) && Ascending(a.free) && j < |a.free|
    ensures Partition(Take(a, j))
  {
    var a' := Take(a, j);
    forall i | 0 <= i < |a'.free| ensures a'.free[i] in a'.size && a'.free[i] !in a'.inUse {
      var ii := if i < j then i else i + 1;
      assert a'.free[i] == a.free[ii];
      if ii < j { AscendingAt(a.free, ii, j); } else { AscendingAt(a.free, j, ii); }
    }
    forall b | Live(a', b) ensures b in a'.inUse || b in a'.free {
      if b !in a.inUse && b != a.free[j] {
        assert Live(a, b);
        var i :| 0 <= i < |a.free| && a.free[i] == b;
        var i' := if i < j then i else i - 1;
        assert a'.free[i'] == b;
      }
    }
  }

  /** Unlinking a free block and tagging it allocated keeps the invariant when
      another free block remains. */
  lemma TakeWellFormed(a: Arena, j: nat)
    requires WellFormed(a) && a.initialised && 2 <= |a.free| && j < |a.free|
    ensures WellFormed(Take(a, j))
  {
    RemoveAscending(a.free, j);
    TakePartition(a, j);
  }

  // ------------------------------------------------------------- sal_malloc

  /** sal_malloc keeps the invariant. */
  lemma MallocWellFormed(a: Arena, n: nat)
    requires WellFormed(a)
    ensures WellFormed(MallocSpec(a, n).0)
  {
    var need := n + HEADER_SIZE;
    if need <= a.capacity / 2 && n > 0 && !(|a.free| == 1 && SizeOf(a, a.free[0]) / 2 < need) {
      var j := BestFit(a, need);
      var c := a.free[j];
      if SizeOf(a, c) / 2 >= need {
        ReduceFacts(a, j, need);
        var (a', k) := Reduce(a, j, need);
        TakeWellFormed(a', k);
      } else if SizeOf(a, c) >= need {
        TakeWellFormed(a, j);
      }
    }
  }

  /** sal_malloc returns NULL exactly when the request is zero, when it needs
      more than half the arena, when the only free block could not be split,
      or when no free block holds the request plus its header; NULL leaves the
      state unchanged. */
  lemma MallocFails(a: Arena, n: nat)
    requires WellFormed(a)
    ensures var need := n + HEADER_SIZE;
      MallocSpec(a, n).1 == Null <==>
        || n == 0 || need > a.capacity / 2
        || (|a.free| == 1 && SizeOf(a, a.free[0]) / 2 < need)
        || (forall k :: 0 <= k < |a.free| ==> SizeOf(a, a.free[k]) < need)
    ensures MallocSpec(a, n).1 == Null ==> MallocSpec(a, n).0 == a
  {
    var need := n + HEADER_SIZE;
    if a.initialised {
      BestFitChoice(a, need);
    }
  }

  /** Unlinking position j of an ascending list removes that member and
      keeps the anchor unless the anchor is the one unlinked. */
  lemma TakeUnlinks(a: Arena, j: nat)
    requires Ascending(a.free) && 2 <= |a.free| && j < |a.free|
    ensures forall k :: 0 <= k < |Take(a, j).free| ==> Take(a, j).free[k] != a.free[j]
    ensures Take(a, j).free[0] == (if j == 0 then a.free[1] else a.free[0])
  {
    var t := Take(a, j);
    forall i | 0 <= i < |t.free| ensures t.free[i] != a.free[j] {
      var ii := if i < j then i else i + 1;
      assert t.free[i] == a.free[ii];
      if ii < j { AscendingAt(a.free, ii, j); } else { AscendingAt(a.free, j, ii); }
    }
  }

  /** What a successful sal_malloc promises about the block b it hands out,
      cut from the free block c, for a request of need bytes with header. */
  ghost predicate HandedOut(a: Arena, a': Arena, b: int, c: nat, need: nat)
  {
    && b >= 0 && b !in a.inUse && a'.inUse == a.inUse + {b}
    && b in a'.size && a'.size[b] == RoundUp(need)
    && c in a.size && c <= b && b + a'.size[b] == c + a.size[c]
    && (forall k :: 0 <= k < |a'.free| ==> a'.free[k] != b)
    && a'.capacity == a.capacity
    && |a'.free| >= 1 && |a.free| >= 1
    && (if b == a.free[0] then |a.free| >= 2 && a'.free[0] == a.free[1] else a'.free[0] == a.free[0])
    && (forall o :: o in a.inUse && o in a.size ==> o in a'.size && a'.size[o] == a.size[o])
  }

  lemma MallocSplitCase(a: Arena, j: nat, need: nat)
    requires WellFormed(a) && a.initialised && j < |a.free|
    requires need >= 1 && SizeOf(a, a.free[j]) / 2 >= need
    ensures var (a', k) := Reduce(a, j, need);
      HandedOut(a, Take(a', k), a'.free[k], a.free[j], need)
  {
    var r := Reduce(a, j, need);
    var a', k := r.0, r.1;
    ReduceFacts(a, j, need);
    ReduceKeepsSizes(a, j, need);
    var b := a'.free[k];
    var s := a'.size[b];
    assert b in a'.size && b !in a'.inUse by {
      assert Partition(a');
    }
    assert IsPow2(s) by {
      assert Placed(a');
      assert WellPlaced(b, s, a'.capacity);
    }
    RoundUpUnique(need, s);
    TakeUnlinks(a', k);
    var t := Take(a', k);
    assert t.size == a'.size && t.inUse == a.inUse + {b};
    assert b != a.free[0] by {
      if j > 0 { AscendingAt(a.free, 0, j); }
    }
    assert HandedOut(a, t, b, a.free[j], need);
  }

  lemma MallocWholeCase(a: Arena, j: nat, need: nat)
    requires WellFormed(a) && a.initialised && j < |a.free| && |a.free| >= 2
    requires SizeOf(a, a.free[j]) >= need && SizeOf(a, a.free[j]) / 2 < need
    ensures HandedOut(a, Take(a, j), a.free[j], a.free[j], need)
  {
    var c := a.free[j];
    assert c in a.size && WellPlaced(c, a.size[c], a.capacity);
    RoundUpUnique(need, a.size[c]);
    TakeUnlinks(a, j);
    if j > 0 {
      AscendingDistinct(a.free);
      assert c != a.free[0];
    }
  }

  /** The end of sal_malloc, once the block at position j holds need bytes
      and can be handed out, returns the address 16 bytes past a block that
      sal_malloc's promises hold of (HandedOut): the top end of the block at
      j, of the least power-of-two size holding need bytes. */
  lemma CarveHandsOut(a: Arena, j: nat, need: nat)
    requires WellFormed(a) && a.initialised && j < |a.free| && need >= 1 && SizeOf(a, a.free[j]) >= need
    requires 2 <= |a.free| || SizeOf(a, a.free[j]) / 2 >= need
    ensures var (a', p) := Carve(a, j, need);
      p.Payload? && HandedOut(a, a', p.addr - HEADER_SIZE, a.free[j], need)
  {
    if SizeOf(a, a.free[j]) / 2 >= need {
      MallocSplitCase(a, j, need);
    } else {
      MallocWholeCase(a, j, need);
    }
  }

  /** On success sal_malloc hands out a block that was free: its header sits
      16 bytes below the returned address, its size is the least power of two
      holding the request and header, it is the top end of the best-fit block,
      it joins the allocated blocks and leaves the free list, and the anchor
      moves on only when the anchor itself was handed out. Every allocated
      block keeps its size. */
  lemma MallocSucceeds(a: Arena, n: nat)
    requires WellFormed(a) && MallocSpec(a, n).1 != Null
    ensures var (a', p) := MallocSpec(a, n);
      var need := n + HEADER_SIZE;
      HandedOut(a, a', p.addr - HEADER_SIZE, a.free[BestFit(a, need)], need)
  {
    var need := n + HEADER_SIZE;
    CarveHandsOut(a, BestFit(a, need), need);
  }

  // ---------------------------------------------------------------- sal_free

  /** Some free block contains offset x. */
  ghost predicate InFreeBlock(a: Arena, x: nat)
  {
    exists i :: 0 <= i < |a.free| && a.free[i] in a.size && a.free[i] <= x < a.free[i] + a.size[a.free[i]]
  }

  lemma ReleasePartition(a: Arena, x: nat)
    requires Partition(a) && x in a.inUse
    ensures Partition(Release(a, x))
  {
    var p := InsertPos(a.free, x);
    var a' := Release(a, x);
    forall i | 0 <= i < |a'.free| ensures a'.free[i] in a'.size && a'.free[i] !in a'.inUse {
      if i != p {
        var ii := if i < p then i else i - 1;
        assert a'.free[i] == a.free[ii];
      }
    }
    forall b | Live(a', b) ensures b in a'.inUse || b in a'.free {
      if b == x {
        assert a'.free[p] == x;
      } else if b !in a.inUse {
        assert Live(a, b);
        var i :| 0 <= i < |a.free| && a.free[i] == b;
        var i' := if i < p then i else i + 1;
        assert a'.free[i'] == b;
      }
    }
  }

  /** Releasing an allocated block keeps the invariant: it joins the free list
      at its address position (as the new anchor when it lies below the old
      one), it is no longer allocated, and it lies in a free block. */
  lemma ReleaseWellFormed(a: Arena, x: nat)
    requires WellFormed(a) && a.initialised && x in a.inUse
    ensures var a' := Release(a, x);
      && WellFormed(a') && a'.initialised && a'.capacity == a.capacity
      && a'.inUse == a.inUse - {x} && a'.size == a.size
      && a'.free[0] == (if x < a.free[0] then x else a.free[0])
      && a'.free[InsertPos(a.free, x)] == x
      && InFreeBlock(a', x)
  {
    var p := InsertPos(a.free, x);
    if p > 0 {
      assert a.free[p - 1] != x;
    }
    InsertAscending(a.free, p, x);
    ReleasePartition(a, x);
    var a' := Release(a, x);
    assert a'.free[p] == x;
    assert x in a.size && WellPlaced(x, a.size[x], a.capacity);
  }

  lemma AbsorbMembers(a: Arena, j: nat)
    requires Partition(a) && Ascending(a.free) && j + 1 < |a.free|
    ensures forall i :: 0 <= i < |Absorb(a, j).free| ==>
      Absorb(a, j).free[i] in Absorb(a, j).size && Absorb(a, j).free[i] !in Absorb(a, j).inUse
  {
    var a' := Absorb(a, j);
    forall i | 0 <= i < |a'.free| ensures a'.free[i] in a'.size && a'.free[i] !in a'.inUse {
      var ii := if i <= j then i else i + 1;
      assert a'.free[i] == a.free[ii];
      if ii < j + 1 { AscendingAt(a.free, ii, j + 1); } else { AscendingAt(a.free, j + 1, ii); }
    }
  }

  lemma AbsorbCovers(a: Arena, j: nat)
    requires Partition(a) && Ascending(a.free) && j + 1 < |a.free|
    ensures forall b :: Live(Absorb(a, j), b) ==> b in Absorb(a, j).inUse || b in Absorb(a, j).free
  {
    var a' := Absorb(a, j);
    forall b | Live(a', b) ensures b in a'.inUse || b in a'.free {
      if b !in a.inUse {
        assert b in a.size;
        assert Live(a, b);
        var i :| 0 <= i < |a.free| && a.free[i] == b;
        AscendingAt(a.free, j, j + 1);
        var i' := if i <= j then i else i - 1;
        assert a'.free[i'] == b;
      }
    }
  }

  lemma AbsorbPartition(a: Arena, j: nat)
    requires Partition(a) && Ascending(a.free) && j + 1 < |a.free|
    ensures Partition(Absorb(a, j))
  {
    AbsorbMembers(a, j);
    AbsorbCovers(a, j);
  }

  /** The conditions under which checkMerge lets the block at position j absorb
      its successor: they are adjacent, of equal size, and the merged block
      lands on a boundary of its doubled size class. */
  ghost predicate Mergeable(a: Arena, j: nat)
    requires j + 1 < |a.free|
  {
    var c, d := a.free[j], a.free[j + 1];
    c + SizeOf(a, c) == d && SizeOf(a, d) == SizeOf(a, c) && BuddyAligned(a.capacity, c, SizeOf(a, c))
  }

  /** In a power-of-two arena, a block validMerge lets merge starts on a
      boundary of its doubled size, so the merged block is a whole size class. */
  lemma BuddyAlignedPlaced(capacity: nat, index: nat, size: nat)
    requires BuddyAligned(capacity, index, size) && IsPow2(size) && IsPow2(capacity) && 2 * size <= capacity
    ensures index % (2 * size) == 0
  {
    Pow2Double(size);
    Pow2Divides(2 * size, capacity);
    ModDifference(capacity, index, 2 * size);
  }

  lemma AbsorbPlaced(a: Arena, j: nat)
    requires WellFormed(a) && a.initialised && j + 1 < |a.free| && Mergeable(a, j)
    ensures Placed(Absorb(a, j))
  {
    var c, d := a.free[j], a.free[j + 1];
    var s := a.size[c];
    assert d in a.size && WellPlaced(d, s, a.capacity);
    assert WellPlaced(c, s, a.capacity);
    BuddyAlignedPlaced(a.capacity, c, s);
    Pow2Double(s);
    assert WellPlaced(c, 2 * s, a.capacity);
  }

  lemma AbsorbSeparated(a: Arena, j: nat)
    requires WellFormed(a) && a.initialised && j + 1 < |a.free| && Mergeable(a, j)
    ensures Separated(Absorb(a, j).size)
  {
    var c, d := a.free[j], a.free[j + 1];
    var size' := Absorb(a, j).size;
    assert c in a.size && d in a.size && c != d;
    forall b, e ensures Disjoint(size', b, e) {
      if b in size' && e in size' && b != e {
        if b == c {
          assert e in a.size && e != d && e != c;
          assert Disjoint(a.size, c, e) && Disjoint(a.size, d, e);
        } else if e == c {
          assert b in a.size && b != d && b != c;
          assert Disjoint(a.size, b, c) && Disjoint(a.size, b, d);
        } else {
          assert Disjoint(a.size, b, e);
        }
      }
    }
  }

  /** One merge step keeps the invariant, the anchor, the allocated blocks and
      their sizes, and frees no byte that was not free. */
  lemma AbsorbWellFormed(a: Arena, j: nat)
    requires WellFormed(a) && a.initialised && j + 1 < |a.free| && Mergeable(a, j)
    ensures var a' := Absorb(a, j);
      && WellFormed(a') && a'.initialised && a'.capacity == a.capacity
      && a'.inUse == a.inUse && a'.free[0] == a.free[0]
      && (forall o :: o in a.inUse ==> o in a'.size && a'.size[o] == a.size[o])
  {
    RemoveAscending(a.free, j + 1);
    AbsorbPartition(a, j);
    AbsorbPlaced(a, j);
    AbsorbSeparated(a, j);
    var c, d := a.free[j], a.free[j + 1];
    forall o | o in a.inUse ensures o != c && o != d {
    }
  }

  /** A merge step keeps every free byte free. */
  lemma AbsorbKeepsFree(a: Arena, j: nat, x: nat)
    requires Ascending(a.free) && j + 1 < |a.free| && a.free[j] in a.size && Mergeable(a, j)
    requires InFreeBlock(a, x)
    ensures InFreeBlock(Absorb(a, j), x)
  {
    var a' := Absorb(a, j);
    var c, d := a.free[j], a.free[j + 1];
    var i :| 0 <= i < |a.free| && a.free[i] in a.size && a.free[i] <= x < a.free[i] + a.size[a.free[i]];
    var b := a.free[i];
    var i' := if i <= j then i else if i == j + 1 then j else i - 1;
    if i == j + 1 {
      assert a'.free[j] == c && a'.size[c] == 2 * a.size[c];
    } else {
      if i < j + 1 { AscendingAt(a.free, i, j + 1); } else { AscendingAt(a.free, j + 1, i); }
      assert b != d && a'.free[i'] == b;
      assert b in a'.size && a'.size[b] >= a.size[b];
    }
    assert a'.free[i'] in a'.size && a'.free[i'] <= x < a'.free[i'] + a'.size[a'.free[i']];
  }

  /** checkMerge either leaves the state alone (k < 0) or merges the block at
      position k with its successor, where k is j or j - 1, and checks the
      enlarged block again. */
  lemma CheckMergeChoice(a: Arena, j: nat) returns (k: int)
    requires j < |a.free|
    ensures k < 0 ==> CheckMergeSpec(a, j) == a
    ensures k >= 0 ==>
      && (k == j || k == j - 1) && k + 1 < |a.free| && Mergeable(a, k)
      && CheckMergeSpec(a, j) == CheckMergeSpec(Absorb(a, k), k)
  {
    var list := a.free;
    var c: int := list[j];
    var s := SizeOf(a, c);
    var next: int := Succ(list, j);
    k := -1;
    if s == next - c && s == SizeOf(a, next) && next != list[0] {
      if BuddyAligned(a.capacity, c, s) {
        k := j;
      }
    } else {
      var prev: int := Pred(list, j);
      if SizeOf(a, prev) == c - prev && SizeOf(a, prev) == s && c != list[0] {
        if BuddyAligned(a.capacity, prev, SizeOf(a, prev)) {
          k := j - 1;
        }
      }
    }
  }

  /** What merging preserves: the invariant, the anchor, the allocated blocks
      with their sizes, and whether x lies in a free block. */
  ghost predicate MergeKeeps(a: Arena, a': Arena, x: nat)
  {
    && WellFormed(a') && a'.initialised && a'.capacity == a.capacity
    && a'.inUse == a.inUse && |a'.free| >= 1 && |a.free| >= 1 && a'.free[0] == a.free[0]
    && (forall o :: o in a.inUse && o in a.size ==> o in a'.size && a'.size[o] == a.size[o])
    && (InFreeBlock(a, x) ==> InFreeBlock(a', x))
  }

  /** One merge step followed by the recheck keeps what merging keeps. */
  lemma {:induction false} MergeFacts(a: Arena, i: nat, x: nat)
    requires WellFormed(a) && a.initialised && i + 1 < |a.free| && Mergeable(a, i)
    ensures MergeKeeps(a, CheckMergeSpec(Absorb(a, i), i), x)
    decreases |a.free|, 0
  {
    var b := Absorb(a, i);
    AbsorbWellFormed(a, i);
    if InFreeBlock(a, x) {
      assert a.free[i] in a.size;
      AbsorbKeepsFree(a, i, x);
    }
    CheckMergeFacts(b, i, x);
  }

  /** checkMerge and merge keep the invariant, the anchor and the allocated
      blocks with their sizes, and every byte that was in a free block stays
      in one. */
  lemma {:induction false} CheckMergeFacts(a: Arena, j: nat, x: nat)
    requires WellFormed(a) && a.initialised && j < |a.free|
    ensures MergeKeeps(a, CheckMergeSpec(a, j), x)
    decreases |a.free|, 1
  {
    var k := CheckMergeChoice(a, j);
    if k >= 0 {
      MergeFacts(a, k, x);
    }
  }

  /** Releasing an allocated block x and merging around it keeps the
      invariant; x is no longer allocated and lies in a free block, it becomes
      the anchor when it is below the old one, and every other allocated block
      keeps its size. */
  lemma ReleaseMergeFacts(a: Arena, x: nat)
    requires WellFormed(a) && x in a.inUse
    ensures var a' := CheckMergeSpec(Release(a, x), InsertPos(a.free, x));
      && WellFormed(a') && a.initialised && a'.capacity == a.capacity
      && a'.inUse == a.inUse - {x}
      && a'.free[0] == (if x < a.free[0] then x else a.free[0])
      && InFreeBlock(a', x)
      && (forall o :: o in a'.inUse ==> o in a'.size && a'.size[o] == a.size[o])
  {
    ReleaseWellFormed(a, x);
    var r := Release(a, x);
    CheckMergeFacts(r, InsertPos(a.free, x), x);
  }

  /** sal_free keeps the invariant; on an allocated block it releases it as
      ReleaseMergeFacts states. */
  lemma FreeWellFormed(a: Arena, p: Ptr)
    requires WellFormed(a)
    ensures FreeSpec(a, p).Done? ==> WellFormed(FreeSpec(a, p).arena)
  {
    if p.Payload? && p.addr >= HEADER_SIZE && p.addr - HEADER_SIZE in a.inUse {
      ReleaseMergeFacts(a, p.addr - HEADER_SIZE);
    }
  }

  /** Freeing a block a second time aborts: the first free took it out of
      the allocated blocks, so its header is no longer tagged ALLOC. */
  lemma DoubleFreeAborts(a: Arena, p: Ptr)
    requires WellFormed(a) && p.Payload? && FreeSpec(a, p).Done?
    ensures FreeSpec(FreeSpec(a, p).arena, p).Aborted?
  {
    ReleaseMergeFacts(a, p.addr - HEADER_SIZE);
  }
}
