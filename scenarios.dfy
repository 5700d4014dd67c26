/** Concrete traces of the allocator, worked out on ArenaModel's functions
    (which the class in allocator.dfy is proved to follow step by step). */
module Scenarios {
  import opened Powers
  import opened Layout
  import opened Ring
  import opened ArenaModel

  /** The sizes of the four 32-byte blocks a 128-byte arena is cut into. */
  const Quarters: map<nat, nat> := map[0 := 32, 32 := 32, 64 := 32, 96 := 32]

  /** A 128-byte arena right after sal_init(128). */
  const Fresh: Arena := Arena(true, 128, [0], {}, map[0 := 128])

  /** After a first sal_malloc(10): 128 was split into 0 and 64, 64 into
      64 and 96, and 96 handed out. */
  const OneOut: Arena := Arena(true, 128, [0, 64], {96}, map[0 := 64, 64 := 32, 96 := 32])

  /** After a second sal_malloc(10): 64 was the best fit and is handed out whole. */
  const TwoOut: Arena := Arena(true, 128, [0], {64, 96}, map[0 := 64, 64 := 32, 96 := 32])

  /** After a third sal_malloc(10): the anchor 0 was split and 32 handed out. */
  const ThreeOut: Arena := Arena(true, 128, [0], {32, 64, 96}, Quarters)

  /** After freeing 64: it is not adjacent to the anchor, so nothing merges. */
  const FreedSecond: Arena := Arena(true, 128, [0, 64], {32, 96}, Quarters)

  /** After freeing 32: its successor 64 has its size and follows it, but is
      not its buddy, so checkMerge stops without looking at 0. */
  const FreedThird: Arena := Arena(true, 128, [0, 32, 64], {96}, Quarters)

  /** After freeing 96: it merges with its buddy 64, and nothing more. */
  const AllFree: Arena := Arena(true, 128, [0, 32, 64], {}, map[0 := 32, 32 := 32, 64 := 64])

  lemma FirstMalloc()
    ensures MallocSpec(Fresh, 10) == (OneOut, Payload(96 + HEADER_SIZE))
  {
    var s1 := SplitStep(Fresh, 0);
    assert s1 == Arena(true, 128, [0, 64], {}, map[0 := 64, 64 := 64]);
    var s2 := SplitStep(s1, 1);
    assert s2 == Arena(true, 128, [0, 64, 96], {}, map[0 := 64, 64 := 32, 96 := 32]);
    assert Reduce(s1, 1, 26) == (s2, 2);
    assert Reduce(Fresh, 0, 26) == (s2, 2);
    assert BestFit(Fresh, 26) == 0;
    assert Take(s2, 2) == OneOut;
  }

  lemma SecondMalloc()
    ensures MallocSpec(OneOut, 10) == (TwoOut, Payload(64 + HEADER_SIZE))
  {
    assert ScanFrom(OneOut, 26, 2, 1, 32) == 1;
    assert BestFit(OneOut, 26) == 1;
    assert Take(OneOut, 1) == TwoOut;
  }

  lemma ThirdMalloc()
    ensures MallocSpec(TwoOut, 10) == (ThreeOut, Payload(32 + HEADER_SIZE))
  {
    var s := SplitStep(TwoOut, 0);
    assert s == Arena(true, 128, [0, 32], {64, 96}, Quarters);
    assert Reduce(TwoOut, 0, 26) == (s, 1);
    assert BestFit(TwoOut, 26) == 0;
    assert Take(s, 1) == ThreeOut;
  }

  lemma FreeSecond()
    ensures FreeSpec(ThreeOut, Payload(64 + HEADER_SIZE)) == Done(FreedSecond)
  {
  }

  lemma FreeThird()
    ensures FreeSpec(FreedSecond, Payload(32 + HEADER_SIZE)) == Done(FreedThird)
  {
  }

  lemma FreeFirst()
    ensures FreeSpec(FreedThird, Payload(96 + HEADER_SIZE)) == Done(AllFree)
  {
    assert InsertPos([], 96) == 0;
    assert InsertPos([64], 96) == 1;
    assert InsertPos([32, 64], 96) == 2;
    assert InsertPos([0, 32, 64], 96) == 3;
    var r := Release(FreedThird, 96);
    assert r == Arena(true, 128, [0, 32, 64, 96], {}, Quarters);
    assert Succ(r.free, 3) == 0 && Pred(r.free, 3) == 64;
    assert BuddyAligned(128, 64, 32);
    assert Absorb(r, 2) == AllFree;
    assert Succ(AllFree.free, 2) == 0 && Pred(AllFree.free, 2) == 32;
    assert CheckMergeSpec(AllFree, 2) == AllFree;
    assert CheckMergeSpec(r, 3) == AllFree;
  }

  /** Buddies are not always reunited: after sal_init(128), three
      sal_malloc(10) calls and the release of the second, third and first
      block, nothing is allocated, yet the free list holds three blocks
      where sal_init left one. */
  lemma NoFullCoalescence()
    ensures InitSpec(Empty, 128) == Fresh
    ensures MallocSpec(Fresh, 10) == (OneOut, Payload(96 + HEADER_SIZE))
    ensures MallocSpec(OneOut, 10) == (TwoOut, Payload(64 + HEADER_SIZE))
    ensures MallocSpec(TwoOut, 10) == (ThreeOut, Payload(32 + HEADER_SIZE))
    ensures FreeSpec(ThreeOut, Payload(64 + HEADER_SIZE)) == Done(FreedSecond)
    ensures FreeSpec(FreedSecond, Payload(32 + HEADER_SIZE)) == Done(FreedThird)
    ensures FreeSpec(FreedThird, Payload(96 + HEADER_SIZE)) == Done(AllFree)
    ensures AllFree.inUse == {} && |AllFree.free| == 3 && |Fresh.free| == 1
  {
    assert IsPow2(128) by {
      assert IsPow2(64) by { assert IsPow2(32) by { assert IsPow2(16); } }
    }
    RoundUpFixesPow2(128);
    FirstMalloc();
    SecondMalloc();
    ThirdMalloc();
    FreeSecond();
    FreeThird();
    FreeFirst();
  }

  /** sal_init(100) acquires 128 bytes, yet sal_malloc(50) is refused: the
      request plus its header, 66 bytes, exceeds half the arena. */
  lemma HalfArenaLimit()
    ensures InitSpec(Empty, 100).capacity == 128
    ensures MallocSpec(InitSpec(Empty, 100), 50) == (InitSpec(Empty, 100), Null)
  {
  }

  /** A 64-byte arena right after sal_init(64). */
  const Small: Arena := Arena(true, 64, [0], {}, map[0 := 64])

  /** After sal_malloc(10) on Small: the block was halved and 32 handed out. */
  const SmallOut: Arena := Arena(true, 64, [0], {32}, map[0 := 32, 32 := 32])

  lemma SmallMalloc()
    ensures MallocSpec(Small, 10) == (SmallOut, Payload(32 + HEADER_SIZE))
  {
    var s := SplitStep(Small, 0);
    assert s == Arena(true, 64, [0, 32], {}, map[0 := 32, 32 := 32]);
    assert Reduce(Small, 0, 26) == (s, 1);
    assert BestFit(Small, 26) == 0;
    assert Take(s, 1) == SmallOut;
  }

  lemma SmallFree()
    ensures FreeSpec(SmallOut, Payload(32 + HEADER_SIZE)) == Done(Small)
  {
    assert InsertPos([], 32) == 0;
    assert InsertPos([0], 32) == 1;
    var r := Release(SmallOut, 32);
    assert r == Arena(true, 64, [0, 32], {}, map[0 := 32, 32 := 32]);
    assert Succ(r.free, 1) == 0 && Pred(r.free, 1) == 0;
    assert BuddyAligned(64, 0, 32);
    assert Absorb(r, 0) == Small;
    assert Succ(Small.free, 0) == 0 && Pred(Small.free, 0) == 0;
    assert CheckMergeSpec(Small, 0) == Small;
    assert CheckMergeSpec(r, 1) == Small;
  }

  /** On a 64-byte arena, sal_malloc(10) splits the only block and hands out
      its upper half 32; freeing it merges the halves back, which restores
      the abstract state sal_init left (the header merge zeroed at 32 stays
      in memory, but no longer describes a block). */
  lemma AllocateAndRelease()
    ensures InitSpec(Empty, 64) == Small
    ensures MallocSpec(Small, 10) == (SmallOut, Payload(32 + HEADER_SIZE))
    ensures FreeSpec(SmallOut, Payload(32 + HEADER_SIZE)) == Done(Small)
  {
    assert IsPow2(64) by { assert IsPow2(32) by { assert IsPow2(16); } }
    RoundUpFixesPow2(64);
    SmallMalloc();
    SmallFree();
  }
}
