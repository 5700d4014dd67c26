/** The free list as the source stores it: a circular, doubly linked list whose
    links are the next and prev fields of the block headers (allocator.c:30-35).
    A list is described by the sequence of its member offsets, starting at the
    anchor; Linked says the headers realise exactly that circle. */
module Ring {
  import opened Layout

  /** The member after position i, wrapping to the anchor. */
  function Succ(list: seq<nat>, i: nat): nat
    requires i < |list|
  {
    if i + 1 < |list| then list[i + 1] else list[0]
  }

  /** The member before position i, wrapping to the last member. */
  function Pred(list: seq<nat>, i: nat): nat
    requires i < |list|
  {
    if i > 0 then list[i - 1] else list[|list| - 1]
  }

  ghost predicate Distinct(list: seq<nat>)
  {
    forall i, j :: 0 <= i < j < |list| ==> list[i] != list[j]
  }

  /** The member at position i has a header tagged free that links to its
      two neighbours on the circle. */
  ghost predicate LinkedNode(h: map<nat, Header>, list: seq<nat>, i: nat)
    requires i < |list|
  {
    && list[i] in h
    && h[list[i]].magic == MAGIC_FREE
    && h[list[i]].next == Succ(list, i)
    && h[list[i]].prev == Pred(list, i)
  }

  /** Every member's header is tagged free and links to its two neighbours on
      the circle. Triggered on LinkedNode alone: the neighbours of one member
      are members too, and any trigger they could produce would re-trigger
      the quantifier without end. */
  ghost predicate Linked(h: map<nat, Header>, list: seq<nat>)
  {
    forall i {:trigger LinkedNode(h, list, i)} :: 0 <= i < |list| ==> LinkedNode(h, list, i)
  }

  /** The header of the member at position i, by Linked. */
  lemma LinkedAt(h: map<nat, Header>, list: seq<nat>, i: nat)
    requires Linked(h, list) && i < |list|
    ensures list[i] in h && h[list[i]].magic == MAGIC_FREE
    ensures h[list[i]].next == Succ(list, i) && h[list[i]].prev == Pred(list, i)
  {
    assert LinkedNode(h, list, i);
  }

  /** Every member of the circle, and so its successor, has a header tagged
      free: what checkCorruption (allocator.c:192-198) demands of the headers
      it is handed. */
  lemma LinkedMember(h: map<nat, Header>, list: seq<nat>, o: nat)
    requires Linked(h, list) && o in list
    ensures o in h && h[o].magic == MAGIC_FREE
  {
    var i :| 0 <= i < |list| && list[i] == o;
    LinkedAt(h, list, i);
  }

  /** Where each member of the circle with x inserted after position q sits,
      and who its neighbours are, in terms of the old circle. */
  lemma InsertShape(list: seq<nat>, q: nat, x: nat, i: nat)
    requires q < |list| && i < |list| + 1
    ensures var l := list[..q + 1] + [x] + list[q + 1..];
      && |l| == |list| + 1
      && (i <= q ==> l[i] == list[i])
      && (i == q + 1 ==> l[i] == x)
      && (i > q + 1 ==> l[i] == list[i - 1])
      && (i < q ==> Succ(l, i) == Succ(list, i))
      && (i == q ==> Succ(l, i) == x)
      && (i == q + 1 ==> Succ(l, i) == Succ(list, q))
      && (i > q + 1 ==> Succ(l, i) == Succ(list, i - 1))
      && (i == 0 && q + 1 < |list| ==> Pred(l, i) == Pred(list, 0))
      && (i == 0 && q + 1 == |list| ==> Pred(l, i) == x)
      && (0 < i <= q ==> Pred(l, i) == Pred(list, i))
      && (i == q + 1 ==> Pred(l, i) == list[q])
      && (i == q + 2 ==> Pred(l, i) == x)
      && (i > q + 2 ==> Pred(l, i) == Pred(list, i - 1))
  {
  }

  /** The headers h' carry the links of the circle with x inserted after
      position q: x is linked between list[q] and its old successor, and every
      other link is as in h. */
  ghost predicate InsertedLinks(h: map<nat, Header>, h': map<nat, Header>, list: seq<nat>, q: nat, x: nat)
    requires q < |list|
  {
    && x in h' && h'[x].magic == MAGIC_FREE
    && h'[x].next == Succ(list, q) && h'[x].prev == list[q]
    && (forall k :: 0 <= k < |list| ==> list[k] in h' && h'[list[k]].magic == MAGIC_FREE)
    && h'[list[q]].next == x
    && h'[Succ(list, q)].prev == x
    && (forall k :: 0 <= k < |list| && k != q ==>
          list[k] in h && h'[list[k]].next == h[list[k]].next)
    && (forall k :: 0 <= k < |list| && list[k] != Succ(list, q) ==>
          list[k] in h && h'[list[k]].prev == h[list[k]].prev)
  }

  lemma InsertedAt(h: map<nat, Header>, h': map<nat, Header>, list: seq<nat>, q: nat, x: nat, i: nat)
    requires Linked(h, list) && Distinct(list) && q < |list| && x !in list
    requires InsertedLinks(h, h', list, q, x)
    requires i < |list| + 1
    ensures var l := list[..q + 1] + [x] + list[q + 1..];
      && l[i] in h' && h'[l[i]].magic == MAGIC_FREE
      && h'[l[i]].next == Succ(l, i) && h'[l[i]].prev == Pred(l, i)
  {
    InsertShape(list, q, x, i);
    if i <= q {
      LinkedAt(h, list, i);
    } else if i > q + 1 {
      LinkedAt(h, list, i - 1);
    }
    if i == 0 && q + 1 == |list| {
      assert list[0] == Succ(list, q);
    } else if 0 < i <= q {
      assert list[i] != Succ(list, q) by {
        if q + 1 < |list| { assert Succ(list, q) == list[q + 1]; }
      }
    } else if i == q + 2 {
      assert list[i - 1] == Succ(list, q);
    } else if i > q + 2 {
      assert list[i - 1] != Succ(list, q) by { assert Succ(list, q) == list[q + 1]; }
    }
  }

  lemma InsertDistinct(list: seq<nat>, q: nat, x: nat)
    requires Distinct(list) && q < |list| && x !in list
    ensures Distinct(list[..q + 1] + [x] + list[q + 1..])
  {
    var l := list[..q + 1] + [x] + list[q + 1..];
    forall i, j | 0 <= i < j < |l| ensures l[i] != l[j] {
      InsertShape(list, q, x, i);
      InsertShape(list, q, x, j);
      if i == q + 1 {
        assert l[j] in list;
      } else if j == q + 1 {
        assert l[i] in list;
      }
    }
  }

  /** Linking x in after position q, by rewriting x's header and the two links
      around it, yields the circle with x inserted after position q. */
  lemma LinkedInsert(h: map<nat, Header>, h': map<nat, Header>, list: seq<nat>, q: nat, x: nat)
    requires Linked(h, list) && Distinct(list) && q < |list| && x !in list
    requires InsertedLinks(h, h', list, q, x)
    ensures Linked(h', list[..q + 1] + [x] + list[q + 1..])
    ensures Distinct(list[..q + 1] + [x] + list[q + 1..])
  {
    var l := list[..q + 1] + [x] + list[q + 1..];
    forall i | 0 <= i < |l|
      ensures l[i] in h' && h'[l[i]].magic == MAGIC_FREE
      ensures h'[l[i]].next == Succ(l, i) && h'[l[i]].prev == Pred(l, i)
    {
      InsertedAt(h, h', list, q, x, i);
    }
    InsertDistinct(list, q, x);
  }

  /** Where each member of the circle without position j sits, and who its
      neighbours are, in terms of the old circle. */
  lemma RemoveShape(list: seq<nat>, j: nat, i: nat)
    requires 2 <= |list| && j < |list| && i < |list| - 1
    ensures var l := list[..j] + list[j + 1..];
      var k := if i < j then i else i + 1;
      && |l| == |list| - 1
      && l[i] == list[k]
      && (if k + 1 == j || (j == 0 && k == |list| - 1) then Succ(l, i) == Succ(list, j)
          else Succ(l, i) == Succ(list, k))
      && (if k == j + 1 || (j == |list| - 1 && k == 0) then Pred(l, i) == Pred(list, j)
          else Pred(l, i) == Pred(list, k))
  {
  }

  /** The headers h' carry the links of the circle without position j: its two
      neighbours are joined, and every other link is as in h. */
  ghost predicate RemovedLinks(h: map<nat, Header>, h': map<nat, Header>, list: seq<nat>, j: nat)
    requires j < |list|
  {
    && (forall k :: 0 <= k < |list| && k != j ==> list[k] in h' && h'[list[k]].magic == MAGIC_FREE)
    && Pred(list, j) in h' && h'[Pred(list, j)].next == Succ(list, j)
    && Succ(list, j) in h' && h'[Succ(list, j)].prev == Pred(list, j)
    && (forall k :: 0 <= k < |list| && k != j && list[k] != Pred(list, j) ==>
          list[k] in h && h'[list[k]].next == h[list[k]].next)
    && (forall k :: 0 <= k < |list| && k != j && list[k] != Succ(list, j) ==>
          list[k] in h && h'[list[k]].prev == h[list[k]].prev)
  }

  lemma RemovedAt(h: map<nat, Header>, h': map<nat, Header>, list: seq<nat>, j: nat, i: nat)
    requires Linked(h, list) && Distinct(list) && 2 <= |list| && j < |list|
    requires RemovedLinks(h, h', list, j)
    requires i < |list| - 1
    ensures var l := list[..j] + list[j + 1..];
      && l[i] in h' && h'[l[i]].magic == MAGIC_FREE
      && h'[l[i]].next == Succ(l, i) && h'[l[i]].prev == Pred(l, i)
  {
    RemoveShape(list, j, i);
    var k := if i < j then i else i + 1;
    LinkedAt(h, list, k);
    if k + 1 == j || (j == 0 && k == |list| - 1) {
      assert list[k] == Pred(list, j);
    } else {
      assert list[k] != Pred(list, j) by {
        if j > 0 { assert Pred(list, j) == list[j - 1]; } else { assert Pred(list, j) == list[|list| - 1]; }
      }
    }
    if k == j + 1 || (j == |list| - 1 && k == 0) {
      assert list[k] == Succ(list, j);
    } else {
      assert list[k] != Succ(list, j) by {
        if j + 1 < |list| { assert Succ(list, j) == list[j + 1]; } else { assert Succ(list, j) == list[0]; }
      }
    }
  }

  lemma RemoveDistinct(list: seq<nat>, j: nat)
    requires Distinct(list) && j < |list|
    ensures Distinct(list[..j] + list[j + 1..])
  {
    var l := list[..j] + list[j + 1..];
    forall a, b | 0 <= a < b < |l| ensures l[a] != l[b] {
      var ka := if a < j then a else a + 1;
      var kb := if b < j then b else b + 1;
      assert l[a] == list[ka] && l[b] == list[kb];
    }
  }

  /** Unlinking position j, by joining its two neighbours, yields the circle
      without that member. */
  lemma LinkedRemove(h: map<nat, Header>, h': map<nat, Header>, list: seq<nat>, j: nat)
    requires Linked(h, list) && Distinct(list) && 2 <= |list| && j < |list|
    requires RemovedLinks(h, h', list, j)
    ensures Linked(h', list[..j] + list[j + 1..])
    ensures Distinct(list[..j] + list[j + 1..])
  {
    var l := list[..j] + list[j + 1..];
    forall i | 0 <= i < |l|
      ensures l[i] in h' && h'[l[i]].magic == MAGIC_FREE
      ensures h'[l[i]].next == Succ(l, i) && h'[l[i]].prev == Pred(l, i)
    {
      RemovedAt(h, h', list, j, i);
    }
    RemoveDistinct(list, j);
  }

  /** The circle through list + [x] is the circle through [x] + list:
      making x the anchor does not change any link. */
  lemma LinkedRotate(h: map<nat, Header>, list: seq<nat>, x: nat)
    requires Linked(h, list + [x])
    ensures Linked(h, [x] + list)
  {
    var a, b := list + [x], [x] + list;
    forall i | 0 <= i < |b|
      ensures b[i] in h && h[b[i]].magic == MAGIC_FREE
      ensures h[b[i]].next == Succ(b, i) && h[b[i]].prev == Pred(b, i)
    {
      var k := if i == 0 then |list| else i - 1;
      LinkedAt(h, a, k);
      assert b[i] == a[k];
      assert Succ(b, i) == Succ(a, k);
      assert Pred(b, i) == Pred(a, k);
    }
  }

  /** Inserting x at position p keeps every member and adds x. */
  lemma InsertMembers(list: seq<nat>, p: nat, x: nat)
    requires p <= |list|
    ensures var l := list[..p] + [x] + list[p..];
      x in l && forall o :: o in list ==> o in l
  {
    assert list == list[..p] + list[p..];
  }

  /** Removing the member at position j keeps every other member. */
  lemma RemoveMembers(list: seq<nat>, j: nat)
    requires j < |list|
    ensures forall o :: o in list && o != list[j] ==> o in list[..j] + list[j + 1..]
  {
    assert list == list[..j] + [list[j]] + list[j + 1..];
  }
}
