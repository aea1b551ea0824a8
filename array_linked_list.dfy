/** The list controller: a singly linked list whose nodes live in a growable
    array of slots, linked by index, with a free chain of vacant slots
    threaded through the same `next` field. */
module ArrayLinkedLists {
  import opened Slots

  /** The representation invariant, over the slot array `s`, the scalar
      fields and the ghost view: `occ` is the occupied chain from `head`,
      `free` the free chain from `freeList`, and `contents` the payloads
      along `occ`. The two chains are disjoint (their `used` flags differ)
      and together hold every slot, except for at most one `detached` slot
      (NULL when there is none) that the allocator has handed out and the
      list has not linked in yet. */
  ghost predicate Rep(s: seq<Node>, head: int, tail: int, freeList: int, size: int,
                      occ: seq<int>, free: seq<int>, contents: seq<int>, detached: int)
  {
    && |s| > 0
    && Chain(s, head, occ)
    && Chain(s, freeList, free)
    && Marks(s, occ, free)
    && |occ| + |free| + (if detached == NULL then 0 else 1) == |s|
    && DetachedSlot(s, occ, detached)
    && Views(s, tail, size, occ, contents)
  }

  /** Occupied slots are used; free slots are vacant and hold EMPTY_VALUE. */
  ghost predicate Marks(s: seq<Node>, occ: seq<int>, free: seq<int>)
    requires InRange(occ, |s|) && InRange(free, |s|)
  {
    && (forall k :: 0 <= k < |occ| ==> s[occ[k]].used)
    && (forall k :: 0 <= k < |free| ==> !s[free[k]].used && s[free[k]].data == EMPTY_VALUE)
  }

  /** The slot handed out by the allocator: used, unlinked, on no chain. */
  ghost predicate DetachedSlot(s: seq<Node>, occ: seq<int>, detached: int)
  {
    detached != NULL ==>
      0 <= detached < |s| && detached !in occ && s[detached].used && s[detached].next == NULL
  }

  /** `tail` ends the occupied chain, `size` is its length and `contents`
      are the payloads along it. */
  ghost predicate Views(s: seq<Node>, tail: int, size: int, occ: seq<int>, contents: seq<int>)
    requires InRange(occ, |s|)
  {
    && tail == (if occ == [] then NULL else occ[|occ| - 1])
    && size == |occ|
    && |contents| == |occ|
    && (forall k :: 0 <= k < |occ| ==> contents[k] == s[occ[k]].data)
  }

  /** The three emptiness tests on `head`, `tail` and `size` agree, and a
      non-NULL head is a slot holding the first element. */
  lemma RepEmptiness(s: seq<Node>, head: int, tail: int, freeList: int, size: int,
                     occ: seq<int>, free: seq<int>, contents: seq<int>, detached: int)
    requires Rep(s, head, tail, freeList, size, occ, free, contents, detached)
    ensures head == NULL <==> size == 0
    ensures tail == NULL <==> size == 0
    ensures freeList == NULL <==> free == []
    ensures head != NULL ==> 0 <= head < |s| && s[head].data == contents[0]
  {
    ChainEmptyIff(s, head, occ);
    ChainEmptyIff(s, freeList, free);
    if occ != [] {
      assert 0 <= occ[|occ| - 1];
    }
  }

  /** allocateNode on a non-empty free chain: its first slot, still vacant,
      becomes the detached slot (used, no successor) and leaves the free
      chain. */
  lemma AllocateStep(s: seq<Node>, head: int, tail: int, freeList: int, size: int,
                     occ: seq<int>, free: seq<int>, contents: seq<int>)
    requires Rep(s, head, tail, freeList, size, occ, free, contents, NULL)
    requires freeList != NULL
    ensures free != [] && freeList == free[0] && 0 <= freeList < |s|
    ensures s[freeList].data == EMPTY_VALUE
    ensures Rep(s[freeList := s[freeList].(used := true, next := NULL)], head, tail,
                s[freeList].next, size, occ, free[1..], contents, freeList)
  {
    ChainEmptyIff(s, freeList, free);
    var i := freeList;
    var t := s[i := s[i].(used := true, next := NULL)];
    assert forall k :: 0 <= k < |occ| ==> occ[k] != i by {
      assert !s[free[0]].used;
    }
    ChainRest(s, free);
    ChainDistinct(s, freeList, free);
    assert forall k :: 0 <= k < |free| - 1 ==> free[1..][k] != i by {
      forall k | 0 <= k < |free| - 1 ensures free[1..][k] != i {
        assert free[1..][k] == free[k + 1];
      }
    }
    ChainFrame(s, t, head, occ);
    ChainFrame(s, t, s[i].next, free[1..]);
  }

  /** add once the allocator has handed out slot `r`: the value goes into
      `r`, which is linked after the old tail (or becomes the whole list). */
  lemma AddStep(s: seq<Node>, head: int, tail: int, freeList: int, size: int,
                occ: seq<int>, free: seq<int>, contents: seq<int>, r: int, v: int)
    requires r != NULL
    requires Rep(s, head, tail, freeList, size, occ, free, contents, r)
    ensures 0 <= r < |s| && (head == NULL <==> occ == [])
    ensures head == NULL ==>
      Rep(s[r := s[r].(data := v)], r, r, freeList, size + 1, occ + [r], free, contents + [v], NULL)
    ensures head != NULL ==>
      && 0 <= tail < |s| && tail != r
      && Rep(s[r := s[r].(data := v)][tail := s[tail].(next := r)], head, r, freeList, size + 1,
             occ + [r], free, contents + [v], NULL)
  {
    ChainEmptyIff(s, head, occ);
    var t := s[r := s[r].(data := v)];
    assert forall k :: 0 <= k < |free| ==> free[k] != r;
    ChainFrame(s, t, freeList, free);
    if head == NULL {
      assert Chain(t, r, [r]);
    } else {
      var u := t[tail := t[tail].(next := r)];
      assert forall k :: 0 <= k < |free| ==> free[k] != tail by {
        assert s[occ[|occ| - 1]].used;
      }
      ChainFrame(s, u, freeList, free);
      ChainSnoc(u, head, occ, r);
    }
  }

  /** poll on a non-empty list: the head slot goes to the front of the free
      chain, its successor becomes the head, and the tail is cleared exactly
      when the list empties. */
  lemma PollStep(s: seq<Node>, head: int, tail: int, freeList: int, size: int,
                 occ: seq<int>, free: seq<int>, contents: seq<int>)
    requires Rep(s, head, tail, freeList, size, occ, free, contents, NULL)
    requires head != NULL
    ensures occ != [] && 0 <= head < |s| && s[head].data == contents[0]
    ensures s[head].next == NULL <==> |occ| == 1
    ensures Rep(s[head := VACANT.(next := freeList)], s[head].next,
                if s[head].next == NULL then NULL else tail, head, size - 1,
                occ[1..], [head] + free, contents[1..], NULL)
  {
    ChainEmptyIff(s, head, occ);
    var h := head;
    var t := s[h := VACANT.(next := freeList)];
    var rest := occ[1..];
    ChainRest(s, occ);
    ChainEmptyIff(s, s[h].next, rest);
    ChainDistinct(s, head, occ);
    assert forall k :: 0 <= k < |rest| ==> rest[k] != h by {
      forall a | 0 <= a < |rest| ensures rest[a] == occ[a + 1] {}
    }
    ChainFrame(s, t, s[h].next, rest);
    assert forall k :: 0 <= k < |free| ==> free[k] != h by {
      assert s[occ[0]].used;
    }
    ChainFrame(s, t, freeList, free);
    ChainPush(t, freeList, free, h);
  }

  /** pop on a one-element list: the slot goes to the front of the free
      chain and both `head` and `tail` are cleared. */
  lemma PopOneStep(s: seq<Node>, head: int, tail: int, freeList: int, size: int,
                   occ: seq<int>, free: seq<int>, contents: seq<int>)
    requires Rep(s, head, tail, freeList, size, occ, free, contents, NULL)
    requires head != NULL && head == tail
    ensures |contents| == 1 && 0 <= head < |s| && s[head].data == contents[0]
    ensures Rep(s[head := VACANT.(next := freeList)], NULL, NULL, head, size - 1,
                [], [head] + free, [], NULL)
  {
    ChainEmptyIff(s, head, occ);
    ChainNoRepeat(s, head, occ, 0, |occ| - 1);
    PollStep(s, head, tail, freeList, size, occ, free, contents);
  }

  /** pop on a list of two or more: the tail slot goes to the front of the
      free chain and its predecessor `p` becomes the tail. */
  lemma PopStep(s: seq<Node>, head: int, tail: int, freeList: int, size: int,
                occ: seq<int>, free: seq<int>, contents: seq<int>)
    requires Rep(s, head, tail, freeList, size, occ, free, contents, NULL)
    requires tail != NULL && head != tail
    ensures |occ| >= 2 && 0 <= tail < |s| && s[tail].data == contents[|contents| - 1]
    ensures var p := occ[|occ| - 2];
      && 0 <= p < |s| && p != tail && s[p].next == tail
      && Rep(s[tail := VACANT.(next := freeList)][p := s[p].(next := NULL)], head, p, tail,
             size - 1, occ[..|occ| - 1], [tail] + free, contents[..|contents| - 1], NULL)
  {
    ChainEmptyIff(s, head, occ);
    var n := |occ|;
    var p := occ[n - 2];
    var t := s[tail := VACANT.(next := freeList)];
    var u := t[p := t[p].(next := NULL)];
    var occ' := occ[..n - 1];
    ChainDistinct(s, head, occ);
    assert forall k :: 0 <= k < |free| ==> free[k] != tail && free[k] != p by {
      assert s[occ[n - 1]].used && s[occ[n - 2]].used;
    }
    ChainFrame(s, u, freeList, free);
    ChainPush(u, freeList, free, tail);
    assert Chain(u, head, occ') by {
      forall k | 0 <= k < |occ'| - 1
        ensures u[occ'[k]].next == occ'[k + 1]
      {
        assert occ'[k] == occ[k] && occ'[k + 1] == occ[k + 1];
      }
    }
  }

  /** expandArray leaves the occupied slots as they were: the relinked
      slot, if any, is the last free one, which is vacant. */
  lemma ExpandKeepsOccupied(s: seq<Node>, head: int, tail: int, freeList: int, size: int,
                            occ: seq<int>, free: seq<int>, contents: seq<int>)
    requires Rep(s, head, tail, freeList, size, occ, free, contents, NULL)
    ensures forall k :: 0 <= k < |occ| ==> Grown(s, free)[occ[k]] == s[occ[k]]
  {
    GrownSlots(s, free);
    if free != [] {
      assert !s[free[|free| - 1]].used;
    }
  }

  /** expandArray's free chain: the fresh block, appended to the old free
      chain when there is one. */
  lemma {:induction false} ExpandFreeChain(s: seq<Node>, freeList: int, free: seq<int>)
    requires |s| > 0 && Chain(s, freeList, free)
    ensures freeList == NULL <==> free == []
    ensures Chain(Grown(s, free), if freeList == NULL then |s| else freeList, free + Range(|s|, 2 * |s|))
  {
    ChainEmptyIff(s, freeList, free);
    var t := s + FreshBlock(|s|, |s|);
    var block := Range(|s|, 2 * |s|);
    AppendedBlock(s);
    if free == [] {
      assert free + block == block;
    } else {
      var last := free[|free| - 1];
      var g := t[last := t[last].(next := |s|)];
      ChainDistinct(s, freeList, free);
      assert g == Grown(s, free);
      assert forall k :: 0 <= k < |block| ==> block[k] != last;
      ChainFrame(t, g, |s|, block);
      forall k | 0 <= k < |free| - 1
        ensures g[free[k]].next == free[k + 1]
      {
        assert free[k] != last;
        assert t[free[k]] == s[free[k]];
      }
      assert g[last].next == block[0];
      ChainJoin(g, free, block);
    }
  }

  /** expandArray's free slots, old and new, are vacant. */
  lemma {:induction false} ExpandFreeVacant(s: seq<Node>, free: seq<int>)
    requires InRange(free, |s|)
    requires forall k :: 0 <= k < |free| ==> !s[free[k]].used && s[free[k]].data == EMPTY_VALUE
    ensures forall k :: 0 <= k < |free| + |s| ==>
      var i := (free + Range(|s|, 2 * |s|))[k];
      !Grown(s, free)[i].used && Grown(s, free)[i].data == EMPTY_VALUE
  {
    var g := Grown(s, free);
    var free' := free + Range(|s|, 2 * |s|);
    GrownSlots(s, free);
    forall k | 0 <= k < |free'|
      ensures !g[free'[k]].used && g[free'[k]].data == EMPTY_VALUE
    {
      if k < |free| {
        assert free'[k] == free[k];
      } else {
        assert free'[k] == |s| + (k - |free|);
        assert g[free'[k]] == g[|s|..][k - |free|];
      }
    }
  }

  /** expandArray: the fresh block either becomes the free chain (when that
      was empty) or is appended after the free chain's last slot; the
      occupied chain and the contents are untouched. */
  lemma ExpandStep(s: seq<Node>, head: int, tail: int, freeList: int, size: int,
                   occ: seq<int>, free: seq<int>, contents: seq<int>)
    requires Rep(s, head, tail, freeList, size, occ, free, contents, NULL)
    ensures freeList == NULL <==> free == []
    ensures Rep(Grown(s, free), head, tail, if freeList == NULL then |s| else freeList, size,
                occ, free + Range(|s|, 2 * |s|), contents, NULL)
  {
    GrownSlots(s, free);
    ExpandKeepsOccupied(s, head, tail, freeList, size, occ, free, contents);
    ChainFrame(s, Grown(s, free), head, occ);
    ExpandFreeChain(s, freeList, free);
    ExpandFreeVacant(s, free);
  }

  /** The slot array after add links the handed-out slot `r`, holding `v`,
      in after `tail` (or alone, when `tail` is NULL). */
  ghost function Appended(s: seq<Node>, tail: int, r: int, v: int): seq<Node>
    requires 0 <= r < |s| && (tail == NULL || 0 <= tail < |s|)
  {
    var t := s[r := s[r].(data := v)];
    if tail == NULL then t else t[tail := t[tail].(next := r)]
  }

  class ArrayLinkedList {
    var nodes: array<Node>
    var size: int
    var head: int
    var tail: int
    var freeList: int

    /** The list's elements, head first. */
    ghost var Contents: seq<int>
    /** The occupied chain: slot indices from `head` to `tail`. */
    ghost var Occ: seq<int>
    /** The free chain: slot indices from `freeList`. */
    ghost var Free: seq<int>

    /** The invariant, allowing one slot handed out but not yet linked in. */
    ghost predicate Layout(detached: int)
      reads this, nodes
    {
      Rep(nodes[..], head, tail, freeList, size, Occ, Free, Contents, detached)
    }

    ghost predicate Valid()
      reads this, nodes
    {
      Layout(NULL)
    }

    /** The Java constructor: ten vacant slots chained 0 -> 1 -> ... -> 9,
        and an empty list. */
    constructor ()
      ensures Valid() && fresh(nodes)
      ensures nodes[..] == FreshBlock(0, INITIAL_CAPACITY)
      ensures Contents == [] && Occ == [] && Free == Range(0, INITIAL_CAPACITY)
      ensures head == NULL && tail == NULL && size == 0 && freeList == 0
    {
      nodes := new Node[INITIAL_CAPACITY];
      new;
      InitializeFreeList();
      size := 0;
      head := NULL;
      tail := NULL;
      Occ := [];
      Contents := [];
      FreshBlockChain(nodes[..], 0, nodes.Length);
    }

    /** Every slot vacant, chained in index order, headed by slot 0. */
    method InitializeFreeList()
      modifies nodes, this`freeList, this`Free
      ensures nodes[..] == FreshBlock(0, nodes.Length)
      ensures freeList == 0 && Free == Range(0, nodes.Length)
    {
      for i := 0 to nodes.Length
        invariant forall j :: 0 <= j < i ==> nodes[j] == FreshBlock(0, nodes.Length)[j]
      {
        nodes[i] := VACANT;
        if i < nodes.Length - 1 {
          nodes[i] := nodes[i].(next := i + 1);
        } else {
          nodes[i] := nodes[i].(next := NULL);
        }
      }
      freeList := 0;
      Free := Range(0, nodes.Length);
    }

    /** Hands out the first free slot, growing the array first when no slot
        is free. */
    method AllocateNode() returns (index: int)
      requires Valid()
      modifies this`nodes, this`freeList, this`Free, nodes
      ensures index != NULL && Layout(index)
      ensures 0 <= index < nodes.Length && nodes[index] == Node(EMPTY_VALUE, NULL, true)
      ensures old(freeList) != NULL ==>
        && nodes == old(nodes) && index == old(freeList) && Free == old(Free)[1..]
        && nodes[..] == old(nodes[..])[index := Node(EMPTY_VALUE, NULL, true)]
      ensures old(freeList) == NULL ==>
        && fresh(nodes) && nodes.Length == 2 * old(nodes.Length)
        && index == old(nodes.Length) && Free == Range(index + 1, nodes.Length)
        && nodes[..] == Grown(old(nodes[..]), old(Free))[index := Node(EMPTY_VALUE, NULL, true)]
    {
      if freeList == NULL {
        ghost var n := nodes.Length;
        ghost var s0, f0 := nodes[..], Free;
        ChainEmptyIff(s0, freeList, Free);
        ExpandArray();
        ghost var s1 := nodes[..];
        assert s1 == Grown(s0, f0);
        assert Free == Range(n, 2 * n);
        RangeTail(n, 2 * n);
        index := TakeFree();
        assert nodes[..] == s1[index := Node(EMPTY_VALUE, NULL, true)];
      } else {
        index := TakeFree();
      }
    }

    /** The common half of allocateNode: unlinks the first free slot and
        marks it used, with a NULL link. */
    method TakeFree() returns (index: int)
      requires Valid() && freeList != NULL
      modifies this`freeList, this`Free, nodes
      ensures Layout(index) && index == old(freeList)
      ensures 0 <= index < nodes.Length && old(nodes[..])[index].data == EMPTY_VALUE
      ensures nodes[..] == old(nodes[..])[index := Node(EMPTY_VALUE, NULL, true)]
      ensures freeList == old(nodes[..])[index].next && Free == old(Free)[1..]
    {
      AllocateStep(nodes[..], head, tail, freeList, size, Occ, Free, Contents);
      index := freeList;
      freeList := nodes[freeList].next;
      nodes[index] := nodes[index].(used := true, next := NULL);
      Free := Free[1..];
    }

    /** Returns slot `index` to the front of the free chain. */
    method FreeNode(index: int)
      requires 0 <= index < nodes.Length
      modifies nodes, this`freeList, this`Free
      ensures nodes[..] == old(nodes[..])[index := VACANT.(next := old(freeList))]
      ensures freeList == index && Free == [index] + old(Free)
    {
      nodes[index] := nodes[index].(used := false, data := EMPTY_VALUE, next := freeList);
      freeList := index;
      Free := [index] + Free;
    }

    /** The reallocation half of expandArray: a fresh array of twice the
        capacity holding a copy of the old slots, followed by a block of
        vacant slots chained in index order. */
    static method GrowSlots(a: array<Node>) returns (newNodes: array<Node>)
      requires a.Length > 0
      ensures fresh(newNodes) && newNodes.Length == 2 * a.Length
      ensures newNodes[..] == a[..] + FreshBlock(a.Length, a.Length)
    {
      var oldCapacity := a.Length;
      var newCapacity := oldCapacity * 2;

      newNodes := new Node[newCapacity];
      forall i | 0 <= i < oldCapacity {
        newNodes[i] := a[i];
      }

      for i := oldCapacity to newCapacity
        invariant forall j :: 0 <= j < oldCapacity ==> newNodes[j] == a[j]
        invariant forall j :: oldCapacity <= j < i ==> newNodes[j] == VACANT
      {
        newNodes[i] := VACANT;
      }

      for i := oldCapacity to newCapacity - 1
        invariant forall j :: 0 <= j < oldCapacity ==> newNodes[j] == a[j]
        invariant forall j :: oldCapacity <= j < i ==> newNodes[j] == VACANT.(next := j + 1)
        invariant forall j :: i <= j < newCapacity ==> newNodes[j] == VACANT
      {
        newNodes[i] := newNodes[i].(next := i + 1);
      }
      newNodes[newCapacity - 1] := newNodes[newCapacity - 1].(next := NULL);
      assert newNodes[..] == a[..] + FreshBlock(oldCapacity, oldCapacity) by {
        forall j | 0 <= j < newCapacity
          ensures newNodes[j] == (a[..] + FreshBlock(oldCapacity, oldCapacity))[j]
        {
          if j >= oldCapacity {
            assert FreshBlock(oldCapacity, oldCapacity)[j - oldCapacity]
              == VACANT.(next := if j < newCapacity - 1 then j + 1 else NULL);
          }
        }
      }
    }

    /** The walk of expandArray along a non-empty free chain to its last
        slot, the one whose link is NULL. */
    method LastFree() returns (last: int)
      requires Valid() && freeList != NULL
      ensures Free != [] && last == Free[|Free| - 1]
      ensures 0 <= last < nodes.Length && nodes[last].next == NULL
    {
      ghost var s := nodes[..];
      ChainEmptyIff(s, freeList, Free);
      last := freeList;
      ghost var k := 0;
      while nodes[last].next != NULL
        invariant 0 <= k < |Free| && last == Free[k]
        decreases |Free| - k
      {
        ChainStep(s, freeList, Free, k);
        last := nodes[last].next;
        k := k + 1;
      }
      ChainStep(s, freeList, Free, k);
    }

    /** Doubles the array: old slots are copied, the new ones chained in
        order and appended to the free chain (after its last slot, found by
        walking it, when it is not empty). */
    method ExpandArray()
      requires Valid()
      modifies this`nodes, this`freeList, this`Free
      ensures Valid() && fresh(nodes) && nodes.Length == 2 * old(nodes.Length)
      ensures nodes[..] == Grown(old(nodes[..]), old(Free))
      ensures head == old(head) && tail == old(tail) && size == old(size)
      ensures Occ == old(Occ) && Contents == old(Contents)
      ensures Free == old(Free) + Range(old(nodes.Length), 2 * old(nodes.Length))
      ensures freeList == if old(freeList) == NULL then old(nodes.Length) else old(freeList)
    {
      var oldCapacity := nodes.Length;
      var newCapacity := oldCapacity * 2;
      ghost var s := nodes[..];
      ghost var g := Grown(s, Free);
      var newNodes := GrowSlots(nodes);
      ghost var t := newNodes[..];

      if freeList == NULL {
        ChainEmptyIff(s, freeList, Free);
        freeList := oldCapacity;
        assert newNodes[..] == g;
      } else {
        // The Java code writes this link through the old array, whose Node
        // objects the new array shares; here the slot is a value, so the
        // write goes to the new array.
        var current := LastFree();
        ChainEmptyIff(s, freeList, Free);
        newNodes[current] := newNodes[current].(next := oldCapacity);
        assert newNodes[..] == t[current := t[current].(next := oldCapacity)];
        assert newNodes[..] == g;
      }

      ExpandStep(s, head, tail, old(freeList), size, Occ, Free, Contents);
      nodes := newNodes;
      Free := Free + Range(oldCapacity, newCapacity);
    }

    /** Queue enqueue: appends `value` at the tail, in the slot that
        allocateNode hands out. */
    method Add(value: int)
      requires Valid()
      modifies this, nodes
      ensures Valid()
      ensures Contents == old(Contents) + [value] && Occ == old(Occ) + [tail] && size == old(size) + 1
      ensures head == (if old(head) == NULL then tail else old(head))
      ensures 0 <= tail < nodes.Length && nodes[tail] == Node(value, NULL, true)
      ensures old(freeList) != NULL ==>
        && nodes == old(nodes) && tail == old(freeList) && Free == old(Free)[1..]
        && nodes[..] == Appended(old(nodes[..])[tail := Node(EMPTY_VALUE, NULL, true)], old(tail), tail, value)
      ensures old(freeList) == NULL ==>
        && fresh(nodes) && nodes.Length == 2 * old(nodes.Length)
        && tail == old(nodes.Length) && Free == Range(tail + 1, nodes.Length)
        && nodes[..] == Appended(Grown(old(nodes[..]), old(Free))[tail := Node(EMPTY_VALUE, NULL, true)],
                                 old(tail), tail, value)
    {
      var newIndex := AllocateNode();
      Append(newIndex, value);
    }

    /** The linking half of add: stores `value` in the handed-out slot `r`
        and links it after the tail, or makes it the whole list when the
        list is empty. */
    method Append(r: int, value: int)
      requires r != NULL && Layout(r)
      modifies this`head, this`tail, this`size, this`Occ, this`Contents, nodes
      ensures Valid()
      ensures 0 <= r < nodes.Length && (old(tail) == NULL || 0 <= old(tail) < nodes.Length)
      ensures nodes[..] == Appended(old(nodes[..]), old(tail), r, value)
      ensures Contents == old(Contents) + [value] && Occ == old(Occ) + [r] && size == old(size) + 1
      ensures tail == r && head == (if old(head) == NULL then r else old(head))
    {
      ghost var s := nodes[..];
      AddStep(s, head, tail, freeList, size, Occ, Free, Contents, r, value);
      nodes[r] := nodes[r].(data := value);

      if head == NULL {
        assert nodes[..] == s[r := s[r].(data := value)];
        head := r;
        tail := r;
      } else {
        nodes[tail] := nodes[tail].(next := r);
        assert nodes[..] == s[r := s[r].(data := value)][tail := s[tail].(next := r)];
        tail := r;
      }
      size := size + 1;
      Occ := Occ + [r];
      Contents := Contents + [value];
    }

    /** Queue dequeue: removes and returns the head element, or returns
        EMPTY_VALUE and changes nothing when the list is empty. */
    method Poll() returns (result: int)
      requires Valid()
      modifies this, nodes
      ensures Valid() && nodes == old(nodes)
      ensures old(Contents) == [] ==>
        && result == EMPTY_VALUE
        && nodes[..] == old(nodes[..]) && head == old(head) && tail == old(tail)
        && size == old(size) && freeList == old(freeList)
        && Contents == old(Contents) && Occ == old(Occ) && Free == old(Free)
      ensures old(Contents) != [] ==>
        && result == old(Contents)[0] && Contents == old(Contents)[1..]
        && Occ == old(Occ)[1..] && size == old(size) - 1
        && freeList == old(head) && Free == [old(head)] + old(Free)
        && head == old(nodes[..])[old(head)].next
        && tail == (if head == NULL then NULL else old(tail))
        && nodes[..] == old(nodes[..])[old(head) := VACANT.(next := old(freeList))]
      ensures tail == NULL <==> Contents == []
    {
      ghost var s := nodes[..];
      RepEmptiness(s, head, tail, freeList, size, Occ, Free, Contents, NULL);
      if head == NULL {
        return EMPTY_VALUE;
      }
      PollStep(s, head, tail, freeList, size, Occ, Free, Contents);

      result := nodes[head].data;
      var oldHead := head;
      head := nodes[head].next;

      FreeNode(oldHead);
      size := size - 1;

      if head == NULL {
        tail := NULL;
      }
      Occ := Occ[1..];
      Contents := Contents[1..];
    }

    /** The walk of pop from the head to the slot just before the tail. */
    method BeforeTail() returns (prev: int)
      requires Valid() && |Contents| >= 2
      ensures prev == Occ[|Occ| - 2]
      ensures 0 <= prev < nodes.Length && nodes[prev].next == tail
    {
      ghost var s := nodes[..];
      prev := head;
      ghost var k := 0;
      while nodes[prev].next != tail
        invariant 0 <= k < |Occ| - 1 && prev == Occ[k]
        decreases |Occ| - k
      {
        ChainStep(s, head, Occ, k);
        prev := nodes[prev].next;
        k := k + 1;
      }
      ChainStep(s, head, Occ, k);
      ChainNoRepeat(s, head, Occ, k + 1, |Occ| - 1);
    }

    /** pop on a one-element list (`head == tail`): the slot goes back to
        the free chain and the list becomes empty. */
    method PopOnly() returns (result: int)
      requires Valid() && tail != NULL && head == tail
      modifies this, nodes
      ensures Valid() && nodes == old(nodes)
      ensures |old(Contents)| == 1 && result == old(Contents)[0]
      ensures nodes[..] == old(nodes[..])[old(tail) := VACANT.(next := old(freeList))]
      ensures head == NULL && tail == NULL && size == 0 && freeList == old(tail)
      ensures Occ == [] && Contents == [] && Free == [old(tail)] + old(Free)
    {
      ghost var s := nodes[..];
      RepEmptiness(s, head, tail, freeList, size, Occ, Free, Contents, NULL);
      PopOneStep(s, head, tail, freeList, size, Occ, Free, Contents);
      result := nodes[head].data;
      FreeNode(head);
      head := NULL;
      tail := NULL;
      size := size - 1;
      Occ := [];
      Contents := [];
    }

    /** pop on a list of two or more (`head != tail`): the tail slot goes
        back to the free chain and the slot before it becomes the tail. */
    method PopLast() returns (result: int)
      requires Valid() && tail != NULL && head != tail
      modifies this, nodes
      ensures Valid() && nodes == old(nodes)
      ensures |old(Contents)| >= 2 && result == old(Contents)[|old(Contents)| - 1]
      ensures tail == old(Occ)[|old(Occ)| - 2]
      ensures nodes[..] == old(nodes[..])[old(tail) := VACANT.(next := old(freeList))]
                                         [tail := old(nodes[..])[tail].(next := NULL)]
      ensures head == old(head) && size == old(size) - 1 && freeList == old(tail)
      ensures Occ == old(Occ)[..|old(Occ)| - 1] && Contents == old(Contents)[..|old(Contents)| - 1]
      ensures Free == [old(tail)] + old(Free)
    {
      ghost var s := nodes[..];
      var current := BeforeTail();
      PopStep(s, head, tail, freeList, size, Occ, Free, Contents);

      result := nodes[tail].data;
      FreeNode(tail);
      nodes[current] := nodes[current].(next := NULL);
      assert nodes[..] == s[tail := VACANT.(next := old(freeList))][current := s[current].(next := NULL)];
      tail := current;
      size := size - 1;
      Occ := Occ[..|Occ| - 1];
      Contents := Contents[..|Contents| - 1];
    }

    /** Stack pop: removes and returns the tail element, or returns
        EMPTY_VALUE and changes nothing when the list is empty. */
    method Pop() returns (result: int)
      requires Valid()
      modifies this, nodes
      ensures Valid() && nodes == old(nodes)
      ensures old(Contents) == [] ==>
        && result == EMPTY_VALUE
        && nodes[..] == old(nodes[..]) && head == old(head) && tail == old(tail)
        && size == old(size) && freeList == old(freeList)
        && Contents == old(Contents) && Occ == old(Occ) && Free == old(Free)
      ensures old(Contents) != [] ==>
        && result == old(Contents)[|old(Contents)| - 1]
        && Contents == old(Contents)[..|old(Contents)| - 1]
        && Occ == old(Occ)[..|old(Occ)| - 1]
        && size == old(size) - 1
        && freeList == old(tail) && Free == [old(tail)] + old(Free)
      ensures |old(Contents)| == 1 ==>
        && head == NULL && tail == NULL
        && nodes[..] == old(nodes[..])[old(tail) := VACANT.(next := old(freeList))]
      ensures |old(Contents)| > 1 ==>
        && head == old(head) && tail == old(Occ)[|old(Occ)| - 2] && nodes[tail].next == NULL
        && nodes[..] == old(nodes[..])[old(tail) := VACANT.(next := old(freeList))]
                                      [tail := old(nodes[..])[tail].(next := NULL)]
    {
      RepEmptiness(nodes[..], head, tail, freeList, size, Occ, Free, Contents, NULL);
      if tail == NULL {
        return EMPTY_VALUE;
      }
      if head == tail {
        result := PopOnly();
      } else {
        result := PopLast();
      }
    }

    /** The free chain is empty exactly when every slot is occupied, so
        allocateNode grows the array only when it is full. */
    lemma FullWhenNoFree()
      requires Valid()
      ensures freeList == NULL <==> |Contents| == nodes.Length
    {
      ChainEmptyIff(nodes[..], freeList, Free);
    }

    /** No slot is on a chain twice, every slot is on exactly one of the two
        chains, `size` counts the occupied ones and `used` marks exactly
        them. */
    lemma Partition()
      requires Valid()
      ensures Distinct(Occ) && Distinct(Free) && |Occ| == size
      ensures forall i :: 0 <= i < nodes.Length ==> (nodes[i].used <==> i in Occ)
      ensures forall i :: 0 <= i < nodes.Length ==> (i in Occ <==> i !in Free)
    {
      ghost var s := nodes[..];
      forall i, j | 0 <= i < |Occ| && 0 <= j < |Free|
        ensures Occ[i] != Free[j]
      {
        assert s[Occ[i]].used && !s[Free[j]].used;
      }
      ChainDistinct(s, head, Occ);
      ChainDistinct(s, freeList, Free);
      Cover(|s|, Occ, Free);
      forall i | 0 <= i < nodes.Length
        ensures (i in Occ <==> i !in Free) && (nodes[i].used <==> i in Occ)
      {
        assert nodes[i] == s[i];
        if i in Occ {
          var k :| 0 <= k < |Occ| && Occ[k] == i;
          assert s[Occ[k]].used;
        } else {
          var k :| 0 <= k < |Free| && Free[k] == i;
          assert !s[Free[k]].used;
        }
      }
    }

    /** The head element, or EMPTY_VALUE when the list is empty. */
    function Peek(): (r: int)
      reads this, nodes
      requires Valid()
      ensures Contents == [] ==> r == EMPTY_VALUE
      ensures Contents != [] ==> r == Contents[0]
    {
      RepEmptiness(nodes[..], head, tail, freeList, size, Occ, Free, Contents, NULL);
      if head == NULL then EMPTY_VALUE else nodes[head].data
    }

    function IsEmpty(): (r: bool)
      reads this, nodes
      requires Valid()
      ensures r <==> Contents == []
    {
      size == 0
    }

    function Size(): (r: int)
      reads this, nodes
      requires Valid()
      ensures r == |Contents|
    {
      size
    }
  }
}
