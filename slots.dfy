/** The slot store of the array-backed linked list: the node record, the
    sentinels, and what it means for a sequence of slot indices to be a chain
    threaded through the `next` links of the slots. */
module Slots {

  /** The null link. */
  const NULL: int := -1
  /** The payload of a vacant slot, and what an empty list answers. */
  const EMPTY_VALUE: int := -1
  /** Capacity of a freshly built list. */
  const INITIAL_CAPACITY: int := 10

  /** One cell of the backing array. */
  datatype Node = Node(data: int, next: int, used: bool)

  /** The slot built by the Java `Node()` constructor. */
  const VACANT: Node := Node(EMPTY_VALUE, NULL, false)

  /** The indices lo, lo+1, ..., hi-1. */
  function Range(lo: int, hi: int): seq<int>
    requires lo <= hi
  {
    seq(hi - lo, k => lo + k)
  }

  /** The block of `n` slots numbered lo, lo+1, ... as the Java code builds
      them: vacant, each linking to the next index, the last one to NULL. */
  function FreshBlock(lo: int, n: nat): seq<Node>
  {
    seq(n, k => VACANT.(next := if k < n - 1 then lo + k + 1 else NULL))
  }

  ghost predicate InRange(c: seq<int>, n: int)
  {
    forall k :: 0 <= k < |c| ==> 0 <= c[k] < n
  }

  ghost predicate Distinct(c: seq<int>)
  {
    forall i, j :: 0 <= i < j < |c| ==> c[i] != c[j]
  }

  /** Following `next` from `start` visits exactly the slots of `c`, in
      order, and then reaches NULL. */
  ghost predicate Linked(s: seq<Node>, start: int, c: seq<int>)
    requires InRange(c, |s|)
  {
    && start == (if c == [] then NULL else c[0])
    && (forall k :: 0 <= k < |c| - 1 ==> s[c[k]].next == c[k + 1])
    && (c != [] ==> s[c[|c| - 1]].next == NULL)
  }

  /** `c` is the chain of slots that starts at `start`. Since it ends in
      NULL it cannot revisit a slot (see ChainDistinct). */
  ghost predicate Chain(s: seq<Node>, start: int, c: seq<int>)
  {
    InRange(c, |s|) && Linked(s, start, c)
  }

  /** A chain starts at NULL exactly when it is empty. */
  lemma ChainEmptyIff(s: seq<Node>, start: int, c: seq<int>)
    requires InRange(c, |s|) && Linked(s, start, c)
    ensures start == NULL <==> c == []
  {
    if c != [] {
      assert 0 <= c[0];
    }
  }

  /** One step along a chain: the k-th slot links to NULL exactly when it is
      the last one, and otherwise to the next slot of the chain. */
  lemma ChainStep(s: seq<Node>, start: int, c: seq<int>, k: int)
    requires Chain(s, start, c)
    requires 0 <= k < |c|
    ensures s[c[k]].next == NULL <==> k == |c| - 1
    ensures k < |c| - 1 ==> s[c[k]].next == c[k + 1]
  {
    if k < |c| - 1 {
      assert 0 <= c[k + 1];
    }
  }

  /** Dropping the first slot of a chain leaves the chain that starts at
      that slot's successor. */
  lemma ChainRest(s: seq<Node>, c: seq<int>)
    requires InRange(c, |s|) && c != []
    requires Linked(s, c[0], c)
    ensures InRange(c[1..], |s|) && Linked(s, s[c[0]].next, c[1..])
  {
    if |c| > 1 {
      assert s[c[0]].next == c[1];
    }
  }

  /** The links determine the chain: from a given start there is only one
      sequence of slots that ends in NULL. So the occupied and free chains,
      which the model keeps as ghost state, are functions of the slot array
      and the `head` and `freeList` fields. */
  lemma {:induction false} ChainUnique(s: seq<Node>, start: int, c1: seq<int>, c2: seq<int>)
    requires InRange(c1, |s|) && Linked(s, start, c1)
    requires InRange(c2, |s|) && Linked(s, start, c2)
    ensures c1 == c2
    decreases |c1|
  {
    ChainEmptyIff(s, start, c1);
    ChainEmptyIff(s, start, c2);
    if c1 != [] {
      ChainRest(s, c1);
      ChainRest(s, c2);
      ChainUnique(s, s[start].next, c1[1..], c2[1..]);
      assert c1 == [c1[0]] + c1[1..];
      assert c2 == [c2[0]] + c2[1..];
    }
  }

  /** Every suffix of a chain is the chain from its first slot. */
  lemma ChainSuffix(s: seq<Node>, start: int, c: seq<int>, i: int)
    requires Chain(s, start, c)
    requires 0 <= i < |c|
    ensures Chain(s, c[i], c[i..])
  {
    var d := c[i..];
    forall k | 0 <= k < |d| - 1
      ensures s[d[k]].next == d[k + 1]
    {
      assert d[k] == c[i + k] && d[k + 1] == c[i + k + 1];
    }
  }

  /** A slot occurs on a chain at one position only. */
  lemma ChainNoRepeat(s: seq<Node>, start: int, c: seq<int>, i: int, j: int)
    requires Chain(s, start, c)
    requires 0 <= i < |c| && 0 <= j < |c|
    ensures c[i] == c[j] ==> i == j
  {
    if c[i] == c[j] {
      ChainSuffix(s, start, c, i);
      ChainSuffix(s, start, c, j);
      ChainUnique(s, c[i], c[i..], c[j..]);
      assert |c[i..]| == |c[j..]|;
    }
  }

  /** A chain, which ends in NULL, has no repeated slot. */
  lemma ChainDistinct(s: seq<Node>, start: int, c: seq<int>)
    requires Chain(s, start, c)
    ensures Distinct(c)
  {
    forall i, j | 0 <= i < j < |c|
      ensures c[i] != c[j]
    {
      ChainNoRepeat(s, start, c, i, j);
    }
  }

  /** A chain only depends on the links of its own slots: a write that keeps
      those links keeps the chain. */
  lemma ChainFrame(s: seq<Node>, t: seq<Node>, start: int, c: seq<int>)
    requires Chain(s, start, c)
    requires |s| <= |t|
    requires forall k :: 0 <= k < |c| ==> t[c[k]].next == s[c[k]].next
    ensures Chain(t, start, c)
  {
  }

  /** Pushing slot `i`, which links to the chain's start, in front of it. */
  lemma ChainPush(s: seq<Node>, start: int, c: seq<int>, i: int)
    requires Chain(s, start, c)
    requires 0 <= i < |s| && s[i].next == start
    ensures Chain(s, i, [i] + c)
  {
    var d := [i] + c;
    forall k | 0 <= k < |d| - 1
      ensures s[d[k]].next == d[k + 1]
    {
      if k > 0 {
        assert d[k] == c[k - 1];
      }
    }
  }

  /** Appending slot `i`, linked to NULL, after the chain's last slot once
      that slot links to `i`. */
  lemma ChainSnoc(s: seq<Node>, start: int, c: seq<int>, i: int)
    requires InRange(c, |s|)
    requires c != [] && start == c[0]
    requires forall k :: 0 <= k < |c| - 1 ==> s[c[k]].next == c[k + 1]
    requires s[c[|c| - 1]].next == i
    requires 0 <= i < |s| && s[i].next == NULL
    ensures Chain(s, start, c + [i])
  {
  }

  /** Joining two chains once the last slot of the first links to the start
      of the second. */
  lemma ChainJoin(s: seq<Node>, c: seq<int>, d: seq<int>)
    requires InRange(c, |s|) && c != []
    requires forall k :: 0 <= k < |c| - 1 ==> s[c[k]].next == c[k + 1]
    requires d != [] && Chain(s, d[0], d)
    requires s[c[|c| - 1]].next == d[0]
    ensures Chain(s, c[0], c + d)
  {
    var e := c + d;
    forall k | 0 <= k < |e| - 1
      ensures s[e[k]].next == e[k + 1]
    {
      if k >= |c| {
        assert e[k] == d[k - |c|] && e[k + 1] == d[k + 1 - |c|];
      }
    }
  }

  /** A freshly threaded block lo..lo+n-1 is a chain from lo. */
  lemma FreshBlockChain(s: seq<Node>, lo: int, n: nat)
    requires 0 <= lo && 0 < n && lo + n <= |s|
    requires s[lo..lo + n] == FreshBlock(lo, n)
    ensures Chain(s, lo, Range(lo, lo + n))
  {
    forall i | lo <= i < lo + n
      ensures s[i] == VACANT.(next := if i < lo + n - 1 then i + 1 else NULL)
    {
      assert s[i] == s[lo..lo + n][i - lo];
    }
  }

  /** The set of slots on a chain. */
  ghost function Members(c: seq<int>): set<int>
  {
    set x | x in c
  }

  /** The slot indices of an array of `n` slots. */
  ghost function Indices(n: int): set<int>
    requires 0 <= n
  {
    Members(Range(0, n))
  }

  lemma {:induction false} DistinctCard(c: seq<int>)
    requires Distinct(c)
    ensures |Members(c)| == |c|
  {
    if c != [] {
      var r := c[1..];
      assert Distinct(r) by {
        forall i, j | 0 <= i < j < |r| ensures r[i] != r[j] {
          assert r[i] == c[i + 1] && r[j] == c[j + 1];
        }
      }
      DistinctCard(r);
      assert c == [c[0]] + r;
      assert Members(c) == {c[0]} + Members(r);
      assert c[0] !in Members(r) by {
        forall k | 0 <= k < |r| ensures r[k] != c[0] {
          assert r[k] == c[k + 1];
        }
      }
    }
  }

  lemma IndicesCard(n: nat)
    ensures |Indices(n)| == n
    ensures forall i :: 0 <= i < n ==> i in Indices(n)
  {
    DistinctCard(Range(0, n));
    forall i | 0 <= i < n ensures i in Indices(n) {
      assert Range(0, n)[i] == i;
    }
  }

  /** Pigeonhole: two disjoint chains of in-range, distinct slots whose
      lengths add up to `n` between them hold every slot index below `n`. */
  lemma Cover(n: nat, c: seq<int>, d: seq<int>)
    requires InRange(c, n) && InRange(d, n) && Distinct(c) && Distinct(d)
    requires forall i, j :: 0 <= i < |c| && 0 <= j < |d| ==> c[i] != d[j]
    requires |c| + |d| == n
    ensures forall i :: 0 <= i < n ==> i in c || i in d
  {
    var mc, md := Members(c), Members(d);
    DistinctCard(c);
    DistinctCard(d);
    IndicesCard(n);
    assert mc * md == {} by {
      forall x | x in mc ensures x !in md {
        var i :| 0 <= i < |c| && c[i] == x;
        assert forall j :: 0 <= j < |d| ==> d[j] != x;
      }
    }
    var u := mc + md;
    assert |u| == n;
    assert u <= Indices(n);
    assert Indices(n) - u == {} by {
      assert |Indices(n) - u| == |Indices(n)| - |u|;
    }
    forall i | 0 <= i < n
      ensures i in c || i in d
    {
      assert i in Indices(n);
    }
  }

  /** The fresh block appended to `s` is a chain from |s| over the indices
      |s|, ..., 2|s|-1, and the old slots stay as they were. */
  lemma AppendedBlock(s: seq<Node>)
    requires |s| > 0
    ensures (s + FreshBlock(|s|, |s|))[..|s|] == s
    ensures Chain(s + FreshBlock(|s|, |s|), |s|, Range(|s|, 2 * |s|))
  {
    var t := s + FreshBlock(|s|, |s|);
    assert t[|s|..|s| + |s|] == FreshBlock(|s|, |s|);
    FreshBlockChain(t, |s|, |s|);
  }

  /** Dropping the first index of a range. */
  lemma RangeTail(lo: int, hi: int)
    requires lo < hi
    ensures Range(lo, hi)[0] == lo && Range(lo, hi)[1..] == Range(lo + 1, hi)
  {
  }

  /** The slot array after expandArray: the old slots followed by a fresh
      block of as many again; when the free chain `free` is not empty, its
      last slot now links to the first slot of the block. */
  ghost function Grown(s: seq<Node>, free: seq<int>): seq<Node>
    requires InRange(free, |s|)
  {
    var t := s + FreshBlock(|s|, |s|);
    if free == [] then t else t[free[|free| - 1] := t[free[|free| - 1]].(next := |s|)]
  }

  /** Growth doubles the capacity, keeps every old slot except for the
      relinked last free slot, and appends the fresh block. */
  lemma GrownSlots(s: seq<Node>, free: seq<int>)
    requires InRange(free, |s|)
    ensures |Grown(s, free)| == 2 * |s|
    ensures forall i :: 0 <= i < |s| && (free == [] || i != free[|free| - 1]) ==> Grown(s, free)[i] == s[i]
    ensures free != [] ==> Grown(s, free)[free[|free| - 1]] == s[free[|free| - 1]].(next := |s|)
    ensures Grown(s, free)[|s|..] == FreshBlock(|s|, |s|)
  {
    var g := Grown(s, free);
    assert g[|s|..] == FreshBlock(|s|, |s|) by {
      forall k | 0 <= k < |s| ensures g[|s|..][k] == FreshBlock(|s|, |s|)[k] {
        assert g[|s|..][k] == g[|s| + k];
      }
    }
  }
}
