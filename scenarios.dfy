/** Client-level behaviour of the list: each method builds a fresh list,
    runs a sequence of operations on it and returns what a caller observes. */
module Scenarios {
  import opened Slots
  import opened ArrayLinkedLists

  /** Doubling `c` until it holds `n`. */
  function Grow(n: nat, c: int): (r: int)
    requires c > 0
    ensures n <= r && (r == c || r < 2 * n)
    decreases n - c
  {
    if n <= c then c else Grow(n, 2 * c)
  }

  /** The array length after `n` adds to a fresh list: the least
      INITIAL_CAPACITY * 2^k that holds `n` elements. */
  function Capacity(n: nat): (c: int)
    ensures n <= c && (c == INITIAL_CAPACITY || c < 2 * n)
  {
    Grow(n, INITIAL_CAPACITY)
  }

  /** One more element doubles the capacity exactly when the array is full. */
  lemma {:induction false} GrowStep(n: nat, c: int)
    requires c > 0
    ensures Grow(n + 1, c) == if n == Grow(n, c) then 2 * Grow(n, c) else Grow(n, c)
    decreases n - c
  {
    if n < c {
    } else if n == c {
      assert Grow(n + 1, c) == Grow(n + 1, 2 * c);
    } else {
      GrowStep(n, 2 * c);
    }
  }

  /** A fresh list holding `values`, added in order, in an array of
      Capacity(|values|) slots. */
  method Filled(values: seq<int>) returns (l: ArrayLinkedList)
    ensures fresh(l) && fresh(l.nodes) && l.Valid() && l.Contents == values
    ensures l.nodes.Length == Capacity(|values|)
  {
    l := new ArrayLinkedList();
    for i := 0 to |values|
      invariant l.Valid() && fresh(l) && fresh(l.nodes)
      invariant l.Contents == values[..i] && l.nodes.Length == Capacity(i)
    {
      l.FullWhenNoFree();
      GrowStep(i, INITIAL_CAPACITY);
      l.Add(values[i]);
      assert values[..i + 1] == values[..i] + [values[i]];
    }
    assert values[..|values|] == values;
  }

  /** Polls until the list is empty, collecting what poll returns. */
  method DrainByPoll(l: ArrayLinkedList) returns (out: seq<int>)
    requires l.Valid()
    modifies l, l.nodes
    ensures l.Valid() && l.nodes == old(l.nodes)
    ensures out == old(l.Contents) && l.Contents == []
  {
    out := [];
    while !l.IsEmpty()
      invariant l.Valid() && l.nodes == old(l.nodes)
      invariant out + l.Contents == old(l.Contents)
      decreases |l.Contents|
    {
      ghost var rest := l.Contents;
      var x := l.Poll();
      assert rest == [x] + l.Contents;
      out := out + [x];
    }
    assert out == out + l.Contents;
  }

  /** Queue order: three adds, then three polls, return the values in
      insertion order. */
  method Fifo(a: int, b: int, c: int) returns (x: int, y: int, z: int)
    ensures x == a && y == b && z == c
  {
    var l := Filled([a, b, c]);
    x := l.Poll();
    assert l.Contents == [b, c];
    y := l.Poll();
    assert l.Contents == [c];
    z := l.Poll();
  }

  /** Stack order: three adds, then three pops, return the values in
      reverse insertion order. */
  method Lifo(a: int, b: int, c: int) returns (x: int, y: int, z: int)
    ensures x == c && y == b && z == a
  {
    var l := Filled([a, b, c]);
    x := l.Pop();
    assert l.Contents == [a, b];
    y := l.Pop();
    assert l.Contents == [a];
    z := l.Pop();
  }

  /** Both ends of one list: poll takes the first element, pop the last,
      and the list is then empty. */
  method Mixed(a: int, b: int) returns (x: int, y: int, empty: bool)
    ensures x == a && y == b && empty
  {
    var l := new ArrayLinkedList();
    l.Add(a);
    l.Add(b);
    x := l.Poll();
    y := l.Pop();
    empty := l.IsEmpty();
  }

  /** A single element popped again: it comes back, and head and tail are
      both cleared. */
  method SingleElement(v: int) returns (x: int, head: int, tail: int, empty: bool)
    ensures x == v && head == NULL && tail == NULL && empty
  {
    var l := new ArrayLinkedList();
    l.Add(v);
    x := l.Pop();
    head, tail := l.head, l.tail;
    empty := l.IsEmpty();
  }

  /** On an empty list poll, pop and peek answer EMPTY_VALUE, and the list
      stays empty. */
  method EmptyAnswers() returns (p: int, q: int, r: int, n: int, empty: bool)
    ensures p == EMPTY_VALUE && q == EMPTY_VALUE && r == EMPTY_VALUE
    ensures n == 0 && empty
  {
    var l := new ArrayLinkedList();
    p := l.Poll();
    q := l.Pop();
    r := l.Peek();
    n := l.Size();
    empty := l.IsEmpty();
  }

  /** Adds every value, then drains the list with poll: the values come
      back in insertion order, through as many doublings of the array as
      needed. `capacity` is the array length once everything is added. */
  method FillAndDrain(values: seq<int>) returns (out: seq<int>, capacity: int)
    ensures out == values && capacity == Capacity(|values|)
  {
    var l := Filled(values);
    capacity := l.nodes.Length;
    out := DrainByPoll(l);
  }

  /** Eleven values, one more than the initial capacity, need exactly one
      doubling; ten fit without growth. */
  lemma CapacityAtInitialBoundary()
    ensures Capacity(INITIAL_CAPACITY) == INITIAL_CAPACITY
    ensures Capacity(INITIAL_CAPACITY + 1) == 2 * INITIAL_CAPACITY
  {
    GrowStep(INITIAL_CAPACITY, INITIAL_CAPACITY);
  }

  /** `rounds` cycles of add followed by poll on one list. Each poll returns
      the value just added (`polled`), every add lands in slot 0, the slot
      the previous poll freed (`slots`), and the array never grows. */
  method Reuse(rounds: nat) returns (polled: seq<int>, slots: seq<int>, capacity: int, n: int)
    ensures polled == seq(rounds, i => i) && slots == seq(rounds, i => 0)
    ensures capacity == INITIAL_CAPACITY && n == 0
  {
    var l := new ArrayLinkedList();
    polled, slots := [], [];
    for i := 0 to rounds
      invariant l.Valid() && fresh(l) && fresh(l.nodes)
      invariant l.Contents == [] && l.nodes.Length == INITIAL_CAPACITY && l.freeList == 0
      invariant polled == seq(i, k => k) && slots == seq(i, k => 0)
    {
      l.Add(i);
      slots := slots + [l.tail];
      var x := l.Poll();
      polled := polled + [x];
    }
    capacity := l.nodes.Length;
    n := l.Size();
  }
}
