/** The binary heap beneath the reservation queue: the Go `priorityQueue`
    slice of items with its `heap.Interface` methods, and the sift-up and
    sift-down that `container/heap` runs over it. The slice is a `seq` field
    that every method reassigns; `Less` orders by DESCENDING priority, so the
    root holds the highest priority (a max-heap). */
module Heap {
  import opened Wrappers

  /** A reservation with its priority, as the queue's abstract view sees it. */
  datatype Entry<T> = Entry(value: T, priority: int)

  /** One heap item: the reservation, its priority and the item's own
      record of where it sits in the slice. */
  datatype Item<T> = Item(reservation: T, priority: int, index: int)
  {
    function Key(): Entry<T> { Entry(reservation, priority) }
  }

  /** Position of the parent of position `k` in the implicit binary tree. */
  function Parent(k: nat): (p: nat)
    requires k > 0
    ensures p < k && (k == 2 * p + 1 || k == 2 * p + 2)
  {
    (k - 1) / 2
  }

  /** The entries of a slice, position by position, without the indices. */
  function Entries<T>(h: seq<Item<T>>): (r: seq<Entry<T>>)
    ensures |r| == |h|
    ensures forall k :: 0 <= k < |h| ==> r[k] == h[k].Key()
  {
    seq(|h|, k requires 0 <= k < |h| => h[k].Key())
  }

  /** Every item records its own position. */
  ghost predicate Indexed<T>(h: seq<Item<T>>) {
    forall k :: 0 <= k < |h| ==> h[k].index == k
  }

  /** The first `n` items form a max-heap: no child outranks its parent. */
  ghost predicate Ordered<T>(h: seq<Item<T>>, n: int)
    requires n <= |h|
  {
    forall k :: 0 < k < n ==> h[Parent(k)].priority >= h[k].priority
  }

  /** Priority `x` is at least that of each child of position `i` among
      the first `n` items. */
  ghost predicate AboveChildren<T>(h: seq<Item<T>>, n: nat, x: int, i: nat)
    requires n <= |h|
  {
    (2 * i + 1 < n ==> x >= h[2 * i + 1].priority) && (2 * i + 2 < n ==> x >= h[2 * i + 2].priority)
  }

  /** In a max-heap the root's priority is at least that of every item. */
  lemma {:induction false} RootIsMax<T>(h: seq<Item<T>>, k: nat)
    requires Ordered(h, |h|) && k < |h|
    ensures h[0].priority >= h[k].priority
    decreases k
  {
    if k > 0 {
      RootIsMax(h, Parent(k));
    }
  }

  lemma RootIsMaxAll<T>(h: seq<Item<T>>)
    requires Ordered(h, |h|) && |h| > 0
    ensures forall k :: 0 <= k < |h| ==> h[k].priority <= h[0].priority
  {
    forall k | 0 <= k < |h| ensures h[k].priority <= h[0].priority {
      RootIsMax(h, k);
    }
  }

  /** The ordering of a prefix survives cutting the slice there. */
  lemma OrderedPrefix<T>(h: seq<Item<T>>, n: nat)
    requires n <= |h| && Ordered(h, n)
    ensures Ordered(h[..n], n)
  {
  }

  /** In a max-heap an item's parent outranks the item's children, which is
      what keeps the heap repairable after one item is overwritten. */
  lemma GrandparentBridges<T>(h: seq<Item<T>>, i: nat)
    requires Ordered(h, |h|) && 0 < i < |h|
    ensures AboveChildren(h, |h|, h[Parent(i)].priority, i)
  {
    if 2 * i + 1 < |h| {
      assert Parent(2 * i + 1) == i;
    }
    if 2 * i + 2 < |h| {
      assert Parent(2 * i + 2) == i;
    }
  }

  /** Item `i` may be out of place, but every other parent-child edge holds
      and `i`'s parent outranks `i`'s children: the state `Fix` repairs. */
  ghost predicate Repairable<T>(h: seq<Item<T>>, i: nat) {
    && i < |h| && Indexed(h)
    && (forall k :: 0 < k < |h| && k != i && Parent(k) != i ==> h[Parent(k)].priority >= h[k].priority)
    && (i > 0 ==> AboveChildren(h, |h|, h[Parent(i)].priority, i))
  }

  /** Overwriting one item of a max-heap, keeping its index, leaves a
      repairable heap. */
  lemma OverwriteRepairable<T>(h: seq<Item<T>>, i: nat, x: Item<T>)
    requires Ordered(h, |h|) && Indexed(h) && i < |h| && x.index == i
    ensures Repairable(h[i := x], i)
  {
    if i > 0 {
      GrandparentBridges(h, i);
    }
  }

  lemma EntriesUpdate<T>(h: seq<Item<T>>, i: nat, x: Item<T>)
    requires i < |h|
    ensures Entries(h[i := x]) == Entries(h)[i := x.Key()]
  {
  }

  /** Overwriting one position trades its entry for the new one. */
  lemma EntriesOverwrite<T>(h: seq<Item<T>>, i: nat, x: Item<T>)
    requires i < |h|
    ensures multiset(Entries(h[i := x])) == multiset(Entries(h)) - multiset{h[i].Key()} + multiset{x.Key()}
  {
    EntriesUpdate(h, i, x);
  }

  /** Exchanging two positions keeps the multiset of entries. */
  lemma EntriesSwap<T>(h: seq<Item<T>>, i: nat, j: nat, a: Item<T>, b: Item<T>)
    requires i < |h| && j < |h| && a.Key() == h[j].Key() && b.Key() == h[i].Key()
    ensures multiset(Entries(h[i := a][j := b])) == multiset(Entries(h))
  {
    EntriesUpdate(h, i, a);
    EntriesUpdate(h[i := a], j, b);
    var e := Entries(h);
    assert Entries(h[i := a][j := b]) == e[i := e[j]][j := e[i]];
  }

  /** The slice with items `i` and `j` exchanged and their recorded
      positions rewritten. */
  function Swapped<T>(h: seq<Item<T>>, i: nat, j: nat): (r: seq<Item<T>>)
    requires i < |h| && j < |h|
    ensures |r| == |h|
  {
    h[i := h[j].(index := i)][j := h[i].(index := j)]
  }

  /** Moving the last item to the root of a max-heap leaves every edge of
      the first `|h| - 1` items in order except those from the root. */
  lemma PopPrepared<T>(h: seq<Item<T>>)
    requires Ordered(h, |h|) && |h| > 0
    ensures forall k :: 0 < k < |h| - 1 && Parent(k) != 0 ==>
      Swapped(h, 0, |h| - 1)[Parent(k)].priority >= Swapped(h, 0, |h| - 1)[k].priority
  {
  }

  /** The state of a sift-up that has reached `j`: every edge is in order
      except the one from `j` to its parent, and `j`'s parent outranks `j`'s
      children. */
  ghost predicate RisingAt<T>(h: seq<Item<T>>, j: nat)
    requires j < |h|
  {
    && (forall k :: 0 < k < |h| && k != j ==> h[Parent(k)].priority >= h[k].priority)
    && (j > 0 ==> AboveChildren(h, |h|, h[Parent(j)].priority, j))
  }

  /** One step of the sift-up: exchanging `j` with its parent, which it
      outranks, moves the rising point to the parent. */
  lemma RiseStep<T>(h: seq<Item<T>>, j: nat)
    requires 0 < j < |h| && RisingAt(h, j)
    requires h[j].priority > h[Parent(j)].priority
    ensures RisingAt(Swapped(h, Parent(j), j), Parent(j))
  {
    var p := Parent(j);
    var h' := h[p := h[j].(index := p)][j := h[p].(index := j)];
    forall k | 0 < k < |h| && k != p
      ensures h'[Parent(k)].priority >= h'[k].priority
    {
      var q := Parent(k);
      if k == j {
      } else if q == p {
        assert h'[k] == h[k];
      } else if q == j {
        assert k == 2 * j + 1 || k == 2 * j + 2;
      } else {
        assert h'[q] == h[q] && h'[k] == h[k];
      }
    }
    if p > 0 {
      if 2 * p + 1 < |h| {
        assert Parent(2 * p + 1) == p;
      }
      if 2 * p + 2 < |h| {
        assert Parent(2 * p + 2) == p;
      }
      assert h'[Parent(p)] == h[Parent(p)];
    }
  }

  /** The state of a sift-down that started at `i0` and has reached `i`
      (over the first `n` items): every edge is in order except those from
      `i` to its children and, while nothing has moved, the edge from `i0`
      to its parent; and `i`'s parent outranks `i`'s children. */
  ghost predicate SinkingAt<T>(h: seq<Item<T>>, n: nat, i0: nat, i: nat)
    requires n <= |h|
  {
    && (forall k :: 0 < k < n && Parent(k) != i && (k != i0 || i != i0) ==> h[Parent(k)].priority >= h[k].priority)
    && (0 < i < |h| ==> AboveChildren(h, n, h[Parent(i)].priority, i))
  }

  /** One step of the sift-down: exchanging `i` with its higher-ranked child
      `j`, which outranks it, moves the sinking point to `j`. */
  lemma SinkStep<T>(h: seq<Item<T>>, n: nat, i0: nat, i: nat, j: nat)
    requires n <= |h| && i0 <= i && SinkingAt(h, n, i0, i)
    requires j < n && (j == 2 * i + 1 || j == 2 * i + 2)
    requires h[j].priority > h[i].priority
    requires AboveChildren(h, n, h[j].priority, i)
    ensures SinkingAt(Swapped(h, i, j), n, i0, j)
  {
    var h' := h[i := h[j].(index := i)][j := h[i].(index := j)];
    assert Parent(j) == i;
    forall k | 0 < k < n && Parent(k) != j && (k != i0 || j != i0)
      ensures h'[Parent(k)].priority >= h'[k].priority
    {
      var p := Parent(k);
      if k == j {
      } else if p == i {
        assert k == 2 * i + 1 || k == 2 * i + 2;
      } else if k == i {
        assert AboveChildren(h, n, h[Parent(i)].priority, i);
      } else {
        assert h'[p] == h[p] && h'[k] == h[k];
      }
    }
    if 2 * j + 1 < n {
      assert Parent(2 * j + 1) == j;
    }
    if 2 * j + 2 < n {
      assert Parent(2 * j + 2) == j;
    }
  }

  /** Where the sift-down stops (no child left, or no child outranks `i`),
      the first `n` items are a heap except possibly at `i0`'s parent edge,
      which is in order too once anything has moved. */
  lemma SettledAt<T>(h: seq<Item<T>>, n: nat, i0: nat, i: nat)
    requires n <= |h| && i0 <= i < |h| && SinkingAt(h, n, i0, i)
    requires AboveChildren(h, n, h[i].priority, i)
    ensures i > i0 ==> Ordered(h, n)
    ensures forall k :: 0 < k < n && (k != i0 || i != i0) ==> h[Parent(k)].priority >= h[k].priority
  {
    forall k | 0 < k < n && (k != i0 || i != i0)
      ensures h[Parent(k)].priority >= h[k].priority
    {
      if Parent(k) == i {
        assert k == 2 * i + 1 || k == 2 * i + 2;
      }
    }
  }

  class PriorityQueue<T(==)> {
    var heap: seq<Item<T>>

    /** The invariant `container/heap` keeps, together with the queue's own
        bookkeeping of `index`. */
    ghost predicate Valid()
      reads this
    {
      Indexed(heap) && Ordered(heap, |heap|)
    }

    /** An empty slice; `heap.Init` has nothing to do on it. */
    constructor ()
      ensures Valid() && heap == []
    {
      heap := [];
    }

    function Len(): nat
      reads this
    {
      |heap|
    }

    /** Item `i` comes out before item `j`: it has the higher priority. */
    predicate Less(i: nat, j: nat)
      reads this
      requires i < |heap| && j < |heap|
    {
      heap[i].priority > heap[j].priority
    }

    /** Exchanges two items and rewrites both recorded positions. */
    method Swap(i: nat, j: nat)
      requires i < |heap| && j < |heap|
      modifies this
      ensures heap == Swapped(old(heap), i, j)
      ensures multiset(Entries(heap)) == multiset(Entries(old(heap)))
      ensures Indexed(old(heap)) ==> Indexed(heap)
    {
      var hi, hj := heap[i], heap[j];
      EntriesSwap(heap, i, j, hj.(index := i), hi.(index := j));
      heap := heap[i := hj.(index := i)][j := hi.(index := j)];
    }

    /** `heap.Interface.Push`: appends the item, recording its position. */
    method PushBack(x: Item<T>)
      modifies this
      ensures heap == old(heap) + [x.(index := |old(heap)|)]
    {
      heap := heap + [x.(index := |heap|)];
    }

    /** `heap.Interface.Pop`: removes the last item and marks it as no
        longer in the slice. */
    method PopBack() returns (x: Item<T>)
      requires |heap| > 0
      modifies this
      ensures heap == old(heap)[..|old(heap)| - 1]
      ensures x == old(heap)[|old(heap)| - 1].(index := -1)
    {
      x := heap[|heap| - 1].(index := -1);
      heap := heap[..|heap| - 1];
    }

    /** The sift-up of `container/heap`: moves item `j0` towards the root
        while it outranks its parent. Before it runs, only the edge from
        `j0` to its parent may be out of order, and `j0`'s parent already
        outranks `j0`'s children. */
    method Up(j0: nat)
      requires j0 < |heap| && Indexed(heap)
      requires forall k :: 0 < k < |heap| && k != j0 ==> heap[Parent(k)].priority >= heap[k].priority
      requires j0 > 0 ==> AboveChildren(heap, |heap|, heap[Parent(j0)].priority, j0)
      modifies this
      ensures Valid() && |heap| == |old(heap)|
      ensures multiset(Entries(heap)) == multiset(Entries(old(heap)))
    {
      var j: nat := j0;
      assert RisingAt(heap, j);
      while j > 0 && Less(j, Parent(j))
        invariant j < |heap| == |old(heap)| && Indexed(heap)
        invariant multiset(Entries(heap)) == multiset(Entries(old(heap)))
        invariant RisingAt(heap, j)
        decreases j
      {
        var p := Parent(j);
        RiseStep(heap, j);
        Swap(p, j);
        j := p;
      }
    }

    /** The sift-down of `container/heap` over the first `n` items: moves
        item `i0` towards the leaves while a child outranks it, always
        swapping with the higher-ranked child. `moved` says whether it left
        `i0`. Before it runs, only the edges touching `i0` may be out of
        order, and `i0`'s parent already outranks `i0`'s children. */
    method Down(i0: nat, n: nat) returns (moved: bool)
      requires i0 < |heap| && n <= |heap| && Indexed(heap)
      requires forall k :: 0 < k < n && k != i0 && Parent(k) != i0 ==> heap[Parent(k)].priority >= heap[k].priority
      requires i0 > 0 ==> AboveChildren(heap, n, heap[Parent(i0)].priority, i0)
      modifies this
      ensures |heap| == |old(heap)| && Indexed(heap)
      ensures multiset(Entries(heap)) == multiset(Entries(old(heap)))
      ensures n < |heap| ==> heap[n] == old(heap)[n]
      ensures moved || i0 == 0 ==> Ordered(heap, n)
      ensures !moved ==> heap == old(heap)
      ensures moved ==> heap[i0].priority > old(heap)[i0].priority && heap != old(heap)
      ensures !moved ==> AboveChildren(heap, n, heap[i0].priority, i0)
    {
      var i := i0;
      ghost var last := if n < |heap| then heap[n] else heap[i0];
      while true
        invariant i0 <= i < |heap| == |old(heap)| && Indexed(heap)
        invariant multiset(Entries(heap)) == multiset(Entries(old(heap)))
        invariant n < |heap| ==> heap[n] == last
        invariant i == i0 ==> heap == old(heap)
        invariant i > i0 ==> heap[i0].priority > old(heap)[i0].priority
        invariant SinkingAt(heap, n, i0, i)
        decreases |heap| - i
      {
        var j := SinkOnce(i0, n, i);
        if j == i {
          SettledAt(heap, n, i0, i);
          break;
        }
        i := j;
      }
      moved := i > i0;
    }

    /** One round of the sift-down at `i`: stops (returning `i`) when `i`
        has no child among the first `n` items or its higher-ranked child
        does not outrank it, and otherwise exchanges the two and returns the
        child's position. */
    method SinkOnce(ghost i0: nat, n: nat, i: nat) returns (next: nat)
      requires n <= |heap| && i0 <= i < |heap| && Indexed(heap) && SinkingAt(heap, n, i0, i)
      modifies this
      ensures |heap| == |old(heap)| && Indexed(heap)
      ensures multiset(Entries(heap)) == multiset(Entries(old(heap)))
      ensures next == i ==> heap == old(heap) && AboveChildren(heap, n, heap[i].priority, i)
      ensures next != i ==> i < next < n && heap == Swapped(old(heap), i, next) && SinkingAt(heap, n, i0, next)
      ensures next != i ==> old(heap)[next].priority > old(heap)[i].priority
    {
      var j1 := 2 * i + 1;
      if j1 >= n {
        return i;
      }
      var j := j1;
      if j1 + 1 < n && Less(j1 + 1, j1) {
        j := j1 + 1;
      }
      if !Less(j, i) {
        return i;
      }
      SinkStep(heap, n, i0, i, j);
      Swap(i, j);
      return j;
    }

    /** `heap.Fix`: restores the heap after the item at `i` was overwritten,
        first sifting it down and, if it did not move, sifting it up. */
    method Fix(i: nat)
      requires Repairable(heap, i)
      modifies this
      ensures Valid() && |heap| == |old(heap)|
      ensures multiset(Entries(heap)) == multiset(Entries(old(heap)))
    {
      var moved := Down(i, |heap|);
      if !moved {
        Up(i);
      }
    }

    /** `heap.Push`: appends the item and sifts it up. */
    method HeapPush(x: Item<T>)
      requires Valid()
      modifies this
      ensures Valid() && |heap| == |old(heap)| + 1
      ensures multiset(Entries(heap)) == multiset(Entries(old(heap))) + multiset{x.Key()}
    {
      PushBack(x);
      assert Entries(heap) == Entries(old(heap)) + [x.Key()];
      Up(|heap| - 1);
    }

    /** `heap.Pop`: moves the root to the end, sifts the new root down over
        the rest, and removes the old root, which has the highest priority. */
    method HeapPop() returns (x: Item<T>)
      requires Valid() && |heap| > 0
      modifies this
      ensures Valid() && |heap| == |old(heap)| - 1
      ensures x == old(heap)[0].(index := -1)
      ensures forall k :: 0 <= k < |old(heap)| ==> old(heap)[k].priority <= x.priority
      ensures multiset(Entries(heap)) + multiset{x.Key()} == multiset(Entries(old(heap)))
    {
      RootIsMaxAll(heap);
      PopPrepared(heap);
      var n := |heap| - 1;
      Swap(0, n);
      var _ := Down(0, n);
      ghost var before := heap;
      x := PopBack();
      OrderedPrefix(before, n);
      assert Entries(before) == Entries(heap) + [before[n].Key()];
    }

    /** The position of the first item of lowest priority: a linear scan
        that keeps the first item it sees and replaces it only by a strictly
        lower one. */
    method Lowest() returns (idx: int)
      requires Valid() && |heap| > 0
      ensures 0 <= idx < |heap|
      ensures forall k :: 0 <= k < |heap| ==> heap[idx].priority <= heap[k].priority
      ensures forall k :: 0 <= k < idx ==> heap[k].priority > heap[idx].priority
    {
      var item: Option<nat> := None;
      var k := 0;
      while k < |heap|
        invariant 0 <= k <= |heap|
        invariant item.None? <==> k == 0
        invariant item.Some? ==> item.value < k
        invariant item.Some? ==> forall m :: 0 <= m < k ==> heap[item.value].priority <= heap[m].priority
        invariant item.Some? ==> forall m :: 0 <= m < item.value ==> heap[m].priority > heap[item.value].priority
      {
        if item.None? || heap[k].priority < heap[item.value].priority {
          item := Some(k);
        }
        k := k + 1;
      }
      idx := heap[item.value].index;
    }

    /** The position of the first item holding `r`, or -1 when none does. */
    method Index(r: T) returns (idx: int)
      requires Valid()
      ensures idx == -1 <==> forall k :: 0 <= k < |heap| ==> heap[k].reservation != r
      ensures idx != -1 ==> 0 <= idx < |heap| && heap[idx].reservation == r
      ensures idx != -1 ==> forall k :: 0 <= k < idx ==> heap[k].reservation != r
    {
      var k := 0;
      while k < |heap|
        invariant 0 <= k <= |heap|
        invariant forall m :: 0 <= m < k ==> heap[m].reservation != r
      {
        if heap[k].reservation == r {
          return heap[k].index;
        }
        k := k + 1;
      }
      return -1;
    }
  }
}
