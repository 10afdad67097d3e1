/** The reservation queue: a bounded, de-duplicating max-heap of
    reservations keyed by the time of their latest push. The wall clock is
    a counter that every priority read advances, so each push gets a
    strictly higher priority than anything already queued. The ghost
    `Order` lists the heap's entries by ascending priority; the abstract
    view `Model()` (reservations oldest first, plus the keys of `items`)
    is what `QueueSpec` describes. */
module Queue {
  import opened Wrappers
  import opened Config
  import opened Heap
  import QueueSpec

  /** A slot to book, with the form data to submit for it. */
  datatype Reservation = Reservation(entity: Entity, date: string, term: string, userData: seq<Row>)

  /** The reservations of a list of entries, in the same order. */
  function Values(o: seq<Entry<Reservation>>): (r: seq<Reservation>)
    ensures |r| == |o|
    ensures forall k :: 0 <= k < |o| ==> r[k] == o[k].value
  {
    seq(|o|, k requires 0 <= k < |o| => o[k].value)
  }

  /** Priorities strictly increase along `o`. */
  ghost predicate Increasing(o: seq<Entry<Reservation>>) {
    forall i, j :: 0 <= i < j < |o| ==> o[i].priority < o[j].priority
  }

  /** Every priority in `o` is below `bound`. */
  ghost predicate Below(o: seq<Entry<Reservation>>, bound: int) {
    forall i :: 0 <= i < |o| ==> o[i].priority < bound
  }

  // ----- Facts linking heap positions to the ascending list -----

  /** An entry of the list sits at some position of the heap. */
  lemma EntryInHeap(h: seq<Item<Reservation>>, o: seq<Entry<Reservation>>, k: nat)
    requires multiset(Entries(h)) == multiset(o) && k < |o|
    ensures exists j :: 0 <= j < |h| && h[j].Key() == o[k]
  {
    assert o[k] in multiset(o);
    assert o[k] in Entries(h);
  }

  /** Every heap entry sits at some position of the list. */
  lemma HeapEntryInList(h: seq<Item<Reservation>>, o: seq<Entry<Reservation>>, j: nat)
    requires multiset(Entries(h)) == multiset(o) && j < |h|
    ensures exists k :: 0 <= k < |o| && o[k] == h[j].Key()
  {
    assert Entries(h)[j] == h[j].Key();
    assert h[j].Key() in multiset(Entries(h));
    assert h[j].Key() in o;
  }

  /** The heap item of least priority holds the oldest entry. */
  lemma LowestIsOldest(h: seq<Item<Reservation>>, o: seq<Entry<Reservation>>, idx: nat)
    requires multiset(Entries(h)) == multiset(o) && Increasing(o)
    requires idx < |h| && forall k :: 0 <= k < |h| ==> h[idx].priority <= h[k].priority
    ensures h[idx].Key() == o[0]
  {
    EntryInHeap(h, o, 0);
    HeapEntryInList(h, o, idx);
    var m :| 0 <= m < |o| && o[m] == h[idx].Key();
    var j :| 0 <= j < |h| && h[j].Key() == o[0];
    assert o[m].priority <= o[0].priority;
  }

  /** A heap item whose priority is at least every other's holds the newest
      entry. */
  lemma HighestIsNewest(h: seq<Item<Reservation>>, o: seq<Entry<Reservation>>, x: Entry<Reservation>)
    requires multiset(Entries(h)) == multiset(o) && Increasing(o) && |o| > 0
    requires x in multiset(o) && forall k :: 0 <= k < |h| ==> h[k].priority <= x.priority
    ensures x == o[|o| - 1]
  {
    var n := |o| - 1;
    EntryInHeap(h, o, n);
    assert x in o;
    var m :| 0 <= m < |o| && o[m] == x;
    var j :| 0 <= j < |h| && h[j].Key() == o[n];
    assert o[n].priority <= o[m].priority;
  }

  // Each of the small lemmas below states one fact about one shape of
  // list; the combined lemmas after them only call the small ones.

  lemma RemoveAtMultiset(o: seq<Entry<Reservation>>, k: nat)
    requires k < |o|
    ensures multiset(o[..k] + o[k + 1..]) == multiset(o) - multiset{o[k]}
  {
    assert o == o[..k] + [o[k]] + o[k + 1..];
    assert multiset(o) == multiset(o[..k]) + multiset{o[k]} + multiset(o[k + 1..]);
  }

  lemma RemoveAtIncreasing(o: seq<Entry<Reservation>>, k: nat)
    requires Increasing(o) && k < |o|
    ensures Increasing(o[..k] + o[k + 1..])
  {
    var w := o[..k] + o[k + 1..];
    assert forall i :: 0 <= i < |w| ==> w[i] == (if i < k then o[i] else o[i + 1]);
  }

  lemma RemoveAtValues(o: seq<Entry<Reservation>>, k: nat)
    requires k < |o|
    ensures Values(o[..k] + o[k + 1..]) == Values(o)[..k] + Values(o)[k + 1..]
  {
    var w := o[..k] + o[k + 1..];
    assert forall i :: 0 <= i < |w| ==> w[i] == (if i < k then o[i] else o[i + 1]);
  }

  lemma RemoveAtBelow(o: seq<Entry<Reservation>>, k: nat, w: seq<Entry<Reservation>>, bound: int)
    requires k < |o| && w == o[..k] + o[k + 1..]
    requires Below(o, bound)
    ensures Below(w, bound)
  {
    assert forall i :: 0 <= i < |w| ==> w[i] == (if i < k then o[i] else o[i + 1]);
  }

  lemma AppendIncreasing(o: seq<Entry<Reservation>>, e: Entry<Reservation>)
    requires Increasing(o)
    requires Below(o, e.priority)
    ensures Increasing(o + [e])
  {
  }

  lemma AppendBelow(o: seq<Entry<Reservation>>, e: Entry<Reservation>)
    requires Below(o, e.priority)
    ensures Below(o + [e], e.priority + 1)
  {
  }

  lemma TailAppendBelow(o: seq<Entry<Reservation>>, e: Entry<Reservation>)
    requires Below(o, e.priority) && |o| > 0
    ensures Below(o[1..] + [e], e.priority + 1)
  {
  }

  lemma AppendValues(o: seq<Entry<Reservation>>, e: Entry<Reservation>)
    ensures Values(o + [e]) == Values(o) + [e.value]
  {
  }

  lemma AppendMultiset(o: seq<Entry<Reservation>>, e: Entry<Reservation>)
    ensures multiset(o + [e]) == multiset(o) + multiset{e}
  {
  }

  lemma TailAppendIncreasing(o: seq<Entry<Reservation>>, e: Entry<Reservation>)
    requires Increasing(o) && |o| > 0
    requires Below(o, e.priority)
    ensures Increasing(o[1..] + [e])
  {
  }

  lemma TailAppendMultiset(o: seq<Entry<Reservation>>, e: Entry<Reservation>)
    requires |o| > 0
    ensures multiset(o[1..] + [e]) == multiset(o) - multiset{o[0]} + multiset{e}
  {
    assert o == [o[0]] + o[1..];
    assert multiset(o) == multiset{o[0]} + multiset(o[1..]);
  }

  lemma TailAppendValues(o: seq<Entry<Reservation>>, e: Entry<Reservation>)
    requires |o| > 0
    ensures Values(o[1..] + [e]) == Values(o)[1..] + [e.value]
  {
  }

  lemma DropNewestIncreasing(o: seq<Entry<Reservation>>)
    requires Increasing(o) && |o| > 0
    ensures Increasing(o[..|o| - 1])
  {
  }

  lemma DropNewestMultiset(o: seq<Entry<Reservation>>)
    requires |o| > 0
    ensures multiset(o[..|o| - 1]) + multiset{o[|o| - 1]} == multiset(o)
  {
    assert o == o[..|o| - 1] + [o[|o| - 1]];
  }

  lemma DropNewestValues(o: seq<Entry<Reservation>>)
    requires |o| > 0
    ensures Values(o[..|o| - 1]) == Values(o)[..|o| - 1]
  {
  }

  /** Removing position `k` and appending a newer entry keeps the list
      ascending and tracks the multiset and the reservations. */
  lemma RefreshOrder(o: seq<Entry<Reservation>>, k: nat, e: Entry<Reservation>)
    requires Increasing(o) && k < |o|
    requires Below(o, e.priority)
    ensures Increasing(o[..k] + o[k + 1..] + [e])
    ensures multiset(o[..k] + o[k + 1..] + [e]) == multiset(o) - multiset{o[k]} + multiset{e}
    ensures Values(o[..k] + o[k + 1..] + [e]) == Values(o)[..k] + Values(o)[k + 1..] + [e.value]
    ensures Below(o[..k] + o[k + 1..] + [e], e.priority + 1)
  {
    var w := o[..k] + o[k + 1..];
    RemoveAtMultiset(o, k);
    RemoveAtIncreasing(o, k);
    RemoveAtValues(o, k);
    RemoveAtBelow(o, k, w, e.priority);
    AppendIncreasing(w, e);
    AppendValues(w, e);
    AppendMultiset(w, e);
    AppendBelow(w, e);
  }

  /** Dropping the oldest entry and appending a newer one keeps the list
      ascending and tracks the multiset and the reservations. */
  lemma EvictOrder(o: seq<Entry<Reservation>>, e: Entry<Reservation>)
    requires Increasing(o) && |o| > 0
    requires Below(o, e.priority)
    ensures Increasing(o[1..] + [e])
    ensures multiset(o[1..] + [e]) == multiset(o) - multiset{o[0]} + multiset{e}
    ensures Values(o[1..] + [e]) == Values(o)[1..] + [e.value]
    ensures Below(o[1..] + [e], e.priority + 1)
  {
    TailAppendBelow(o, e);
    TailAppendIncreasing(o, e);
    TailAppendMultiset(o, e);
    TailAppendValues(o, e);
  }

  /** Dropping the newest entry keeps the list ascending and tracks the
      multiset and the reservations. */
  lemma DropNewestOrder(o: seq<Entry<Reservation>>)
    requires Increasing(o) && |o| > 0
    ensures Increasing(o[..|o| - 1])
    ensures multiset(o[..|o| - 1]) + multiset{o[|o| - 1]} == multiset(o)
    ensures Values(o[..|o| - 1]) == Values(o)[..|o| - 1]
  {
    DropNewestIncreasing(o);
    DropNewestMultiset(o);
    DropNewestValues(o);
  }

  /** Appending a newer entry keeps the list ascending and tracks the
      multiset and the reservations. */
  lemma AppendOrder(o: seq<Entry<Reservation>>, e: Entry<Reservation>)
    requires Increasing(o)
    requires Below(o, e.priority)
    ensures Increasing(o + [e])
    ensures Values(o + [e]) == Values(o) + [e.value]
    ensures multiset(o + [e]) == multiset(o) + multiset{e}
    ensures Below(o + [e], e.priority + 1)
  {
    AppendBelow(o, e);
    AppendIncreasing(o, e);
    AppendValues(o, e);
    AppendMultiset(o, e);
  }

  /** Refreshing the entry at the first position of its reservation moves
      that reservation to the newest end of the list. */
  lemma RefreshValues(o: seq<Entry<Reservation>>, k: nat, e: Entry<Reservation>)
    requires k < |o| && e.value in Values(o) && k == QueueSpec.IndexOf(Values(o), e.value)
    requires Values(o[..k] + o[k + 1..] + [e]) == Values(o)[..k] + Values(o)[k + 1..] + [e.value]
    ensures Values(o[..k] + o[k + 1..] + [e]) == QueueSpec.Without(Values(o), e.value) + [e.value]
  {
  }

  /** Taking the same element out of two equal bags leaves equal bags. */
  lemma MultisetCancel(a: multiset<Entry<Reservation>>, b: multiset<Entry<Reservation>>, x: Entry<Reservation>)
    requires a + multiset{x} == b + multiset{x}
    ensures a == b
  {
    assert a == (a + multiset{x}) - multiset{x};
  }

  /** Where two lists of distinct reservations agree, the position of a
      reservation in one is its position in the other. */
  lemma IndexOfDistinct(s: seq<Reservation>, k: nat)
    requires QueueSpec.Distinct(s) && k < |s|
    ensures QueueSpec.IndexOf(s, s[k]) == k
  {
    var i := QueueSpec.IndexOf(s, s[k]);
    assert s[i] == s[k];
  }

  class ReservationQueue {
    const pq: PriorityQueue<Reservation>
    var items: map<Reservation, bool>
    var clock: nat
    const limit: int
    /** The heap's entries by ascending priority. */
    ghost var Order: seq<Entry<Reservation>>

    /** The abstract view: queued reservations oldest first, and the keys
        of `items`. */
    ghost function Model(): QueueSpec.Model<Reservation>
      reads this
    {
      QueueSpec.Model(Values(Order), items.Keys)
    }

    ghost predicate Valid()
      reads this, pq
    {
      && pq.Valid()
      && multiset(Entries(pq.heap)) == multiset(Order)
      && Increasing(Order)
      && Below(Order, clock)
      && (forall r :: r in items ==> items[r])
      && QueueSpec.Inv(Model(), limit)
    }

    /** `New`: an empty queue without a limit. */
    constructor New()
      ensures Valid() && fresh(pq)
      ensures Model() == QueueSpec.Empty() && limit == -1
    {
      pq := new PriorityQueue();
      items := map[];
      clock := 0;
      limit := -1;
      Order := [];
    }

    /** `NewWithLimit`: an empty queue holding at most `limit` reservations
        (-1 for no limit). */
    constructor NewWithLimit(limit: int)
      requires QueueSpec.ValidLimit(limit)
      ensures Valid() && fresh(pq)
      ensures Model() == QueueSpec.Empty() && this.limit == limit
    {
      pq := new PriorityQueue();
      items := map[];
      clock := 0;
      this.limit := limit;
      Order := [];
    }

    /** A priority read: the time elapsed since the queue was created. */
    method Elapsed() returns (p: nat)
      modifies this`clock
      ensures p == old(clock) && clock == old(clock) + 1
    {
      p := clock;
      clock := clock + 1;
    }

    /** `update`: gives item `i` the reservation and a fresh priority, then
        restores the heap. */
    method Update(r: Reservation, i: nat)
      requires pq.Valid() && i < |pq.heap|
      modifies pq, this`clock
      ensures pq.Valid() && |pq.heap| == |old(pq.heap)| && clock == old(clock) + 1
      ensures multiset(Entries(pq.heap))
        == multiset(Entries(old(pq.heap))) - multiset{old(pq.heap[i]).Key()} + multiset{Entry(r, old(clock))}
    {
      var p := Elapsed();
      ghost var h := pq.heap;
      var x := pq.heap[i].(reservation := r, priority := p);
      OverwriteRepairable(h, i, x);
      EntriesOverwrite(h, i, x);
      pq.heap := pq.heap[i := x];
      pq.Fix(i);
    }

    /** `len`: the number of queued reservations. */
    method Len() returns (n: int)
      requires Valid()
      ensures n == |Model().stack|
    {
      n := pq.Len();
      assert |multiset(Entries(pq.heap))| == |multiset(Order)|;
    }

    /** Every reservation in the heap is a key of `items`. */
    lemma HeapInItems()
      requires Valid()
      ensures forall j :: 0 <= j < |pq.heap| ==> pq.heap[j].reservation in items
    {
      forall j | 0 <= j < |pq.heap| ensures pq.heap[j].reservation in items {
        HeapEntryInList(pq.heap, Order, j);
        var k :| 0 <= k < |Order| && Order[k] == pq.heap[j].Key();
        assert Values(Order)[k] == pq.heap[j].reservation;
        assert Values(Order)[k] in Model().stack;
      }
    }

    /** `Push`: refreshes a reservation that is already queued, replaces the
        lowest item when the queue is full, and adds a new item otherwise;
        the reservation is then recorded in `items`. */
    method Push(r: Reservation)
      requires Valid() && QueueSpec.CanPush(Model(), r)
      modifies this, pq
      ensures Valid() && Model() == QueueSpec.Push(old(Model()), r, limit)
    {
      ghost var m := Model();
      ghost var want := QueueSpec.Push(m, r, limit);
      assert |multiset(Entries(pq.heap))| == |multiset(Order)|;
      if r in items {
        PushRefresh(r);
        assert Values(Order) == want.stack;
      } else if limit != -1 && |pq.heap| == limit {
        var _ := PushEvict(r);
        assert Values(Order) == want.stack;
      } else {
        PushAppend(r);
        assert Values(Order) == want.stack;
      }
      items := items[r := true];
      assert items.Keys == want.keys;
      assert Model() == want;
      QueueSpec.PushKeepsInv(m, r, limit);
    }

    /** `Push` with the eviction branch corrected: the replaced reservation
        is also deleted from `items`, so it can be pushed again later. */
    method PushCorrected(r: Reservation)
      requires Valid() && QueueSpec.CanPush(Model(), r)
      modifies this, pq
      ensures Valid() && Model() == QueueSpec.PushFixed(old(Model()), r, limit)
    {
      ghost var m := Model();
      ghost var want := QueueSpec.PushFixed(m, r, limit);
      assert |multiset(Entries(pq.heap))| == |multiset(Order)|;
      if r in items {
        PushRefresh(r);
        assert Values(Order) == want.stack;
      } else if limit != -1 && |pq.heap| == limit {
        var evicted := PushEvict(r);
        assert Values(Order) == want.stack;
        items := items - {evicted};
      } else {
        PushAppend(r);
        assert Values(Order) == want.stack;
      }
      items := items[r := true];
      assert items.Keys == want.keys;
      assert Model() == want;
      QueueSpec.PushFixedKeepsInv(m, r, limit);
    }

    /** The appending branch of `Push`: a new item of the newest priority. */
    method PushAppend(r: Reservation)
      requires Valid()
      modifies this`Order, this`clock, pq
      ensures pq.Valid() && multiset(Entries(pq.heap)) == multiset(Order) && Increasing(Order)
      ensures Below(Order, clock)
      ensures Values(Order) == Values(old(Order)) + [r]
    {
      ghost var o := Order;
      var p := Elapsed();
      ghost var next := o + [Entry(r, p)];
      AppendOrder(o, Entry(r, p));
      pq.HeapPush(Item(r, p, 0));
      Order := next;
    }

    /** Where `Index` finds a queued reservation: the heap position of its
        entry in the ascending list. */
    method FindQueued(r: Reservation) returns (idx: nat, ghost k: nat)
      requires pq.Valid() && multiset(Entries(pq.heap)) == multiset(Order)
      requires QueueSpec.Distinct(Values(Order)) && r in Values(Order)
      ensures idx < |pq.heap| && k < |Order|
      ensures k == QueueSpec.IndexOf(Values(Order), r)
      ensures pq.heap[idx].Key() == Order[k]
    {
      k := QueueSpec.IndexOf(Values(Order), r);
      EntryInHeap(pq.heap, Order, k);
      var i := pq.Index(r);
      idx := i;
      HeapEntryInList(pq.heap, Order, idx);
      ghost var k' :| 0 <= k' < |Order| && Order[k'] == pq.heap[idx].Key();
      assert Values(Order)[k'] == r;
      IndexOfDistinct(Values(Order), k');
    }

    /** The refreshing branch of `Push`. */
    method PushRefresh(r: Reservation)
      requires pq.Valid() && multiset(Entries(pq.heap)) == multiset(Order) && Increasing(Order)
      requires Below(Order, clock) && QueueSpec.Distinct(Values(Order)) && r in Values(Order)
      modifies this`Order, this`clock, pq
      ensures pq.Valid() && multiset(Entries(pq.heap)) == multiset(Order) && Increasing(Order)
      ensures Below(Order, clock)
      ensures Values(Order) == QueueSpec.Without(Values(old(Order)), r) + [r]
    {
      ghost var o := Order;
      var idx, k := FindQueued(r);
      ghost var e := Entry(r, clock);
      ghost var next := o[..k] + o[k + 1..] + [e];
      RefreshOrder(o, k, e);
      RefreshValues(o, k, e);
      Update(r, idx);
      Order := next;
    }

    /** The evicting branch of `Push`: the queue is full and `r` is new. */
    method PushEvict(r: Reservation) returns (evicted: Reservation)
      requires Valid() && limit != -1 && |pq.heap| == limit
      modifies this`Order, this`clock, pq
      ensures pq.Valid() && multiset(Entries(pq.heap)) == multiset(Order) && Increasing(Order)
      ensures Below(Order, clock)
      ensures |old(Model().stack)| == limit
      ensures Values(Order) == Values(old(Order))[1..] + [r]
      ensures evicted == old(Model().stack)[0]
    {
      assert |multiset(Entries(pq.heap))| == |multiset(Order)|;
      var idx := pq.Lowest();
      LowestIsOldest(pq.heap, Order, idx);
      evicted := pq.heap[idx].reservation;
      ghost var o := Order;
      ghost var e := Entry(r, clock);
      ghost var next := o[1..] + [e];
      EvictOrder(o, e);
      Update(r, idx);
      Order := next;
    }

    /** `pop`: nothing when the heap is empty; otherwise removes the item of
        highest priority and forgets its reservation in `items`. */
    method Pop() returns (r: Option<Reservation>)
      requires Valid()
      modifies this, pq
      ensures Valid() && (r, Model()) == QueueSpec.Pop(old(Model()))
    {
      ghost var m := Model();
      if pq.Len() > 0 {
        assert |multiset(Entries(pq.heap))| == |multiset(Order)|;
        var x := pq.HeapPop();
        assert x.Key() == old(pq.heap)[0].Key();
        assert x.Key() in multiset(Order) by {
          assert Entries(old(pq.heap))[0] == x.Key();
        }
        HighestIsNewest(old(pq.heap), Order, x.Key());
        DropNewestOrder(Order);
        MultisetCancel(multiset(Entries(pq.heap)), multiset(Order[..|Order| - 1]), x.Key());
        Order := Order[..|Order| - 1];
        items := items - {x.reservation};
        r := Some(x.reservation);
        QueueSpec.PopKeepsInv(m, limit);
      } else {
        assert |multiset(Entries(pq.heap))| == |multiset(Order)|;
        r := None;
      }
    }

    /** `Take` once the queue holds something: the newest reservation. */
    method Take() returns (r: Reservation)
      requires Valid() && |Model().stack| > 0
      modifies this, pq
      ensures Valid() && (Some(r), Model()) == QueueSpec.Pop(old(Model()))
    {
      var x := Pop();
      r := x.value;
    }
  }
}
