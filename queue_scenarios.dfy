/** The scenarios of the queue's own test suite, replayed against the class:
    each method builds a fresh queue, performs the test's calls and
    promises the values the test compares against. */
module QueueScenarios {
  import opened Wrappers
  import opened Config
  import opened Queue
  import QueueSpec

  /** The reservation the tests build for a given date. */
  function Sample(date: string): (r: Reservation)
    ensures r.date == date && r.term == "13:20"
    ensures r.entity == Entity("name", "short", "10", "100")
    ensures r.userData == [Row("hello", "world")]
  {
    Reservation(Entity("name", "short", "10", "100"), date, "13:20", [Row("hello", "world")])
  }

  /** Pushing `r` into an empty queue, or into one that holds just `r`,
      leaves just `r`. */
  lemma PushSingle(m: QueueSpec.Model<Reservation>, r: Reservation, limit: int)
    requires QueueSpec.ValidLimit(limit)
    requires m == QueueSpec.Empty() || m == QueueSpec.Model([r], {r})
    ensures QueueSpec.CanPush(m, r)
    ensures QueueSpec.Push(m, r, limit) == QueueSpec.Model([r], {r})
  {
    if m != QueueSpec.Empty() {
      assert QueueSpec.Without([r], r) == [];
    }
  }

  /** Pushing one reservation three times queues it once; it can be popped,
      pushed again and popped again. */
  method Uniqueness() returns (len1: int, out1: Option<Reservation>, len2: int,
                               len3: int, out2: Option<Reservation>, len4: int)
    ensures len1 == 1 && out1 == Some(Sample("2017-07-23")) && len2 == 0
    ensures len3 == 1 && out2 == Some(Sample("2017-07-23")) && len4 == 0
  {
    var q := new ReservationQueue.New();
    var r := Sample("2017-07-23");
    var i := 0;
    while i < 3
      invariant 0 <= i <= 3 && q.Valid() && q.limit == -1
      invariant q.Model() == if i == 0 then QueueSpec.Empty() else QueueSpec.Model([r], {r})
    {
      PushSingle(q.Model(), r, q.limit);
      q.Push(r);
      i := i + 1;
    }
    len1 := q.Len();
    out1 := q.Pop();
    len2 := q.Len();
    assert q.Model() == QueueSpec.Empty();
    PushSingle(q.Model(), r, q.limit);
    q.Push(r);
    len3 := q.Len();
    out2 := q.Pop();
    len4 := q.Len();
  }

  /** Pushes new, distinct reservations one after another, as the tests'
      loops do: the queue then holds the newest `limit` of everything
      pushed, oldest first. */
  method PushEach(q: ReservationQueue, xs: seq<Reservation>)
    requires q.Valid() && QueueSpec.Distinct(xs)
    requires forall x :: x in xs ==> x !in q.Model().keys
    modifies q, q.pq
    ensures q.Valid()
    ensures q.Model().stack == QueueSpec.Newest(old(q.Model().stack) + xs, q.limit)
  {
    ghost var s0 := q.Model().stack;
    var i := 0;
    while i < |xs|
      invariant 0 <= i <= |xs| && q.Valid()
      invariant q.Model().stack == QueueSpec.Newest(s0 + xs[..i], q.limit)
      invariant forall x :: x in xs[i..] ==> x !in q.Model().keys
    {
      QueueSpec.PushNextKeepsNewest(q.Model(), s0, xs, i, q.limit);
      q.Push(xs[i]);
      i := i + 1;
    }
    assert xs[..i] == xs;
  }

  /** Pops a queue holding `x`, `y`, `z` (oldest first) three times:
      newest first, leaving it empty with `x` forgotten. */
  method PopThree(q: ReservationQueue, x: Reservation, y: Reservation, z: Reservation)
    returns (out1: Option<Reservation>, out2: Option<Reservation>, out3: Option<Reservation>)
    requires q.Valid() && q.Model().stack == [x, y, z]
    modifies q, q.pq
    ensures q.Valid() && q.Model().stack == [] && x !in q.Model().keys
    ensures out1 == Some(z) && out2 == Some(y) && out3 == Some(x)
  {
    out1 := q.Pop();
    assert q.Model().stack == [x, y];
    out2 := q.Pop();
    assert q.Model().stack == [x];
    out3 := q.Pop();
  }

  /** Three reservations come out newest first. */
  method Ordering() returns (len1: int, out1: Option<Reservation>, out2: Option<Reservation>,
                             out3: Option<Reservation>, len2: int)
    ensures len1 == 3 && len2 == 0
    ensures out1 == Some(Sample("2017-07-22"))
    ensures out2 == Some(Sample("2017-07-21"))
    ensures out3 == Some(Sample("2017-07-20"))
  {
    var q := new ReservationQueue.New();
    var a, b, c := Sample("2017-07-20"), Sample("2017-07-21"), Sample("2017-07-22");
    assert a.date[9] == '0' && b.date[9] == '1' && c.date[9] == '2';
    PushEach(q, [a, b, c]);
    assert q.Model().stack == [a, b, c];
    len1 := q.Len();
    out1, out2, out3 := PopThree(q, a, b, c);
    len2 := q.Len();
  }

  /** With a limit of three, five pushes keep the newest three; popping
      them empties the queue, and a popped reservation may be pushed
      again. */
  method Limit() returns (len1: int, out1: Option<Reservation>, out2: Option<Reservation>,
                          out3: Option<Reservation>, out4: Option<Reservation>, len2: int,
                          len3: int, out5: Option<Reservation>, len4: int)
    ensures len1 == 3
    ensures out1 == Some(Sample("2017-07-24"))
    ensures out2 == Some(Sample("2017-07-23"))
    ensures out3 == Some(Sample("2017-07-22"))
    ensures out4 == None && len2 == 0
    ensures len3 == 1 && out5 == Some(Sample("2017-07-22")) && len4 == 0
  {
    var q := new ReservationQueue.NewWithLimit(3);
    var a, b, c := Sample("2017-07-20"), Sample("2017-07-21"), Sample("2017-07-22");
    var d, e := Sample("2017-07-23"), Sample("2017-07-24");
    var xs := [a, b, c, d, e];
    assert QueueSpec.Distinct(xs) by {
      forall i, j | 0 <= i < j < 5 ensures xs[i] != xs[j] {
        assert xs[i].date[9] != xs[j].date[9];
      }
    }
    PushEach(q, xs);
    assert q.Model().stack == [c, d, e];
    len1 := q.Len();
    out1, out2, out3 := PopThree(q, c, d, e);
    out4 := q.Pop();
    len2 := q.Len();
    q.Push(c);
    len3 := q.Len();
    out5 := q.Pop();
    len4 := q.Len();
  }

  /** With the corrected push and a limit of one, a reservation evicted by
      a newer one can be pushed again, and replaces it. */
  method EvictThenReturn() returns (len1: int, out1: Option<Reservation>, len2: int)
    ensures len1 == 1 && out1 == Some(Sample("2017-07-20")) && len2 == 0
  {
    var q := new ReservationQueue.NewWithLimit(1);
    var a, b := Sample("2017-07-20"), Sample("2017-07-21");
    assert a.date[9] != b.date[9];
    q.PushCorrected(a);
    q.PushCorrected(b);
    QueueSpec.EvictedCanReturn(a, b);
    q.PushCorrected(a);
    len1 := q.Len();
    out1 := q.Pop();
    len2 := q.Len();
  }
}
