/** The abstract behaviour of the reservation queue. Because every push
    reads a strictly later priority than any item already queued, the heap
    can be viewed as a stack ordered oldest to newest: `Pop` takes the
    newest, eviction at the limit drops the oldest, and re-pushing a queued
    reservation moves it to the top. Beside the stack sits the key set of
    the side map `items`, which eviction does not clean up. */
module QueueSpec {
  import opened Wrappers

  /** `stack` holds the queued reservations, oldest first; `keys` the
      reservations recorded in `items`. */
  datatype Model<T> = Model(stack: seq<T>, keys: set<T>)

  /** The queue the constructors build. */
  function Empty<T(==)>(): (m: Model<T>)
    ensures |m.stack| == 0 && m.keys == {}
  {
    Model([], {})
  }

  /** A limit the queue can work with: -1 for none, or a positive bound.
      With a bound of 0 the first push would look for the lowest item of an
      empty heap. */
  predicate ValidLimit(limit: int) {
    limit == -1 || limit >= 1
  }

  predicate Distinct<T(==)>(s: seq<T>) {
    forall i, j :: 0 <= i < j < |s| ==> s[i] != s[j]
  }

  /** What every reachable queue satisfies: no reservation is queued twice,
      every queued reservation is recorded, and the bound is respected. */
  predicate Inv<T(==)>(m: Model<T>, limit: int) {
    && ValidLimit(limit)
    && Distinct(m.stack)
    && (forall x :: x in m.stack ==> x in m.keys)
    && (limit == -1 || |m.stack| <= limit)
  }

  /** A push the queue can carry out: a recorded reservation must still be
      queued, otherwise its lookup finds no position. */
  predicate CanPush<T(==)>(m: Model<T>, x: T) {
    x in m.keys ==> x in m.stack
  }

  /** Position of the first occurrence of `x` in `s`. */
  function IndexOf<T(==)>(s: seq<T>, x: T): (k: nat)
    requires x in s
    ensures k < |s| && s[k] == x
    ensures forall j :: 0 <= j < k ==> s[j] != x
  {
    if s[0] == x then 0 else 1 + IndexOf(s[1..], x)
  }

  /** `s` with its first occurrence of `x` taken out. */
  function Without<T(==)>(s: seq<T>, x: T): (r: seq<T>)
    requires x in s
  {
    s[..IndexOf(s, x)] + s[IndexOf(s, x) + 1..]
  }

  /** One `Push`: a recorded reservation is refreshed to the newest
      position; a new one at the limit replaces the oldest; any other new
      one is added on top. The reservation is recorded in every case. */
  function Push<T(==)>(m: Model<T>, x: T, limit: int): (r: Model<T>)
    requires ValidLimit(limit) && CanPush(m, x)
    ensures r.keys == m.keys + {x}
    ensures |r.stack| > 0 && r.stack[|r.stack| - 1] == x
  {
    if x in m.keys then
      Model(Without(m.stack, x) + [x], m.keys)
    else if limit != -1 && |m.stack| == limit then
      Model(m.stack[1..] + [x], m.keys + {x})
    else
      Model(m.stack + [x], m.keys + {x})
  }

  /** One `Pop`: nothing from an empty queue; otherwise the newest
      reservation, which is also forgotten by `items`. */
  function Pop<T(==)>(m: Model<T>): (r: (Option<T>, Model<T>))
    ensures r.0.None? <==> |m.stack| == 0
    ensures r.0.None? ==> r.1 == m
    ensures r.0.Some? ==>
      r.0.value == m.stack[|m.stack| - 1] && |r.1.stack| == |m.stack| - 1 && r.1.keys == m.keys - {r.0.value}
  {
    if |m.stack| == 0 then (None, m)
    else (Some(m.stack[|m.stack| - 1]), Model(m.stack[..|m.stack| - 1], m.keys - {m.stack[|m.stack| - 1]}))
  }

  /** The newest `limit` elements of `s` (all of them when there is no
      limit). */
  function Newest<T(==)>(s: seq<T>, limit: int): (r: seq<T>)
    requires ValidLimit(limit)
    ensures limit == -1 || |s| <= limit ==> r == s
    ensures limit != -1 && |s| > limit ==> r == s[|s| - limit..]
  {
    if limit == -1 || |s| <= limit then s else s[|s| - limit..]
  }

  /** Pushes the reservations one after another. Each must be new. */
  function PushAll<T(==)>(m: Model<T>, xs: seq<T>, limit: int): (r: Model<T>)
    requires ValidLimit(limit) && Distinct(xs)
    requires forall x :: x in xs ==> x !in m.keys
    decreases |xs|
  {
    if xs == [] then m
    else PushAll(Push(m, xs[0], limit), xs[1..], limit)
  }

  /** Pops until empty, collecting the reservations in the order they
      come out. */
  function PopAll<T(==)>(m: Model<T>): (r: seq<T>)
    decreases |m.stack|
  {
    match Pop(m)
    case (None, _) => []
    case (Some(x), rest) => [x] + PopAll(rest)
  }

  // ----- Structure of the helpers -----

  lemma WithoutProperties<T>(s: seq<T>, x: T)
    requires x in s && Distinct(s)
    ensures |Without(s, x)| == |s| - 1
    ensures Distinct(Without(s, x))
    ensures x !in Without(s, x)
    ensures forall y :: y != x ==> (y in Without(s, x) <==> y in s)
  {
    var k := IndexOf(s, x);
    var r := Without(s, x);
    assert forall i :: 0 <= i < |r| ==> r[i] == (if i < k then s[i] else s[i + 1]);
    forall y | y != x && y in s ensures y in r {
      var i :| 0 <= i < |s| && s[i] == y;
      assert i != k;
      if i < k { assert r[i] == y; } else { assert r[i - 1] == y; }
    }
  }

  // ----- Properties of a single push or pop -----

  /** Every push and pop keeps the queue invariant. */
  lemma PushKeepsInv<T>(m: Model<T>, x: T, limit: int)
    requires Inv(m, limit) && CanPush(m, x)
    ensures Inv(Push(m, x, limit), limit)
  {
    var r := Push(m, x, limit);
    if x in m.keys {
      WithoutProperties(m.stack, x);
      var w := Without(m.stack, x);
      assert r.stack == w + [x];
      forall i, j | 0 <= i < j < |r.stack| ensures r.stack[i] != r.stack[j] {
        if j == |w| { assert r.stack[i] == w[i]; assert w[i] in w; }
        else { assert r.stack[i] == w[i] && r.stack[j] == w[j]; }
      }
    } else if limit != -1 && |m.stack| == limit {
      var t := m.stack[1..];
      forall i, j | 0 <= i < j < |r.stack| ensures r.stack[i] != r.stack[j] {
        assert r.stack[i] == m.stack[i + 1];
        if j < |t| { assert r.stack[j] == m.stack[j + 1]; }
        else { assert m.stack[i + 1] in m.stack; }
      }
      forall y | y in r.stack ensures y in r.keys {
        if y != x {
          var i :| 0 <= i < |r.stack| && r.stack[i] == y;
          assert r.stack[i] == m.stack[i + 1];
          assert m.stack[i + 1] in m.stack;
        }
      }
    } else {
      forall i, j | 0 <= i < j < |r.stack| ensures r.stack[i] != r.stack[j] {
        if j == |m.stack| { assert r.stack[i] == m.stack[i]; assert m.stack[i] in m.stack; }
      }
    }
  }

  lemma PopKeepsInv<T>(m: Model<T>, limit: int)
    requires Inv(m, limit)
    ensures Inv(Pop(m).1, limit)
  {
    if |m.stack| > 0 {
      var n := |m.stack| - 1;
      var r := Pop(m).1;
      forall y | y in r.stack ensures y in r.keys {
        var i :| 0 <= i < |r.stack| && r.stack[i] == y;
        assert r.stack[i] == m.stack[i] && i < n;
        assert m.stack[i] in m.stack;
      }
    }
  }

  /** Pushing a reservation that is already recorded (and queued) leaves
      the number of queued reservations unchanged. */
  lemma PushExistingKeepsLength<T>(m: Model<T>, x: T, limit: int)
    requires Inv(m, limit) && x in m.keys && x in m.stack
    ensures |Push(m, x, limit).stack| == |m.stack|
    ensures multiset(Push(m, x, limit).stack) == multiset(m.stack)
  {
    WithoutProperties(m.stack, x);
    var k := IndexOf(m.stack, x);
    assert m.stack == m.stack[..k] + [x] + m.stack[k + 1..];
  }

  /** Pushing a new reservation below the limit adds exactly one; at the
      limit the count stays at the limit. */
  lemma PushNewLength<T>(m: Model<T>, x: T, limit: int)
    requires Inv(m, limit) && x !in m.keys
    ensures limit == -1 || |m.stack| < limit ==> |Push(m, x, limit).stack| == |m.stack| + 1
    ensures limit != -1 && |m.stack| == limit ==> |Push(m, x, limit).stack| == limit
  {
  }

  /** The newest pushed reservation is the next one out. */
  lemma PushedIsNext<T>(m: Model<T>, x: T, limit: int)
    requires ValidLimit(limit) && CanPush(m, x)
    ensures Pop(Push(m, x, limit)).0 == Some(x)
  {
  }

  /** Below the limit, pushing a new reservation and popping gives back
      that reservation and the queue as it was. */
  lemma PushPopRoundTrip<T>(m: Model<T>, x: T, limit: int)
    requires Inv(m, limit) && x !in m.keys && (limit == -1 || |m.stack| < limit)
    ensures Pop(Push(m, x, limit)) == (Some(x), m)
  {
    var r := Push(m, x, limit);
    assert r.stack[..|r.stack| - 1] == m.stack;
    assert r.keys - {x} == m.keys;
  }

  /** At the limit, a new reservation takes the place of the oldest one,
      which stays recorded in the key set. */
  lemma PushAtLimitEvictsOldest<T>(m: Model<T>, x: T, limit: int)
    requires Inv(m, limit) && x !in m.keys && limit != -1 && |m.stack| == limit
    ensures m.stack[0] !in Push(m, x, limit).stack
    ensures m.stack[0] in Push(m, x, limit).keys
    ensures forall i :: 0 < i < |m.stack| ==> m.stack[i] in Push(m, x, limit).stack
  {
    var r := Push(m, x, limit);
    forall i | 0 < i < |m.stack| ensures m.stack[i] in r.stack {
      assert r.stack[i - 1] == m.stack[i];
    }
    forall j | 0 <= j < |r.stack| ensures r.stack[j] != m.stack[0] {
      if j < |r.stack| - 1 {
        assert r.stack[j] == m.stack[j + 1];
      } else {
        assert m.stack[0] in m.stack;
      }
    }
  }

  /** Pushing the same reservation twice in a row has the effect of pushing
      it once. */
  lemma PushIdempotent<T>(m: Model<T>, x: T, limit: int)
    requires Inv(m, limit) && CanPush(m, x)
    ensures Push(Push(m, x, limit), x, limit) == Push(m, x, limit)
  {
    var r := Push(m, x, limit);
    PushKeepsInv(m, x, limit);
    var s := r.stack;
    assert s[|s| - 1] == x;
    var k := IndexOf(s, x);
    assert k == |s| - 1 by {
      assert s[k] == s[|s| - 1];
    }
    assert Without(s, x) + [x] == s;
  }

  /** Pushing one reservation three times into an empty queue leaves one
      queued. */
  lemma PushThriceLeavesOne<T>(x: T, limit: int)
    requires ValidLimit(limit)
    ensures Push(Push(Push(Empty(), x, limit), x, limit), x, limit).stack == [x]
  {
    var m1 := Push(Empty(), x, limit);
    assert m1.stack == [x];
    PushKeepsInv(Empty(), x, limit);
    PushIdempotent(m1, x, limit);
    PushKeepsInv(m1, x, limit);
    PushIdempotent(m1, x, limit);
  }

  // ----- Properties of sequences of pushes and pops -----

  /** Taking the newest elements twice is taking them once. */
  lemma NewestOfNewest<T>(s: seq<T>, t: seq<T>, limit: int)
    requires ValidLimit(limit)
    ensures Newest(Newest(s, limit) + t, limit) == Newest(s + t, limit)
  {
    var a := Newest(Newest(s, limit) + t, limit);
    var b := Newest(s + t, limit);
    if limit != -1 && |s| > limit {
      assert |a| == |b|;
      forall i | 0 <= i < |a| ensures a[i] == b[i] {
        var u := Newest(s, limit) + t;
        assert a[i] == u[|u| - |a| + i];
        assert b[i] == (s + t)[|s + t| - |b| + i];
      }
    } else {
      assert Newest(s, limit) == s;
    }
  }

  /** One push of a new reservation keeps the newest `limit` of the queue
      followed by it. */
  lemma PushNewKeepsNewest<T>(m: Model<T>, x: T, limit: int)
    requires Inv(m, limit) && x !in m.keys
    ensures Push(m, x, limit).stack == Newest(m.stack + [x], limit)
  {
    if limit != -1 && |m.stack| == limit {
      assert m.stack[1..] + [x] == (m.stack + [x])[1..];
    }
  }

  /** The remaining pushes of a run are still new after its first push. */
  lemma TailFresh<T>(m: Model<T>, xs: seq<T>, limit: int)
    requires ValidLimit(limit) && Distinct(xs) && |xs| > 0
    requires forall x :: x in xs ==> x !in m.keys
    ensures Distinct(xs[1..])
    ensures forall x :: x in xs[1..] ==> x !in Push(m, xs[0], limit).keys
  {
    var rest := xs[1..];
    forall x | x in rest ensures x !in Push(m, xs[0], limit).keys {
      var i :| 0 <= i < |rest| && rest[i] == x;
      assert xs[i + 1] == x;
      assert xs[0] != xs[i + 1];
    }
  }

  /** In a run of distinct pushes, the pushes after `xs[i]` stay new once
      `xs[i]` is pushed. */
  lemma RestStaysFresh<T>(m: Model<T>, xs: seq<T>, i: nat, limit: int)
    requires ValidLimit(limit) && Distinct(xs) && i < |xs|
    requires forall x :: x in xs[i..] ==> x !in m.keys
    ensures CanPush(m, xs[i])
    ensures forall x :: x in xs[i + 1..] ==> x !in Push(m, xs[i], limit).keys
  {
    assert xs[i] in xs[i..];
    forall x | x in xs[i + 1..] ensures x !in m.keys + {xs[i]} {
      var k :| 0 <= k < |xs[i + 1..]| && xs[i + 1..][k] == x;
      assert xs[i + 1 + k] == x && x in xs[i..];
    }
  }

  /** Pushing the next new element extends the newest elements by it. */
  lemma NextIsNewest<T>(m: Model<T>, done: seq<T>, x: T, limit: int)
    requires Inv(m, limit) && x !in m.keys
    requires m.stack == Newest(done, limit)
    ensures Push(m, x, limit).stack == Newest(done + [x], limit)
  {
    PushNewKeepsNewest(m, x, limit);
    NewestOfNewest(done, [x], limit);
  }

  /** One step of a run of new, distinct pushes, `xs[..i]` done so far
      after `s0`: pushing `xs[i]` extends the newest elements by it, and
      the pushes still to come stay new. */
  lemma PushNextKeepsNewest<T>(m: Model<T>, s0: seq<T>, xs: seq<T>, i: nat, limit: int)
    requires Inv(m, limit) && Distinct(xs) && i < |xs|
    requires m.stack == Newest(s0 + xs[..i], limit)
    requires forall x :: x in xs[i..] ==> x !in m.keys
    ensures CanPush(m, xs[i])
    ensures Push(m, xs[i], limit).stack == Newest(s0 + xs[..i + 1], limit)
    ensures forall x :: x in xs[i + 1..] ==> x !in Push(m, xs[i], limit).keys
  {
    RestStaysFresh(m, xs, i, limit);
    NextIsNewest(m, s0 + xs[..i], xs[i], limit);
    assert s0 + xs[..i] + [xs[i]] == s0 + xs[..i + 1];
  }

  lemma AppendFirst<T>(a: seq<T>, xs: seq<T>)
    requires |xs| > 0
    ensures a + [xs[0]] + xs[1..] == a + xs
  {
    assert [xs[0]] + xs[1..] == xs;
  }

  lemma AppendToEmpty<T>(xs: seq<T>)
    ensures Empty<T>().stack + xs == xs
  {
  }

  /** After a run of new, distinct pushes, the queue holds the newest
      `limit` of everything pushed, oldest first. */
  lemma {:induction false} PushAllKeepsNewest<T>(m: Model<T>, xs: seq<T>, limit: int)
    requires Inv(m, limit) && Distinct(xs)
    requires forall x :: x in xs ==> x !in m.keys
    ensures PushAll(m, xs, limit).stack == Newest(m.stack + xs, limit)
    ensures Inv(PushAll(m, xs, limit), limit)
    decreases |xs|
  {
    if xs == [] {
      assert m.stack + xs == m.stack;
    } else {
      var m1 := Push(m, xs[0], limit);
      var rest := xs[1..];
      assert PushAll(m, xs, limit) == PushAll(m1, rest, limit);
      PushKeepsInv(m, xs[0], limit);
      PushNewKeepsNewest(m, xs[0], limit);
      TailFresh(m, xs, limit);
      PushAllKeepsNewest(m1, rest, limit);
      assert PushAll(m1, rest, limit).stack == Newest(Newest(m.stack + [xs[0]], limit) + rest, limit);
      NewestOfNewest(m.stack + [xs[0]], rest, limit);
      AppendFirst(m.stack, xs);
    }
  }

  /** Draining a queue hands out its reservations newest first. */
  lemma {:induction false} PopAllNewestFirst<T>(m: Model<T>)
    ensures |PopAll(m)| == |m.stack|
    ensures forall i :: 0 <= i < |m.stack| ==> PopAll(m)[i] == m.stack[|m.stack| - 1 - i]
    decreases |m.stack|
  {
    if |m.stack| > 0 {
      var rest := Pop(m).1;
      PopAllNewestFirst(rest);
      assert PopAll(m) == [m.stack[|m.stack| - 1]] + PopAll(rest);
      forall i | 0 < i < |m.stack| ensures PopAll(m)[i] == m.stack[|m.stack| - 1 - i] {
        assert PopAll(m)[i] == PopAll(rest)[i - 1];
        assert rest.stack[|rest.stack| - 1 - (i - 1)] == m.stack[|m.stack| - 1 - i];
      }
    }
  }

  /** Distinct pushes into an empty queue leave the newest `limit` of them. */
  lemma PushAllFromEmpty<T>(xs: seq<T>, limit: int)
    requires ValidLimit(limit) && Distinct(xs)
    ensures PushAll(Empty(), xs, limit).stack == Newest(xs, limit)
  {
    PushAllKeepsNewest(Empty(), xs, limit);
    AppendToEmpty(xs);
  }

  /** The newest elements of `xs`, read from the newest down, are the
      last elements of `xs` read backwards. */
  lemma ReversedNewest<T>(out: seq<T>, xs: seq<T>, limit: int)
    requires ValidLimit(limit)
    requires |out| == |Newest(xs, limit)|
    requires forall i :: 0 <= i < |out| ==> out[i] == Newest(xs, limit)[|out| - 1 - i]
    ensures forall i :: 0 <= i < |out| ==> out[i] == xs[|xs| - 1 - i]
  {
    var st := Newest(xs, limit);
    forall i | 0 <= i < |out| ensures out[i] == xs[|xs| - 1 - i] {
      assert out[i] == st[|st| - 1 - i];
    }
  }

  /** Pushing distinct reservations into an empty queue and draining it
      returns the newest `limit` of them in reverse push order. */
  lemma PushThenDrain<T>(xs: seq<T>, limit: int)
    requires ValidLimit(limit) && Distinct(xs)
    ensures var out := PopAll(PushAll(Empty(), xs, limit));
      && |out| == |Newest(xs, limit)|
      && forall i :: 0 <= i < |out| ==> out[i] == xs[|xs| - 1 - i]
  {
    var q := PushAll(Empty(), xs, limit);
    PushAllFromEmpty(xs, limit);
    PopAllNewestFirst(q);
    ReversedNewest(PopAll(q), xs, limit);
  }

  /** With a limit of 1, pushing `a` and then `b` evicts `a` but leaves it
      recorded, so pushing `a` again is not a push the queue can carry
      out. */
  lemma StaleKeyAfterEviction<T>(a: T, b: T)
    requires a != b
    ensures Push(Push(Empty(), a, 1), b, 1) == Model([b], {a, b})
    ensures !CanPush(Push(Push(Empty(), a, 1), b, 1), a)
  {
    var m1 := Push(Empty(), a, 1);
    assert m1 == Model([a], {a});
    assert m1.stack[1..] + [b] == [b];
  }

  // ----- Eviction that also forgets the evicted reservation -----

  /** `Push` with the eviction branch as evidently intended: the replaced
      reservation is also deleted from `items`, so it may be pushed again
      later. The other branches are those of `Push`. */
  function PushFixed<T(==)>(m: Model<T>, x: T, limit: int): (r: Model<T>)
    requires ValidLimit(limit) && CanPush(m, x)
    ensures r.stack == Push(m, x, limit).stack
    ensures x in r.keys
  {
    if x !in m.keys && limit != -1 && |m.stack| == limit then
      Model(m.stack[1..] + [x], m.keys - {m.stack[0]} + {x})
    else
      Push(m, x, limit)
  }

  /** Every recorded reservation is queued; with `Inv` the key set is
      then exactly the set of queued reservations. */
  predicate Tidy<T(==)>(m: Model<T>) {
    forall x :: x in m.keys ==> x in m.stack
  }

  /** In a tidy queue every push can be carried out. */
  lemma TidyCanPush<T>(m: Model<T>, x: T)
    requires Tidy(m)
    ensures CanPush(m, x)
  {
  }

  /** The corrected push keeps the queue invariant. */
  lemma PushFixedKeepsInv<T>(m: Model<T>, x: T, limit: int)
    requires Inv(m, limit) && CanPush(m, x)
    ensures Inv(PushFixed(m, x, limit), limit)
  {
    var r := PushFixed(m, x, limit);
    PushKeepsInv(m, x, limit);
    if x !in m.keys && limit != -1 && |m.stack| == limit {
      assert r.stack == m.stack[1..] + [x];
      forall y | y in r.stack ensures y in r.keys {
        if y != x {
          var i :| 0 <= i < |r.stack| && r.stack[i] == y;
          assert y == m.stack[i + 1] && m.stack[i + 1] in m.stack;
          assert y != m.stack[0];
        }
      }
    }
  }

  /** The corrected push keeps the invariant and keeps the queue tidy. */
  lemma PushFixedKeepsTidy<T>(m: Model<T>, x: T, limit: int)
    requires Inv(m, limit) && Tidy(m)
    ensures Inv(PushFixed(m, x, limit), limit) && Tidy(PushFixed(m, x, limit))
  {
    var r := PushFixed(m, x, limit);
    PushFixedKeepsInv(m, x, limit);
    if x in m.keys {
      WithoutProperties(m.stack, x);
      assert r.stack == Without(m.stack, x) + [x];
    } else if limit != -1 && |m.stack| == limit {
      var s0 := m.stack[0];
      assert r.stack == m.stack[1..] + [x];
      forall y | y in r.keys ensures y in r.stack {
        if y != x {
          assert y in m.stack && y != s0;
          var i :| 0 <= i < |m.stack| && m.stack[i] == y;
          assert r.stack[i - 1] == y;
        }
      }
    }
  }

  /** Popping keeps a well-formed queue tidy. */
  lemma PopKeepsTidy<T>(m: Model<T>, limit: int)
    requires Inv(m, limit) && Tidy(m)
    ensures Tidy(Pop(m).1)
  {
    if |m.stack| > 0 {
      var n := |m.stack| - 1;
      var r := Pop(m).1;
      forall y | y in r.keys ensures y in r.stack {
        var i :| 0 <= i < |m.stack| && m.stack[i] == y;
        assert i != n;
        assert r.stack[i] == y;
      }
      forall y | y in r.stack ensures y in r.keys {
        var i :| 0 <= i < n && r.stack[i] == y;
        assert m.stack[i] == y && m.stack[i] in m.stack;
        assert m.stack[i] != m.stack[n];
      }
    }
  }

  /** The corrected counterpart of `StaleKeyAfterEviction`: the evicted
      reservation is forgotten and may be pushed again. */
  lemma EvictedCanReturn<T>(a: T, b: T)
    requires a != b
    ensures PushFixed(PushFixed(Empty(), a, 1), b, 1) == Model([b], {b})
    ensures CanPush(PushFixed(PushFixed(Empty(), a, 1), b, 1), a)
  {
    var m1 := PushFixed(Empty(), a, 1);
    assert m1 == Model([a], {a});
    assert m1.stack[1..] + [b] == [b];
  }
}
