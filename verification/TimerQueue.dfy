/**
 * The ideal timer queue that core/timeouts.c implements: integer due times, sorted, first-come first-served among
 * equals.
 */
module TimerQueue {
  /** What a timeout calls: lwip_cyclic_timer with its interval, another handler, or nothing. */
  datatype Handler = Cyclic(arg: nat, interval: nat) | OneShot(arg: nat) | NoHandler

  /** A pending timeout: true due time in ms and the order in which it was armed. */
  datatype Timer = Timer(due: int, stamp: nat, h: Handler)

  predicate Before(a: Timer, b: Timer) { a.due < b.due || (a.due == b.due && a.stamp < b.stamp) }

  ghost predicate Sorted(q: seq<Timer>) {
    forall i, j | 0 <= i < j < |q| :: Before(q[i], q[j])
  }

  ghost predicate StampsBelow(q: seq<Timer>, s: nat) {
    forall i | 0 <= i < |q| :: q[i].stamp < s
  }

  function StableInsert(q: seq<Timer>, t: Timer): seq<Timer> {
    if q == [] then [t]
    else if t.due < q[0].due then [t] + q
    else [q[0]] + StableInsert(q[1..], t)
  }

  /** The place of a newly armed timer: behind everything due no later. */
  lemma {:induction false} StableInsertAt(q: seq<Timer>, t: Timer, k: nat)
    requires k <= |q| && (forall i | 0 <= i < k :: q[i].due <= t.due) && (k < |q| ==> t.due < q[k].due)
    ensures StableInsert(q, t) == q[..k] + [t] + q[k..]
    decreases k
  {
    if k == 0 {
      assert q[..0] + [t] + q[0..] == [t] + q;
    } else {
      StableInsertAt(q[1..], t, k - 1);
      assert q[..k] + [t] + q[k..] == [q[0]] + (q[1..][..k - 1] + [t] + q[1..][k - 1..]);
    }
  }

  lemma {:induction false} StableInsertWhere(q: seq<Timer>, t: Timer) returns (k: nat)
    requires Sorted(q)
    ensures k <= |q| && (forall i | 0 <= i < k :: q[i].due <= t.due) && (forall i | k <= i < |q| :: t.due < q[i].due)
    ensures StableInsert(q, t) == q[..k] + [t] + q[k..]
  {
    k := 0;
    while k < |q| && q[k].due <= t.due
      invariant k <= |q| && forall i | 0 <= i < k :: q[i].due <= t.due
    {
      k := k + 1;
    }
    forall i | k <= i < |q|
      ensures t.due < q[i].due
    {
      assert k < i ==> Before(q[k], q[i]);
    }
    StableInsertAt(q, t, k);
  }

  /** Inserting keeps the queue sorted, and changes nothing but the one new element. */
  lemma StableInsertSorted(q: seq<Timer>, t: Timer)
    requires Sorted(q) && StampsBelow(q, t.stamp)
    ensures Sorted(StableInsert(q, t)) && StampsBelow(StableInsert(q, t), t.stamp + 1)
    ensures |StableInsert(q, t)| == |q| + 1
    ensures forall x :: x in StableInsert(q, t) <==> x in q || x == t
  {
    var k := StableInsertWhere(q, t);
    InsertedOrder(q, t, k);
    InsertedMembers(q, t, k);
  }

  lemma InsertedOrder(q: seq<Timer>, t: Timer, k: nat)
    requires Sorted(q) && StampsBelow(q, t.stamp) && k <= |q|
    requires (forall i | 0 <= i < k :: q[i].due <= t.due) && (forall i | k <= i < |q| :: t.due < q[i].due)
    ensures Sorted(q[..k] + [t] + q[k..]) && StampsBelow(q[..k] + [t] + q[k..], t.stamp + 1)
  {
    var n := q[..k] + [t] + q[k..];
    forall i, j | 0 <= i < j < |n|
      ensures Before(n[i], n[j])
    {
      assert n[i] == if i < k then q[i] else if i == k then t else q[i - 1];
      assert n[j] == if j < k then q[j] else if j == k then t else q[j - 1];
    }
  }

  lemma InsertedMembers(q: seq<Timer>, t: Timer, k: nat)
    requires k <= |q|
    ensures forall x :: x in q[..k] + [t] + q[k..] <==> x in q || x == t
  {
    assert q[..k] + q[k..] == q;
    forall x
      ensures x in q[..k] + [t] + q[k..] <==> x in q || x == t
    {
      assert x in q <==> x in q[..k] || x in q[k..];
    }
  }

  /** The head of a sorted queue precedes every other element: it is the minimum a priority queue would give. */
  lemma HeadIsMinimum(q: seq<Timer>, x: Timer)
    requires Sorted(q) && x in q && x != q[0]
    ensures Before(q[0], x)
  {
    var i :| 0 <= i < |q| && q[i] == x;
  }

  // ---- how often a timer can still fire in one sys_check_timeouts call that read the clock as `now` ----

  function FiresLeft(t: Timer, now: int): nat { if t.due < now then 2 else if t.due == now then 1 else 0 }

  function TotalFires(q: seq<Timer>, now: int): nat {
    if q == [] then 0 else FiresLeft(q[0], now) + TotalFires(q[1..], now)
  }

  /** The same for the cyclic timer with argument a only. */
  function FiresOf(q: seq<Timer>, now: int, a: nat): nat {
    if q == [] then 0
    else (if q[0].h.Cyclic? && q[0].h.arg == a then FiresLeft(q[0], now) else 0) + FiresOf(q[1..], now, a)
  }

  lemma {:induction false} InsertFires(q: seq<Timer>, t: Timer, now: int, a: nat)
    ensures TotalFires(StableInsert(q, t), now) == TotalFires(q, now) + FiresLeft(t, now)
    ensures FiresOf(StableInsert(q, t), now, a)
      == FiresOf(q, now, a) + if t.h.Cyclic? && t.h.arg == a then FiresLeft(t, now) else 0
  {
    if q == [] {
      assert [t][1..] == [];
    } else if t.due < q[0].due {
      assert ([t] + q)[1..] == q;
    } else {
      InsertFires(q[1..], t, now, a);
      assert ([q[0]] + StableInsert(q[1..], t))[1..] == StableInsert(q[1..], t);
    }
  }

  /** A single pending timer of argument a leaves at most two firings. */
  lemma {:induction false} AtMostTwo(q: seq<Timer>, now: int, a: nat)
    requires Single(q, a)
    ensures FiresOf(q, now, a) <= 2
    ensures (forall i | 0 <= i < |q| :: !IsOf(q[i], a)) ==> FiresOf(q, now, a) == 0
  {
    if q != [] {
      AtMostTwo(q[1..], now, a);
      if IsOf(q[0], a) {
        assert forall i | 0 <= i < |q[1..]| :: q[1..][i] == q[i + 1];
      }
    }
  }

  ghost predicate Single(q: seq<Timer>, a: nat) {
    forall i, j | 0 <= i < j < |q| :: !(IsOf(q[i], a) && IsOf(q[j], a))
  }

  predicate IsOf(t: Timer, a: nat) { t.h.Cyclic? && t.h.arg == a }

  function CountOf(q: seq<Timer>, a: nat): nat {
    if q == [] then 0 else CountOf(q[..|q| - 1], a) + if IsOf(q[|q| - 1], a) then 1 else 0
  }

  /** Counting may as well start at the front. */
  lemma {:induction false} CountFront(q: seq<Timer>, a: nat)
    requires q != []
    ensures CountOf(q, a) == CountOf(q[1..], a) + if IsOf(q[0], a) then 1 else 0
  {
    var n := |q| - 1;
    if n > 0 {
      CountFront(q[..n], a);
      assert q[..n][1..] == q[1..][..n - 1];
    }
  }

  lemma {:induction false} InsertCount(q: seq<Timer>, t: Timer, a: nat)
    ensures CountOf(StableInsert(q, t), a) == CountOf(q, a) + if IsOf(t, a) then 1 else 0
  {
    CountFront(StableInsert(q, t), a);
    if q == [] {
    } else if t.due < q[0].due {
      assert ([t] + q)[1..] == q;
    } else {
      InsertCount(q[1..], t, a);
      CountFront(q, a);
      assert ([q[0]] + StableInsert(q[1..], t))[1..] == StableInsert(q[1..], t);
    }
  }

  // ---- cyclic timers ----

  /** lwip_cyclic_timer: the next due time, given the current one and the clock after the handler ran. */
  function NextDue(due: int, interval: nat, clock: int): int {
    if due + interval < clock then clock + interval else due + interval
  }

  /** Due times of one cyclic timer over successive firings that saw the given clocks. */
  function DueAfter(due: int, interval: nat, clocks: seq<int>): int {
    if clocks == [] then due
    else NextDue(DueAfter(due, interval, clocks[..|clocks| - 1]), interval, clocks[|clocks| - 1])
  }

  ghost predicate NeverOverloaded(due: int, interval: nat, clocks: seq<int>) {
    forall k | 0 <= k < |clocks| :: clocks[k] <= due + (k + 1) * interval
  }

  /**
   * No drift: the k-th due time is the first one plus k intervals exactly when no firing came too late, else it is
   * later.
   */
  lemma {:induction false} NoDrift(due: int, interval: nat, clocks: seq<int>)
    ensures DueAfter(due, interval, clocks) >= due + |clocks| * interval
    ensures NeverOverloaded(due, interval, clocks) <==> DueAfter(due, interval, clocks) == due + |clocks| * interval
  {
    if clocks != [] {
      var n := |clocks| - 1;
      NoDrift(due, interval, clocks[..n]);
      assert (n + 1) * interval == n * interval + interval;
      assert forall k | 0 <= k < n :: clocks[..n][k] == clocks[k];
      if NeverOverloaded(due, interval, clocks[..n]) {
        assert NeverOverloaded(due, interval, clocks) <==> clocks[n] <= due + (n + 1) * interval;
      } else {
        var k :| 0 <= k < n && clocks[..n][k] > due + (k + 1) * interval;
        assert clocks[k] > due + (k + 1) * interval;
      }
    }
  }
}
