/**
 * The exact effect of timer handlers on the ideal queue: what their calls of sys_timeout and sys_untimeout do, how
 * cyclic timers re-arm, and that over a whole sys_check_timeouts call each of these calls was made.
 */
module TimerActions {
  import opened TimerQueue

  /** What a handler does with the timer module when it runs. */
  datatype Action = Arm(msecs: nat, h: Handler) | Cancel(h: Handler)

  /** The ideal queue and the number of timers armed so far. */
  datatype Moment = Moment(q: seq<Timer>, stamp: nat)

  /** sys_timeout_abs with `cap` pool elements. */
  function Armed(m: Moment, due: int, h: Handler, cap: nat): Moment {
    if |m.q| >= cap then m else Moment(StableInsert(m.q, Timer(due, m.stamp, h)), m.stamp + 1)
  }

  /** sys_untimeout */
  function Cancelled(q: seq<Timer>, h: Handler): seq<Timer> {
    if q == [] then [] else if q[0].h == h then q[1..] else [q[0]] + Cancelled(q[1..], h)
  }

  function Acted(m: Moment, a: Action, clock: int, cap: nat): Moment {
    match a
    case Arm(msecs, h) => Armed(m, clock + msecs, h, cap)
    case Cancel(h) => Moment(Cancelled(m.q, h), m.stamp)
  }

  /** The actions at the clock readings from the one with number `first` on. */
  ghost function ActedAll(m: Moment, acts: seq<Action>, clock: nat -> int, first: nat, cap: nat): Moment {
    if acts == [] then m
    else
      var n := |acts| - 1;
      Acted(ActedAll(m, acts[..n], clock, first, cap), acts[n], clock(first + n), cap)
  }

  /** The handler of timer f, taken off the queue before: its actions, and the next cycle of a cyclic timer. */
  ghost function Handled(m: Moment, f: Timer, acts: seq<Action>, clock: nat -> int, first: nat, cap: nat): Moment {
    if f.h == NoHandler then m
    else
      var v := ActedAll(m, acts, clock, first, cap);
      if f.h.Cyclic? then Armed(v, NextDue(f.due, f.h.interval, clock(first + |acts|)), f.h, cap) else v
  }

  // ---- single calls ----

  /** sys_untimeout removes the first match. */
  lemma {:induction false} CancelledAt(q: seq<Timer>, h: Handler, k: nat)
    requires k <= |q| && (forall i | 0 <= i < k :: q[i].h != h) && (k < |q| ==> q[k].h == h)
    ensures Cancelled(q, h) == if k < |q| then q[..k] + q[k + 1..] else q
  {
    if k > 0 {
      CancelledAt(q[1..], h, k - 1);
      if k < |q| {
        WithoutOne(q, k);
      }
    }
  }

  lemma WithoutOne(q: seq<Timer>, k: nat)
    requires 0 < k < |q|
    ensures q[..k] + q[k + 1..] == [q[0]] + (q[1..][..k - 1] + q[1..][k..])
  {
  }

  lemma {:induction false} CancelledMembers(q: seq<Timer>, h: Handler)
    ensures forall x | x in q && x.h != h :: x in Cancelled(q, h)
    ensures forall x | x in Cancelled(q, h) :: x in q
    ensures |Cancelled(q, h)| == |q| - if exists x :: x in q && x.h == h then 1 else 0
  {
    if q != [] {
      CancelledMembers(q[1..], h);
      assert forall x :: x in q <==> x == q[0] || x in q[1..];
      if q[0].h == h {
        assert q[0] in q;
      }
    }
  }

  lemma {:induction false} InsertMembers(q: seq<Timer>, t: Timer)
    ensures forall x :: x in StableInsert(q, t) <==> x in q || x == t
    ensures |StableInsert(q, t)| == |q| + 1
  {
    if q != [] && t.due >= q[0].due {
      InsertMembers(q[1..], t);
      assert forall x :: x in q <==> x == q[0] || x in q[1..];
    }
  }

  /** A timer that is not cancelled stays, and a new one is added unless the pool is empty. */
  lemma ActedMembers(m: Moment, a: Action, clock: int, cap: nat)
    ensures var n := Acted(m, a, clock, cap);
      && (forall x | x in m.q && a != Cancel(x.h) :: x in n.q)
      && (a.Arm? && |m.q| < cap ==> Timer(clock + a.msecs, m.stamp, a.h) in n.q)
      && (forall x | x in n.q :: x in m.q || (a.Arm? && x == Timer(clock + a.msecs, m.stamp, a.h)))
      && m.stamp <= n.stamp && |n.q| <= |m.q| + 1
  {
    match a
    case Arm(msecs, h) => InsertMembers(m.q, Timer(clock + msecs, m.stamp, h));
    case Cancel(h) => CancelledMembers(m.q, h);
  }

  // ---- handlers ----

  /** A timer for h due at that time, armed after the first `since` ones, is in q. */
  ghost predicate Holds(q: seq<Timer>, due: int, h: Handler, since: nat) {
    exists x :: x in q && x.due == due && x.h == h && since <= x.stamp
  }

  /** None of the actions cancels h. */
  ghost predicate Spares(acts: seq<Action>, h: Handler) {
    forall i | 0 <= i < |acts| :: acts[i] != Cancel(h)
  }

  lemma {:induction false} ActedAllKeeps(m: Moment, acts: seq<Action>, clock: nat -> int, first: nat, cap: nat,
                                         x: Timer)
    requires x in m.q && Spares(acts, x.h)
    ensures x in ActedAll(m, acts, clock, first, cap).q
  {
    if acts != [] {
      var n := |acts| - 1;
      ActedAllKeeps(m, acts[..n], clock, first, cap, x);
      ActedMembers(ActedAll(m, acts[..n], clock, first, cap), acts[n], clock(first + n), cap);
    }
  }

  lemma {:induction false} ActedAllSize(m: Moment, acts: seq<Action>, clock: nat -> int, first: nat, cap: nat)
    ensures var n := ActedAll(m, acts, clock, first, cap); m.stamp <= n.stamp && |n.q| <= |m.q| + |acts|
  {
    if acts != [] {
      var n := |acts| - 1;
      ActedAllSize(m, acts[..n], clock, first, cap);
      ActedMembers(ActedAll(m, acts[..n], clock, first, cap), acts[n], clock(first + n), cap);
    }
  }

  lemma HoldsStill(v: Moment, a: Action, clock: int, cap: nat, due: int, h: Handler, since: nat)
    requires Holds(v.q, due, h, since) && a != Cancel(h)
    ensures Holds(Acted(v, a, clock, cap).q, due, h, since)
  {
    ActedMembers(v, a, clock, cap);
    var x :| x in v.q && x.due == due && x.h == h && since <= x.stamp;
    assert x in Acted(v, a, clock, cap).q;
  }

  /** One more action. */
  lemma ActedNext(m: Moment, acts: seq<Action>, clock: nat -> int, first: nat, cap: nat, j: nat)
    requires j < |acts|
    ensures ActedAll(m, acts[..j + 1], clock, first, cap)
      == Acted(ActedAll(m, acts[..j], clock, first, cap), acts[j], clock(first + j), cap)
  {
    assert acts[..j + 1][..j] == acts[..j];
  }

  /** A timer that is there after j actions, none of which cancels it, is there after all. */
  lemma {:induction false} HeldOn(m: Moment, acts: seq<Action>, clock: nat -> int, first: nat, cap: nat, j: nat,
                                  due: int, h: Handler, since: nat)
    requires j <= |acts| && Spares(acts, h) && Holds(ActedAll(m, acts[..j], clock, first, cap).q, due, h, since)
    ensures Holds(ActedAll(m, acts, clock, first, cap).q, due, h, since)
    decreases |acts| - j
  {
    if j < |acts| {
      ActedNext(m, acts, clock, first, cap, j);
      HoldsStill(ActedAll(m, acts[..j], clock, first, cap), acts[j], clock(first + j), cap, due, h, since);
      HeldOn(m, acts, clock, first, cap, j + 1, due, h, since);
    } else {
      assert acts[..j] == acts;
    }
  }

  /** The timer armed by action i, at the reading that is its turn, is there after all actions if none cancels it. */
  lemma ArmDone(m: Moment, acts: seq<Action>, clock: nat -> int, first: nat, cap: nat, i: nat)
    requires i < |acts| && acts[i].Arm? && Spares(acts, acts[i].h)
    requires |ActedAll(m, acts[..i], clock, first, cap).q| < cap
    ensures Holds(ActedAll(m, acts, clock, first, cap).q, clock(first + i) + acts[i].msecs, acts[i].h, m.stamp)
  {
    var v, due := ActedAll(m, acts[..i], clock, first, cap), clock(first + i) + acts[i].msecs;
    ActedAllSize(m, acts[..i], clock, first, cap);
    ActedNext(m, acts, clock, first, cap, i);
    JustArmed(v, acts[i], clock(first + i), cap, m.stamp);
    HeldOn(m, acts, clock, first, cap, i + 1, due, acts[i].h, m.stamp);
  }

  lemma JustArmed(v: Moment, a: Action, clock: int, cap: nat, since: nat)
    requires a.Arm? && |v.q| < cap && since <= v.stamp
    ensures Holds(Acted(v, a, clock, cap).q, clock + a.msecs, a.h, since)
  {
    ActedMembers(v, a, clock, cap);
    assert Timer(clock + a.msecs, v.stamp, a.h) in Acted(v, a, clock, cap).q;
  }

  /** A timer that the handler does not cancel survives its run. */
  lemma HandledKeeps(m: Moment, f: Timer, acts: seq<Action>, clock: nat -> int, first: nat, cap: nat, x: Timer)
    requires x in m.q && Spares(acts, x.h)
    ensures x in Handled(m, f, acts, clock, first, cap).q
  {
    ActedAllKeeps(m, acts, clock, first, cap, x);
    var v := ActedAll(m, acts, clock, first, cap);
    if f.h.Cyclic? {
      InsertMembers(v.q, Timer(NextDue(f.due, f.h.interval, clock(first + |acts|)), v.stamp, f.h));
    }
  }

  /** Every handler but NULL makes its calls: what it arms is pending afterwards, unless cancelled or without room. */
  lemma HandledArms(m: Moment, f: Timer, acts: seq<Action>, clock: nat -> int, first: nat, cap: nat, i: nat)
    requires f.h != NoHandler && i < |acts| && acts[i].Arm? && Spares(acts, acts[i].h)
    requires |ActedAll(m, acts[..i], clock, first, cap).q| < cap
    ensures Holds(Handled(m, f, acts, clock, first, cap).q, clock(first + i) + acts[i].msecs, acts[i].h, m.stamp)
  {
    ArmDone(m, acts, clock, first, cap, i);
    var v := ActedAll(m, acts, clock, first, cap);
    if f.h.Cyclic? {
      InsertMembers(v.q, Timer(NextDue(f.due, f.h.interval, clock(first + |acts|)), v.stamp, f.h));
    }
  }

  /** Every handler but NULL makes its calls: the first timer of a cancelled handler is gone. */
  lemma HandledCancels(m: Moment, f: Timer, h: Handler, clock: nat -> int, first: nat, cap: nat)
    requires f.h.OneShot?
    ensures Handled(m, f, [Cancel(h)], clock, first, cap) == Moment(Cancelled(m.q, h), m.stamp)
  {
    assert ActedAll(m, [Cancel(h)][..0], clock, first, cap) == m;
  }

  /**
   * A cyclic timer is pending again after its handler ran: one interval behind its due time, or, if that has passed,
   * behind the clock.
   */
  lemma HandledRearms(m: Moment, f: Timer, acts: seq<Action>, clock: nat -> int, first: nat, cap: nat)
    requires f.h.Cyclic? && |ActedAll(m, acts, clock, first, cap).q| < cap
    ensures var now := clock(first + |acts|);
      var due := if f.due + f.h.interval < now then now + f.h.interval else f.due + f.h.interval;
      Holds(Handled(m, f, acts, clock, first, cap).q, due, f.h, m.stamp)
  {
    var v := ActedAll(m, acts, clock, first, cap);
    ActedAllSize(m, acts, clock, first, cap);
    var t := Timer(NextDue(f.due, f.h.interval, clock(first + |acts|)), v.stamp, f.h);
    InsertMembers(v.q, t);
    assert t in Handled(m, f, acts, clock, first, cap).q;
  }

  lemma HandledSize(m: Moment, f: Timer, acts: seq<Action>, clock: nat -> int, first: nat, cap: nat)
    ensures var n := Handled(m, f, acts, clock, first, cap); m.stamp <= n.stamp && |n.q| <= |m.q| + |acts| + 1
  {
    ActedAllSize(m, acts, clock, first, cap);
    var v := ActedAll(m, acts, clock, first, cap);
    if f.h.Cyclic? {
      InsertMembers(v.q, Timer(NextDue(f.due, f.h.interval, clock(first + |acts|)), v.stamp, f.h));
    }
  }

  // ---- a whole sys_check_timeouts call ----

  function ActsOf(script: seq<seq<Action>>, k: nat): seq<Action> { if k < |script| then script[k] else [] }

  /** Clock readings of one handler run. */
  function Readings(f: Timer, acts: seq<Action>): nat {
    if f.h == NoHandler then 0 else |acts| + if f.h.Cyclic? then 1 else 0
  }

  /**
   * The rounds of a call: `trace` holds the queue before each round and at the end, `at` the number of the first clock
   * reading of each round; in round k the head fired and its handler ran script[k].
   */
  ghost predicate Rounds(trace: seq<Moment>, at: seq<nat>, fired: seq<Timer>, script: seq<seq<Action>>,
                         clock: nat -> int, cap: nat) {
    && |trace| == |at| == |fired| + 1 && at[0] == 1
    && forall k | 0 <= k < |fired| :: RoundAt(trace, at, fired, script, clock, cap, k)
  }

  ghost predicate RoundAt(trace: seq<Moment>, at: seq<nat>, fired: seq<Timer>, script: seq<seq<Action>>,
                          clock: nat -> int, cap: nat, k: nat)
    requires k + 1 < |trace| && k + 1 < |at| && k < |fired|
  {
    && trace[k].q != [] && fired[k] == trace[k].q[0] && fired[k].due <= clock(0)
    && at[k + 1] == at[k] + Readings(fired[k], ActsOf(script, k))
    && trace[k + 1]
      == Handled(Moment(trace[k].q[1..], trace[k].stamp), fired[k], ActsOf(script, k), clock, at[k], cap)
  }

  lemma RoundsStart(m: Moment, script: seq<seq<Action>>, clock: nat -> int, cap: nat)
    ensures Rounds([m], [1], [], script, clock, cap)
  {
  }

  lemma RoundsStep(trace: seq<Moment>, at: seq<nat>, fired: seq<Timer>, script: seq<seq<Action>>, clock: nat -> int,
                   cap: nat, m: Moment, next: nat, f: Timer)
    requires Rounds(trace, at, fired, script, clock, cap)
    requires var n := |fired|; var b := trace[n];
      && b.q != [] && f == b.q[0] && f.due <= clock(0) && next == at[n] + Readings(f, ActsOf(script, n))
      && m == Handled(Moment(b.q[1..], b.stamp), f, ActsOf(script, n), clock, at[n], cap)
    ensures Rounds(trace + [m], at + [next], fired + [f], script, clock, cap)
  {
    var t, a, d := trace + [m], at + [next], fired + [f];
    forall k | 0 <= k < |d|
      ensures RoundAt(t, a, d, script, clock, cap, k)
    {
      if k < |fired| {
        assert RoundAt(trace, at, fired, script, clock, cap, k);
      }
    }
  }

  /** A timer pending before round k that no handler cancels has fired by the end or is still pending. */
  lemma {:induction false} FiresOrStays(trace: seq<Moment>, at: seq<nat>, fired: seq<Timer>, script: seq<seq<Action>>,
                                        clock: nat -> int, cap: nat, k: nat, x: Timer)
    requires Rounds(trace, at, fired, script, clock, cap) && k <= |fired| && x in trace[k].q
    requires forall j | 0 <= j < |script| :: Spares(script[j], x.h)
    ensures x in fired || x in trace[|fired|].q
    decreases |fired| - k
  {
    if k < |fired| {
      assert RoundAt(trace, at, fired, script, clock, cap, k);
      if x != fired[k] {
        assert x in trace[k].q[1..] by { assert trace[k].q == [trace[k].q[0]] + trace[k].q[1..]; }
        HandledKeeps(Moment(trace[k].q[1..], trace[k].stamp), fired[k], ActsOf(script, k), clock, at[k], cap, x);
        FiresOrStays(trace, at, fired, script, clock, cap, k + 1, x);
      }
    }
  }

  lemma HeldFiresOrStays(trace: seq<Moment>, at: seq<nat>, fired: seq<Timer>, script: seq<seq<Action>>,
                         clock: nat -> int, cap: nat, k: nat, due: int, h: Handler, since: nat)
    requires Rounds(trace, at, fired, script, clock, cap) && k <= |fired| && Holds(trace[k].q, due, h, since)
    requires forall j | 0 <= j < |script| :: Spares(script[j], h)
    ensures Holds(fired, due, h, since) || Holds(trace[|fired|].q, due, h, since)
  {
    var x :| x in trace[k].q && x.due == due && x.h == h && since <= x.stamp;
    FiresOrStays(trace, at, fired, script, clock, cap, k, x);
  }

  /** All the handlers' actions together. */
  function TotalActs(script: seq<seq<Action>>, k: nat): nat {
    if k == 0 then 0 else TotalActs(script, k - 1) + |ActsOf(script, k - 1)|
  }

  lemma {:induction false} TotalActsMonotone(script: seq<seq<Action>>, k: nat, n: nat)
    requires k <= n
    ensures TotalActs(script, k) <= TotalActs(script, n)
    decreases n
  {
    if k < n {
      TotalActsMonotone(script, k, n - 1);
    }
  }

  lemma {:induction false} TotalActsEnd(script: seq<seq<Action>>, n: nat)
    requires |script| <= n
    ensures TotalActs(script, n) == TotalActs(script, |script|)
    decreases n
  {
    if |script| < n {
      TotalActsEnd(script, n - 1);
    }
  }

  /** Before round k the queue has grown by the actions so far at most. */
  lemma {:induction false} QueueSize(trace: seq<Moment>, at: seq<nat>, fired: seq<Timer>, script: seq<seq<Action>>,
                                     clock: nat -> int, cap: nat, k: nat)
    requires Rounds(trace, at, fired, script, clock, cap) && k <= |fired|
    ensures |trace[k].q| <= |trace[0].q| + TotalActs(script, k)
  {
    if k > 0 {
      QueueSize(trace, at, fired, script, clock, cap, k - 1);
      assert RoundAt(trace, at, fired, script, clock, cap, k - 1);
      var b := trace[k - 1];
      HandledSize(Moment(b.q[1..], b.stamp), fired[k - 1], ActsOf(script, k - 1), clock, at[k - 1], cap);
    }
  }

  /** The pool has an element for every timer pending at the start and every one the handlers may arm. */
  predicate Roomy(pending: nat, script: seq<seq<Action>>, cap: nat) { pending + TotalActs(script, |script|) <= cap }

  lemma RoomInRound(trace: seq<Moment>, at: seq<nat>, fired: seq<Timer>, script: seq<seq<Action>>, clock: nat -> int,
                    cap: nat, k: nat, i: nat)
    requires Rounds(trace, at, fired, script, clock, cap) && k < |fired| && Roomy(|trace[0].q|, script, cap)
    requires i <= |ActsOf(script, k)|
    ensures trace[k].q != []
    ensures |ActedAll(Moment(trace[k].q[1..], trace[k].stamp), ActsOf(script, k)[..i], clock, at[k], cap).q| < cap
  {
    assert RoundAt(trace, at, fired, script, clock, cap, k);
    QueueSize(trace, at, fired, script, clock, cap, k);
    ActedAllSize(Moment(trace[k].q[1..], trace[k].stamp), ActsOf(script, k)[..i], clock, at[k], cap);
    TotalActsMonotone(script, k + 1, k + 1 + |script|);
    TotalActsEnd(script, k + 1 + |script|);
  }

  /**
   * Every call of sys_timeout that a handler should make was made when its turn came: the timer, due at that clock
   * reading plus its delay, has fired or is pending at the end, unless some handler cancels it.
   */
  lemma EveryArmMade(trace: seq<Moment>, at: seq<nat>, fired: seq<Timer>, script: seq<seq<Action>>, clock: nat -> int,
                     cap: nat, k: nat, i: nat)
    requires Rounds(trace, at, fired, script, clock, cap) && Roomy(|trace[0].q|, script, cap)
    requires k < |fired| && k < |script| && fired[k].h != NoHandler && i < |script[k]| && script[k][i].Arm?
    requires forall j | 0 <= j < |script| :: Spares(script[j], script[k][i].h)
    ensures var due, h := clock(at[k] + i) + script[k][i].msecs, script[k][i].h;
      Holds(fired, due, h, trace[k].stamp) || Holds(trace[|fired|].q, due, h, trace[k].stamp)
  {
    assert RoundAt(trace, at, fired, script, clock, cap, k);
    RoomInRound(trace, at, fired, script, clock, cap, k, i);
    var m := Moment(trace[k].q[1..], trace[k].stamp);
    HandledArms(m, fired[k], script[k], clock, at[k], cap, i);
    var due, h := clock(at[k] + i) + script[k][i].msecs, script[k][i].h;
    HeldFiresOrStays(trace, at, fired, script, clock, cap, k + 1, due, h, m.stamp);
  }

  /** Every cyclic timer that fired was re-armed, and its next cycle has fired or is pending, unless cancelled. */
  lemma EveryCycleRearmed(trace: seq<Moment>, at: seq<nat>, fired: seq<Timer>, script: seq<seq<Action>>,
                          clock: nat -> int, cap: nat, k: nat)
    requires Rounds(trace, at, fired, script, clock, cap) && Roomy(|trace[0].q|, script, cap)
    requires k < |fired| && fired[k].h.Cyclic? && forall j | 0 <= j < |script| :: Spares(script[j], fired[k].h)
    ensures var f, now := fired[k], clock(at[k] + |ActsOf(script, k)|);
      var due := if f.due + f.h.interval < now then now + f.h.interval else f.due + f.h.interval;
      Holds(fired, due, f.h, trace[k].stamp) || Holds(trace[|fired|].q, due, f.h, trace[k].stamp)
  {
    assert RoundAt(trace, at, fired, script, clock, cap, k);
    var f, acts := fired[k], ActsOf(script, k);
    RoomInRound(trace, at, fired, script, clock, cap, k, |acts|);
    assert acts[..|acts|] == acts;
    var m := Moment(trace[k].q[1..], trace[k].stamp);
    HandledRearms(m, f, acts, clock, at[k], cap);
    var now := clock(at[k] + |acts|);
    var due := if f.due + f.h.interval < now then now + f.h.interval else f.due + f.h.interval;
    HeldFiresOrStays(trace, at, fired, script, clock, cap, k + 1, due, f.h, m.stamp);
  }
}
