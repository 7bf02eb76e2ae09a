/** core/timeouts.c: the timeout list with its wrapping 32-bit clock, proved against the ideal queue of TimerQueue. */
module Timeouts {
  import opened Common
  import opened TimerQueue
  import opened TimerActions

  const MAX_TIMEOUT: int := 0x7fff_ffff
  const SLEEPTIME_INFINITE: u32 := 0xffff_ffff

  /** A u32_t time stamp. */
  function Wrap(t: int): u32 { t % 0x1_0000_0000 }

  /** TIME_LESS_THAN */
  predicate TimeLessThan(t: u32, compareTo: u32) { (t - compareTo) % 0x1_0000_0000 > MAX_TIMEOUT }

  /** Within half the range of the clock, the wrapped comparison is the true one. */
  lemma WrappedOrder(a: int, b: int)
    requires -0x7fff_ffff <= a - b <= 0x7fff_ffff
    ensures TimeLessThan(Wrap(a), Wrap(b)) <==> a < b
  {
    assert (Wrap(a) - Wrap(b)) % 0x1_0000_0000 == (a - b) % 0x1_0000_0000;
  }

  lemma WrapAdd(a: int, b: int)
    ensures Wrap(Wrap(a) + b) == Wrap(a + b)
  {
  }

  lemma WrapShift(t: int, base: int, now: int)
    ensures Wrap(Wrap(t) - Wrap(base) + Wrap(now)) == Wrap(t - base + now)
  {
  }

  /** struct sys_timeo */
  datatype Entry = Entry(time: u32, h: Handler)

  ghost predicate InWindow(q: seq<Timer>, lo: int) {
    forall i | 0 <= i < |q| :: lo <= q[i].due <= lo + MAX_TIMEOUT
  }

  ghost predicate Represents(list: seq<Entry>, q: seq<Timer>) {
    |list| == |q| && forall i | 0 <= i < |q| :: list[i] == Entry(Wrap(q[i].due), q[i].h)
  }

  /** What bounds one sys_check_timeouts call: its first clock reading, the window, the longest timeout in use. */
  datatype Call = Call(clock: int, lo: int, longest: nat) {
    ghost predicate Ok() { lo <= clock && clock + longest <= lo + MAX_TIMEOUT }
  }

  /** Successive values of sys_now: they never step back, and stay in the window with room for the longest timeout. */
  ghost predicate Monotone(clock: nat -> int, lo: int, longest: nat) {
    && (forall i: nat, j: nat | i <= j :: clock(i) <= clock(j))
    && (forall i: nat :: lo <= clock(i) && clock(i) + longest <= lo + MAX_TIMEOUT)
  }

  ghost predicate GoodHandler(h: Handler, longest: nat) { h.Cyclic? ==> 0 < h.interval <= longest }

  ghost predicate GoodAction(a: Action, longest: nat) { a.Arm? ==> a.msecs <= longest && GoodHandler(a.h, longest) }

  ghost predicate PositiveCycles(q: seq<Timer>, longest: nat) {
    forall x | x in q :: GoodHandler(x.h, longest)
  }

  ghost function CancelSet(acts: seq<Action>): set<Handler> {
    if acts == [] then {} else CancelSet(acts[1..]) + if acts[0].Cancel? then {acts[0].h} else {}
  }

  lemma {:induction false} InCancelSet(acts: seq<Action>, i: nat)
    requires i < |acts| && acts[i].Cancel?
    ensures acts[i].h in CancelSet(acts)
  {
    if i > 0 {
      InCancelSet(acts[1..], i - 1);
    }
  }

  /** From queue q to queue r nothing is lost but cancelled timers, and what is new is due at `clock` or later. */
  ghost predicate Grown(q: seq<Timer>, s: nat, r: seq<Timer>, s': nat, clock: int, gone: set<Handler>) {
    s <= s'
    && (forall x | x in q :: x in r || x.h in gone)
    && (forall x | x in r :: x in q || (s <= x.stamp && clock <= x.due))
  }

  lemma GrownTrans(q: seq<Timer>, s: nat, r: seq<Timer>, s': nat, u: seq<Timer>, s'': nat, c: int, c': int,
                   gone: set<Handler>, gone': set<Handler>)
    requires Grown(q, s, r, s', c, gone) && Grown(r, s', u, s'', c', gone') && c <= c' && gone' <= gone
    ensures Grown(q, s, u, s'', c, gone)
  {
  }

  lemma GrownNext(m: Moment, n: Moment, r: Moment, acts: seq<Action>, i: nat, c: int, at: int)
    requires i < |acts| && c <= at && Grown(m.q, m.stamp, n.q, n.stamp, c, CancelSet(acts))
    requires Grown(n.q, n.stamp, r.q, r.stamp, at, if acts[i].Cancel? then {acts[i].h} else {})
    ensures Grown(m.q, m.stamp, r.q, r.stamp, c, CancelSet(acts))
  {
    if acts[i].Cancel? {
      InCancelSet(acts, i);
    }
    var gone := if acts[i].Cancel? then {acts[i].h} else {};
    GrownTrans(m.q, m.stamp, n.q, n.stamp, r.q, r.stamp, c, at, CancelSet(acts), gone);
  }

  lemma RemovedOne(q: seq<Timer>, r: seq<Timer>, k: nat)
    requires k < |q| && r == q[..k] + q[k + 1..]
    ensures forall x | x in q :: x in r || x == q[k]
    ensures forall x | x in r :: x in q
  {
    forall x | x in q
      ensures x in r || x == q[k]
    {
      var i :| 0 <= i < |q| && q[i] == x;
      assert i < k ==> r[i] == x;
      assert i > k ==> r[i - 1] == x;
    }
  }

  /** The same for a whole handler run after timer f fired: what is new comes behind f. */
  ghost predicate Follows(q: seq<Timer>, s: nat, r: seq<Timer>, s': nat, f: Timer, gone: set<Handler>) {
    s <= s'
    && (forall x | x in q :: x in r || x.h in gone)
    && (forall x | x in r :: x in q || (s <= x.stamp && Before(f, x)))
  }

  lemma GrownFollows(q: seq<Timer>, s: nat, r: seq<Timer>, s': nat, clock: int, f: Timer, gone: set<Handler>)
    requires Grown(q, s, r, s', clock, gone) && f.due <= clock && f.stamp < s
    ensures Follows(q, s, r, s', f, gone)
  {
  }

  ghost function Rearmed(f: Timer, clock: int, stamp: nat): Timer
    requires f.h.Cyclic?
  {
    Timer(NextDue(f.due, f.h.interval, clock), stamp, f.h)
  }

  /** A re-armed cyclic timer has strictly fewer firings left in this call. */
  lemma RearmedFires(f: Timer, clock: int, stamp: nat, now: int)
    requires f.h.Cyclic? && 0 < f.h.interval && f.due <= now <= clock
    ensures f.due < Rearmed(f, clock, stamp).due && FiresLeft(Rearmed(f, clock, stamp), now) < FiresLeft(f, now)
  {
  }

  ghost predicate GoodScript(script: seq<seq<Action>>, longest: nat) {
    forall k | 0 <= k < |script| :: forall i | 0 <= i < |script[k]| :: GoodAction(script[k][i], longest)
  }

  ghost function CancelAll(script: seq<seq<Action>>): set<Handler> {
    if script == [] then {} else CancelSet(script[0]) + CancelAll(script[1..])
  }

  lemma {:induction false} InCancelAll(script: seq<seq<Action>>, k: nat)
    requires k < |script|
    ensures CancelSet(script[k]) <= CancelAll(script)
  {
    if k > 0 {
      InCancelAll(script[1..], k - 1);
    }
  }

  // ---- what one call keeps from round to round ----

  /** Fired so far in due order, none early, and everything pending comes later than what fired. */
  ghost predicate OrderedRun(fired: seq<Timer>, q: seq<Timer>, now: int) {
    Sorted(fired)
    && (forall x | x in fired :: x.due <= now)
    && (forall x, y | x in fired && y in q :: Before(x, y))
  }

  lemma OrderedRunStep(fired: seq<Timer>, q: seq<Timer>, r: seq<Timer>, f: Timer, now: int)
    requires OrderedRun(fired, q, now) && f in q && f.due <= now && forall x | x in r :: Before(f, x)
    ensures OrderedRun(fired + [f], r, now)
  {
    assert forall x | x in fired :: Before(x, f);
    assert forall i | 0 <= i < |fired| :: Before(fired[i], f);
  }

  /** Every timer of the queue fired, is still pending or was cancelled; every timer is an old or a newly armed one. */
  ghost predicate Conserved(q0: seq<Timer>, s0: nat, fired: seq<Timer>, q: seq<Timer>, gone: set<Handler>) {
    (forall x | x in q0 :: x in fired || x in q || x.h in gone)
    && (forall x | x in fired || x in q :: x in q0 || s0 <= x.stamp)
  }

  lemma ConservedStep(q0: seq<Timer>, s0: nat, fired: seq<Timer>, q: seq<Timer>, s: nat, r: seq<Timer>, s': nat,
                      g: set<Handler>, gone: set<Handler>)
    requires Conserved(q0, s0, fired, q, gone) && q != [] && g <= gone && s0 <= s
    requires Follows(q[1..], s, r, s', q[0], g)
    ensures Conserved(q0, s0, fired + [q[0]], r, gone)
  {
    assert forall x | x in q :: x == q[0] || x in q[1..];
  }

  /** With handlers that only re-arm themselves, a round replaces the head by its next cycle. */
  ghost predicate Cycled(q: seq<Timer>, r: seq<Timer>, clock: int)
    requires q != []
  {
    if q[0].h.Cyclic? then exists s: nat :: r == StableInsert(q[1..], Rearmed(q[0], clock, s)) else r == q[1..]
  }

  /** No cyclic timer is lost or duplicated, and none fires more often than its two chances. */
  ghost predicate CyclesKept(q0: seq<Timer>, fired: seq<Timer>, q: seq<Timer>, now: int) {
    forall a: nat {:trigger CountOf(q, a)} {:trigger CountOf(fired, a)} ::
      CountOf(q, a) == CountOf(q0, a) && CountOf(fired, a) + FiresOf(q, now, a) <= FiresOf(q0, now, a)
  }

  /** A handler that makes no calls of its own. */
  lemma HandledAlone(m: Moment, f: Timer, clock: nat -> int, first: nat, cap: nat)
    requires |m.q| < cap
    ensures Handled(m, f, [], clock, first, cap).q
      == if f.h.Cyclic? then StableInsert(m.q, Rearmed(f, clock(first), m.stamp)) else m.q
  {
  }

  lemma CyclesStep(q0: seq<Timer>, fired: seq<Timer>, q: seq<Timer>, r: seq<Timer>, clock: int, now: int)
    requires q != [] && Cycled(q, r, clock) && q[0].due <= now <= clock
    requires q[0].h.Cyclic? ==> 0 < q[0].h.interval
    ensures CyclesKept(q0, fired, q, now) ==> CyclesKept(q0, fired + [q[0]], r, now)
    ensures TotalFires(r, now) < TotalFires(q, now)
  {
    var f := q[0];
    if f.h.Cyclic? {
      var s: nat :| r == StableInsert(q[1..], Rearmed(f, clock, s));
      var t := Rearmed(f, clock, s);
      RearmedFires(f, clock, s, now);
      InsertFires(q[1..], t, now, 0);
      if CyclesKept(q0, fired, q, now) {
        forall a: nat
          ensures CountOf(r, a) == CountOf(q0, a) && CountOf(fired + [f], a) + FiresOf(r, now, a) <= FiresOf(q0, now, a)
        {
          InsertFires(q[1..], t, now, a);
          InsertCount(q[1..], t, a);
          CountFront(q, a);
          CountBack(fired, f, a);
        }
      }
    } else if CyclesKept(q0, fired, q, now) {
      forall a: nat
        ensures CountOf(r, a) == CountOf(q0, a) && CountOf(fired + [f], a) + FiresOf(r, now, a) <= FiresOf(q0, now, a)
      {
        CountFront(q, a);
        CountBack(fired, f, a);
      }
    }
  }

  /** What is true of a call of sys_check_timeouts after some rounds. */
  ghost predicate Progress(m0: Moment, fired: seq<Timer>, trace: seq<Moment>, at: seq<nat>, m: Moment, next: nat,
                           script: seq<seq<Action>>, clock: nat -> int, cap: nat) {
    && Rounds(trace, at, fired, script, clock, cap)
    && trace[0] == m0 && trace[|fired|] == m && at[|fired|] == next && m0.stamp <= m.stamp
    && OrderedRun(fired, m.q, clock(0)) && Conserved(m0.q, m0.stamp, fired, m.q, CancelAll(script))
    && (script == [] ==> CyclesKept(m0.q, fired, m.q, clock(0)))
  }

  lemma ProgressStart(m: Moment, script: seq<seq<Action>>, clock: nat -> int, cap: nat)
    ensures Progress(m, [], [m], [1], m, 1, script, clock, cap)
  {
    RoundsStart(m, script, clock, cap);
    assert forall a: nat :: CountOf([], a) == 0;
  }

  /** One more round, in which the head f fired and its handler ran. */
  lemma ProgressStep(m0: Moment, fired: seq<Timer>, trace: seq<Moment>, at: seq<nat>, m: Moment, first: nat,
                     script: seq<seq<Action>>, clock: nat -> int, cap: nat, f: Timer, n: Moment, next: nat)
    requires Progress(m0, fired, trace, at, m, first, script, clock, cap)
    requires m.q != [] && f == m.q[0] && f.due <= clock(0) <= clock(first) && (f.h.Cyclic? ==> 0 < f.h.interval)
    requires var acts := ActsOf(script, |fired|);
      && next == first + Readings(f, acts)
      && n == Handled(Moment(m.q[1..], m.stamp), f, acts, clock, first, cap)
      && Follows(m.q[1..], m.stamp, n.q, n.stamp, f, CancelSet(acts)) && (forall x | x in n.q :: Before(f, x))
      && (acts == [] ==> Cycled(m.q, n.q, clock(first)))
    ensures Progress(m0, fired + [f], trace + [n], at + [next], n, next, script, clock, cap)
    ensures ActsOf(script, |fired|) == [] ==> TotalFires(n.q, clock(0)) < TotalFires(m.q, clock(0))
  {
    var k, acts := |fired|, ActsOf(script, |fired|);
    RoundsStep(trace, at, fired, script, clock, cap, n, next, f);
    OrderedRunStep(fired, m.q, n.q, f, clock(0));
    assert CancelSet(acts) <= CancelAll(script) by {
      if k < |script| {
        InCancelAll(script, k);
      }
    }
    ConservedStep(m0.q, m0.stamp, fired, m.q, m.stamp, n.q, n.stamp, CancelSet(acts), CancelAll(script));
    if acts == [] {
      CyclesStep(m0.q, fired, m.q, n.q, clock(first), clock(0));
    }
  }

  lemma CountBack(q: seq<Timer>, f: Timer, a: nat)
    ensures CountOf(q + [f], a) == CountOf(q, a) + if IsOf(f, a) then 1 else 0
  {
    assert (q + [f])[..|q|] == q;
  }

  class TimeoutList {
    const capacity: nat        // elements of the MEMP_SYS_TIMEOUT pool
    var list: seq<Entry>       // next_timeout
    var currentDue: u32        // current_timeout_due_time
    ghost var ideal: seq<Timer>
    ghost var stamp: nat

    ghost predicate Valid()
      reads `list, `ideal, `stamp
    {
      Represents(list, ideal) && Sorted(ideal) && StampsBelow(ideal, stamp) && |list| <= capacity
    }

    ghost function Now(): Moment
      reads `ideal, `stamp
    {
      Moment(ideal, stamp)
    }

    constructor (n: nat)
      ensures Valid() && list == [] && ideal == [] && capacity == n
    {
      capacity, list, currentDue, ideal, stamp := n, [], 0, [], 0;
    }

    /** Where sys_timeout_abs inserts: the first later entry, or the end. */
    method FindPlace(time: u32, ghost due: int, ghost lo: int) returns (k: nat)
      requires Valid() && InWindow(ideal, lo) && time == Wrap(due) && lo <= due <= lo + MAX_TIMEOUT
      ensures k <= |list| && (forall i | 0 <= i < k :: ideal[i].due <= due) && (k < |list| ==> due < ideal[k].due)
    {
      if |list| == 0 {
        return 0;
      }
      WrappedOrder(due, ideal[0].due);
      if TimeLessThan(time, list[0].time) {
        return 0;
      }
      var t: nat := 0;
      while t + 1 < |list| && !TimeLessThan(time, list[t + 1].time)
        invariant t < |list| && forall i | 0 <= i <= t :: ideal[i].due <= due
      {
        t := t + 1;
        WrappedOrder(due, ideal[t].due);
      }
      if t + 1 < |list| {
        WrappedOrder(due, ideal[t + 1].due);
      }
      return t + 1;
    }

    /** sys_timeout_abs */
    method TimeoutAbs(time: u32, h: Handler, ghost due: int, ghost lo: int)
      requires Valid() && InWindow(ideal, lo) && time == Wrap(due) && lo <= due <= lo + MAX_TIMEOUT
      modifies `list, `ideal, `stamp
      ensures Valid() && InWindow(ideal, lo)
      ensures |old(list)| == capacity ==> list == old(list) && ideal == old(ideal) && stamp == old(stamp)
      ensures |old(list)| < capacity ==>
        ideal == StableInsert(old(ideal), Timer(due, old(stamp), h)) && stamp == old(stamp) + 1
    {
      if |list| == capacity {
        return;
      }
      var k := FindPlace(time, due, lo);
      ghost var t := Timer(due, stamp, h);
      StableInsertAt(ideal, t, k);
      StableInsertSorted(ideal, t);
      list := list[..k] + [Entry(time, h)] + list[k..];
      ideal := StableInsert(ideal, t);
      stamp := stamp + 1;
    }

    /** sys_timeout */
    method Timeout(msecs: nat, h: Handler, now: u32, ghost clock: int, ghost lo: int)
      requires Valid() && InWindow(ideal, lo) && now == Wrap(clock) && lo <= clock && clock + msecs <= lo + MAX_TIMEOUT
      modifies `list, `ideal, `stamp
      ensures Valid() && InWindow(ideal, lo)
      ensures |old(list)| == capacity ==> ideal == old(ideal) && stamp == old(stamp)
      ensures |old(list)| < capacity ==>
        ideal == StableInsert(old(ideal), Timer(clock + msecs, old(stamp), h)) && stamp == old(stamp) + 1
    {
      WrapAdd(clock, msecs);
      TimeoutAbs(Wrap(now + msecs), h, clock + msecs, lo);
    }

    /** sys_untimeout: remove the first entry with this handler and argument. */
    method Untimeout(h: Handler) returns (ghost k: nat)
      requires Valid()
      modifies `list, `ideal
      ensures Valid() && k <= |old(ideal)| && (forall i | 0 <= i < k :: old(ideal)[i].h != h)
      ensures k < |old(ideal)| ==> old(ideal)[k].h == h && ideal == old(ideal)[..k] + old(ideal)[k + 1..]
      ensures k == |old(ideal)| ==> ideal == old(ideal)
    {
      var t: nat := 0;
      while t < |list|
        invariant t <= |list| && forall i | 0 <= i < t :: ideal[i].h != h
        invariant list == old(list) && ideal == old(ideal)
      {
        if list[t].h == h {
          list := list[..t] + list[t + 1..];
          ideal := ideal[..t] + ideal[t + 1..];
          return t;
        }
        t := t + 1;
      }
      return t;
    }

    /** sys_restart_timeouts: the head is due now, all gaps and the order stay. */
    method RestartTimeouts(now: u32, ghost clock: int)
      requires Valid() && now == Wrap(clock)
      modifies `list, `ideal
      ensures Valid() && |ideal| == |old(ideal)|
      ensures forall i | 0 <= i < |ideal| ::
        ideal[i] == old(ideal)[i].(due := old(ideal)[i].due - old(ideal)[0].due + clock)
      ensures forall lo | InWindow(old(ideal), lo) :: InWindow(ideal, clock)
    {
      if |list| == 0 {
        return;
      }
      var base := list[0].time;
      var t: nat, out := 0, [];
      while t < |list|
        invariant t <= |list| == |old(list)| && |out| == t && list == old(list) && ideal == old(ideal)
        invariant forall i | 0 <= i < t :: out[i] == Entry(Wrap(ideal[i].due - ideal[0].due + clock), ideal[i].h)
      {
        WrapShift(ideal[t].due, ideal[0].due, clock);
        out := out + [Entry(Wrap(list[t].time - base + now), list[t].h)];
        t := t + 1;
      }
      list := out;
      ideal := Shifted(ideal, clock - ideal[0].due);
      assert forall i | 0 < i < |ideal| :: Before(old(ideal)[0], old(ideal)[i]);
    }

    /** sys_timeouts_sleeptime: exactly the time to the head's due time, 0 if that has passed. */
    method SleepTime(now: u32, ghost clock: int) returns (r: u32)
      requires Valid() && now == Wrap(clock)
      requires ideal != [] ==> -MAX_TIMEOUT <= ideal[0].due - clock <= MAX_TIMEOUT
      ensures ideal == [] ==> r == SLEEPTIME_INFINITE
      ensures ideal != [] ==> r == if ideal[0].due < clock then 0 else ideal[0].due - clock
    {
      if |list| == 0 {
        return SLEEPTIME_INFINITE;
      }
      WrappedOrder(ideal[0].due, clock);
      if TimeLessThan(list[0].time, now) {
        return 0;
      }
      WrapShift(ideal[0].due, clock, 0);
      return Wrap(list[0].time - now);
    }

    /**
     * lwip_cyclic_timer after its handler returned: re-arm relative to the due time, or to the clock when
     * overloaded.
     */
    method CyclicTimer(h: Handler, now: u32, ghost due: int, ghost clock: int, ghost lo: int)
      requires Valid() && InWindow(ideal, lo) && currentDue == Wrap(due) && now == Wrap(clock) && h.Cyclic?
      requires lo <= due <= clock && clock + h.interval <= lo + MAX_TIMEOUT
      modifies `list, `ideal, `stamp
      ensures Valid() && InWindow(ideal, lo)
      ensures |old(list)| == capacity ==> ideal == old(ideal) && stamp == old(stamp)
      ensures |old(list)| < capacity ==>
        && stamp == old(stamp) + 1
        && var next := if due + h.interval < clock then clock + h.interval else due + h.interval;
        ideal == StableInsert(old(ideal), Timer(next, old(stamp), h))
    {
      var next := Wrap(currentDue + h.interval);
      WrapAdd(due, h.interval);
      WrapAdd(clock, h.interval);
      WrappedOrder(due + h.interval, clock);
      if TimeLessThan(next, now) {
        TimeoutAbs(Wrap(now + h.interval), h, clock + h.interval, lo);
      } else {
        TimeoutAbs(next, h, due + h.interval, lo);
      }
    }

    /** One call a handler makes into this module. */
    method Perform(a: Action, now: u32, ghost c: Call)
      requires Valid() && InWindow(ideal, c.lo) && PositiveCycles(ideal, c.longest)
      requires now == Wrap(c.clock) && c.Ok() && GoodAction(a, c.longest)
      modifies `list, `ideal, `stamp
      ensures Valid() && InWindow(ideal, c.lo) && PositiveCycles(ideal, c.longest)
      ensures Grown(old(ideal), old(stamp), ideal, stamp, c.clock, if a.Cancel? then {a.h} else {})
      ensures Now() == Acted(old(Now()), a, c.clock, capacity)
    {
      match a
      case Arm(msecs, h) =>
        ghost var q, s := ideal, stamp;
        Timeout(msecs, h, now, c.clock, c.lo);
        StableInsertSorted(q, Timer(c.clock + msecs, s, h));
      case Cancel(h) =>
        ghost var q := ideal;
        ghost var k := Untimeout(h);
        CancelledAt(q, h, k);
        if k < |q| {
          RemovedOne(q, ideal, k);
        }
    }

    /** The calls one handler makes, at successive clock readings. */
    method PerformAll(acts: seq<Action>, clock: nat -> int, first: nat, ghost c: Call) returns (next: nat)
      requires Valid() && InWindow(ideal, c.lo) && PositiveCycles(ideal, c.longest)
      requires c.Ok() && Monotone(clock, c.lo, c.longest) && c.clock <= clock(first)
      requires forall i | 0 <= i < |acts| :: GoodAction(acts[i], c.longest)
      modifies `list, `ideal, `stamp
      ensures Valid() && InWindow(ideal, c.lo) && PositiveCycles(ideal, c.longest) && first <= next
      ensures Grown(old(ideal), old(stamp), ideal, stamp, c.clock, CancelSet(acts))
      ensures next == first + |acts| && Now() == ActedAll(old(Now()), acts, clock, first, capacity)
    {
      next := first;
      var i: nat := 0;
      while i < |acts|
        invariant i <= |acts| && next == first + i
        invariant Valid() && InWindow(ideal, c.lo) && PositiveCycles(ideal, c.longest)
        invariant Grown(old(ideal), old(stamp), ideal, stamp, c.clock, CancelSet(acts))
        invariant Now() == ActedAll(old(Now()), acts[..i], clock, first, capacity)
      {
        PerformNext(acts, i, clock, first, c, old(Now()));
        i := i + 1;
        next := next + 1;
      }
      assert acts[..i] == acts;
    }

    /** Perform as one more action after the first i, which started from moment m. */
    method PerformNext(acts: seq<Action>, i: nat, clock: nat -> int, first: nat, ghost c: Call, ghost m: Moment)
      requires Valid() && InWindow(ideal, c.lo) && PositiveCycles(ideal, c.longest) && i < |acts|
      requires c.Ok() && Monotone(clock, c.lo, c.longest) && c.clock <= clock(first) && GoodAction(acts[i], c.longest)
      requires Grown(m.q, m.stamp, ideal, stamp, c.clock, CancelSet(acts))
      requires Now() == ActedAll(m, acts[..i], clock, first, capacity)
      modifies `list, `ideal, `stamp
      ensures Valid() && InWindow(ideal, c.lo) && PositiveCycles(ideal, c.longest)
      ensures Grown(m.q, m.stamp, ideal, stamp, c.clock, CancelSet(acts))
      ensures Now() == ActedAll(m, acts[..i + 1], clock, first, capacity)
    {
      var at := clock(first + i);
      Perform(acts[i], Wrap(at), Call(at, c.lo, c.longest));
      GrownNext(m, old(Now()), Now(), acts, i, c.clock, at);
      ActedNext(m, acts, clock, first, capacity, i);
    }

    /** Running the handler of the timer `f` that was just taken off the list. */
    method RunHandler(h: Handler, acts: seq<Action>, clock: nat -> int, first: nat, ghost f: Timer, ghost c: Call)
      returns (next: nat)
      requires Valid() && InWindow(ideal, c.lo) && PositiveCycles(ideal, c.longest)
      requires c.Ok() && Monotone(clock, c.lo, c.longest) && c.clock <= clock(first)
      requires forall i | 0 <= i < |acts| :: GoodAction(acts[i], c.longest)
      requires f.h == h && currentDue == Wrap(f.due) && c.lo <= f.due <= c.clock && f.stamp < stamp
      requires GoodHandler(h, c.longest) && |list| < capacity
      modifies `list, `ideal, `stamp
      ensures Valid() && InWindow(ideal, c.lo) && PositiveCycles(ideal, c.longest) && first <= next
      ensures Follows(old(ideal), old(stamp), ideal, stamp, f, CancelSet(acts))
      ensures next == first + Readings(f, acts) && Now() == Handled(old(Now()), f, acts, clock, first, capacity)
    {
      if h == NoHandler {
        return first;
      }
      ghost var q0, s0 := ideal, stamp;
      next := PerformAll(acts, clock, first, c);
      GrownFollows(q0, s0, ideal, stamp, c.clock, f, CancelSet(acts));
      if h.Cyclic? {
        Rearm(h, Wrap(clock(next)), f, Call(clock(next), c.lo, c.longest), q0, s0, CancelSet(acts));
        next := next + 1;
      }
    }

    /** CyclicTimer for timer f, after a handler run from queue q0 with s0 timers armed before. */
    method Rearm(h: Handler, now: u32, ghost f: Timer, ghost c: Call, ghost q0: seq<Timer>, ghost s0: nat,
                 ghost gone: set<Handler>)
      requires Valid() && InWindow(ideal, c.lo) && PositiveCycles(ideal, c.longest) && now == Wrap(c.clock) && c.Ok()
      requires h.Cyclic? && f.h == h && GoodHandler(h, c.longest)
      requires currentDue == Wrap(f.due) && c.lo <= f.due <= c.clock
      requires Follows(q0, s0, ideal, stamp, f, gone)
      modifies `list, `ideal, `stamp
      ensures Valid() && InWindow(ideal, c.lo) && PositiveCycles(ideal, c.longest)
      ensures Follows(q0, s0, ideal, stamp, f, gone)
      ensures Now() == Armed(old(Now()), NextDue(f.due, h.interval, c.clock), h, capacity)
    {
      CyclicTimer(h, now, f.due, c.clock, c.lo);
      StableInsertSorted(old(ideal), Rearmed(f, c.clock, old(stamp)));
    }

    /** One round of sys_check_timeouts: take the expired head off the list and run its handler. */
    method FireHead(acts: seq<Action>, clock: nat -> int, first: nat, ghost c: Call) returns (next: nat, ghost f: Timer)
      requires Valid() && InWindow(ideal, c.lo) && PositiveCycles(ideal, c.longest) && ideal != []
      requires c.Ok() && Monotone(clock, c.lo, c.longest) && c.clock <= clock(first) && ideal[0].due <= c.clock
      requires forall i | 0 <= i < |acts| :: GoodAction(acts[i], c.longest)
      modifies `list, `ideal, `stamp, `currentDue
      ensures Valid() && InWindow(ideal, c.lo) && PositiveCycles(ideal, c.longest) && first <= next
      ensures f == old(ideal)[0] && Follows(old(ideal)[1..], old(stamp), ideal, stamp, f, CancelSet(acts))
      ensures forall x | x in ideal :: Before(f, x)
      ensures acts == [] ==> Cycled(old(ideal), ideal, clock(first))
      ensures next == first + Readings(f, acts)
      ensures Now() == Handled(Moment(old(ideal)[1..], old(stamp)), f, acts, clock, first, capacity)
    {
      var e := list[0];
      f := ideal[0];
      forall x | x in ideal[1..]
        ensures x in ideal && Before(f, x)
      {
        var i :| 0 <= i < |ideal[1..]| && ideal[1..][i] == x;
        assert ideal[i + 1] == x;
      }
      list, ideal, currentDue := list[1..], ideal[1..], e.time;
      next := RunHandler(e.h, acts, clock, first, f, c);
      HandledAlone(Moment(old(ideal)[1..], old(stamp)), f, clock, first, capacity);
    }

    /**
     * sys_check_timeouts. `script[k]` is what the k-th handler run does with this module besides re-arming itself;
     * `fired` lists the timers whose handler ran, `trace` and `at` the queue and the clock reading before each round.
     */
    method CheckTimeouts(script: seq<seq<Action>>, clock: nat -> int, ghost lo: int, ghost longest: nat)
      returns (ghost fired: seq<Timer>, ghost trace: seq<Moment>, ghost at: seq<nat>)
      requires Valid() && InWindow(ideal, lo) && PositiveCycles(ideal, longest)
      requires Monotone(clock, lo, longest) && GoodScript(script, longest)
      modifies `list, `ideal, `stamp, `currentDue
      ensures Valid() && InWindow(ideal, lo) && PositiveCycles(ideal, longest)
      ensures Sorted(fired)
      ensures forall x | x in fired :: x.due <= clock(0)
      ensures forall x | x in ideal :: clock(0) < x.due
      ensures Conserved(old(ideal), old(stamp), fired, ideal, CancelAll(script))
      ensures Rounds(trace, at, fired, script, clock, capacity) && trace[0] == old(Now()) && trace[|fired|] == Now()
      ensures script == [] ==> CyclesKept(old(ideal), fired, ideal, clock(0))
      ensures script == [] ==> forall a: nat | Single(old(ideal), a) :: CountOf(fired, a) <= 2
    {
      fired, trace, at := [], [Now()], [1];
      ProgressStart(Now(), script, clock, capacity);
      var now := Wrap(clock(0));
      var next: nat, p: nat := 1, 0;
      ghost var c := Call(clock(0), lo, longest);
      while |list| > 0 && !TimeLessThan(now, list[0].time)
        invariant Valid() && InWindow(ideal, lo) && PositiveCycles(ideal, longest) && 1 <= next
        invariant p == if |fired| < |script| then |fired| else |script|
        invariant Progress(old(Now()), fired, trace, at, Now(), next, script, clock, capacity)
        decreases |script| - p, TotalFires(ideal, clock(0))
      {
        ghost var m, first := Now(), next;
        WrappedOrder(clock(0), ideal[0].due);
        var acts := if p < |script| then script[p] else [];
        ghost var f;
        next, f := FireHead(acts, clock, next, c);
        ProgressStep(old(Now()), fired, trace, at, m, first, script, clock, capacity, f, Now(), next);
        fired, trace, at := fired + [f], trace + [Now()], at + [next];
        p := if p < |script| then p + 1 else p;
      }
      if |list| > 0 {
        WrappedOrder(clock(0), ideal[0].due);
        forall x | x in ideal
          ensures clock(0) < x.due
        {
          if x != ideal[0] {
            HeadIsMinimum(ideal, x);
          }
        }
      }
      forall a: nat | Single(old(ideal), a)
        ensures FiresOf(old(ideal), clock(0), a) <= 2
      {
        AtMostTwo(old(ideal), clock(0), a);
      }
    }
  }

  function Shifted(q: seq<Timer>, d: int): (r: seq<Timer>)
    ensures |r| == |q| && forall i | 0 <= i < |q| :: r[i] == q[i].(due := q[i].due + d)
  {
    seq(|q|, i requires 0 <= i < |q| => q[i].(due := q[i].due + d))
  }
}
