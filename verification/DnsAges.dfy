/**
 * How old completed entries are: the u8_t sequence numbers of core/dns.c against a count of all queries ever opened,
 * and the requests that a table with completed entries turns away.
 */
module DnsAges {
  import opened Common
  import opened DnsModel
  import opened DnsRuns

  /** A run with the number of queries opened so far and, for each entry, how many had been opened before its own. */
  datatype Aged = Aged(w: World, total: nat, births: seq<nat>)

  /** The request of e finds no query for its name under way and has what it takes to open one if there is an entry. */
  predicate WantsEntry(w: World, e: Event) {
    && e.Ask? && e.pcbOk && ServerSet(w, 0) && FreeReq(w.reqs, 0) < |w.reqs|
    && Duplicate(w.table, e.name, e.family, 0) == |w.table|
  }

  ghost predicate Opens(w: World, e: Event) { Enabled(w, e) && WantsEntry(w, e) && Pick(w) < |w.table| }

  ghost function AgedStep(a: Aged, e: Event): Aged {
    if Opens(a.w, e) && Pick(a.w) < |a.births| then
      Aged(Step(a.w, e), a.total + 1, a.births[Pick(a.w) := a.total])
    else Aged(Step(a.w, e), a.total, a.births)
  }

  ghost function AgedRun(a: Aged, es: seq<Event>): Aged
    decreases |es|
  {
    if es == [] then a else AgedRun(AgedStep(a, es[0]), es[1..])
  }

  function AgedInit(entries: nat, requests: nat, servers: nat): Aged {
    Aged(Init(entries, requests, servers), 0, seq(entries, _ => 0))
  }

  /** Counting does not change the run. */
  lemma {:induction false} AgedRunIsRun(a: Aged, es: seq<Event>)
    ensures AgedRun(a, es).w == Run(a.w, es)
    decreases |es|
  {
    if es != [] {
      AgedRunIsRun(AgedStep(a, es[0]), es[1..]);
    }
  }

  // ---- the sequence numbers are the counts modulo 256 ----

  /** Entry k, if in use, was opened before now, and its seqno is the count of that time. */
  predicate AgeAt(w: World, total: nat, births: seq<nat>, k: nat)
    requires k < |w.table| == |births|
  {
    !w.table[k].state.Unused? ==> births[k] < total && w.table[k].seqno == births[k] % 0x100
  }

  ghost predicate AgesOk(w: World, total: nat, births: seq<nat>) {
    && |births| == |w.table| && w.seqno == total % 0x100
    && forall k | 0 <= k < |w.table| :: AgeAt(w, total, births, k)
  }

  /** No entry comes into use, and the others keep their sequence numbers. */
  ghost predicate NoneOpened(v: World, w: World) {
    && |w.table| == |v.table| && w.seqno == v.seqno
    && forall k | 0 <= k < |w.table| && !w.table[k].state.Unused? ::
         !v.table[k].state.Unused? && w.table[k].seqno == v.table[k].seqno
  }

  lemma NoneOpenedAges(v: World, w: World, total: nat, births: seq<nat>)
    requires AgesOk(v, total, births) && NoneOpened(v, w)
    ensures AgesOk(w, total, births)
  {
    forall k | 0 <= k < |w.table|
      ensures AgeAt(w, total, births, k)
    {
      assert AgeAt(v, total, births, k);
    }
  }

  lemma NoneOpenedTrans(u: World, v: World, w: World)
    requires NoneOpened(u, v) && NoneOpened(v, w)
    ensures NoneOpened(u, w)
  {
  }

  lemma SetNotOpened(w: World, i: nat, e: Entry)
    requires i < |w.table| && (!e.state.Unused? ==> !w.table[i].state.Unused? && e.seqno == w.table[i].seqno)
    ensures NoneOpened(w, SetEntry(w, i, e))
  {
  }

  lemma FailNotOpened(w: World, i: nat)
    requires i < |w.table|
    ensures NoneOpened(w, Fail(w, i))
  {
  }

  lemma SentNotOpened(w: World, i: nat, e: Entry)
    requires i < |w.table| && (!e.state.Unused? ==> !w.table[i].state.Unused? && e.seqno == w.table[i].seqno)
    ensures NoneOpened(w, Send(SetEntry(w, i, e), i))
  {
    SetNotOpened(w, i, e);
    FailNotOpened(SetEntry(w, i, e), i);
    NoneOpenedTrans(w, SetEntry(w, i, e), Fail(SetEntry(w, i, e), i));
  }

  lemma CheckNotOpened(w: World, i: nat, txid: u16)
    requires i < |w.table|
    ensures NoneOpened(w, CheckEntry(w, i, txid))
  {
    var e := w.table[i];
    match e.state {
      case New => SentNotOpened(w, i, e.(txid := txid, state := Asking, server := 0, tmr := 1, retries := 0));
      case Asking => AskingNotOpened(w, i);
      case Done =>
      case Unused =>
    }
  }

  lemma AskingNotOpened(w: World, i: nat)
    requires i < |w.table| && w.table[i].state.Asking?
    ensures NoneOpened(w, CheckAsking(w, i))
  {
    var e := w.table[i];
    var tmr, retries := (e.tmr - 1) % 0x100, (e.retries + 1) % 0x100;
    SentNotOpened(w, i, e.(server := e.server + 1, tmr := 1, retries := 0));
    SentNotOpened(w, i, e.(tmr := retries, retries := retries));
    GivenUpNotOpened(w, i, e.(tmr := 0, retries := retries));
  }

  lemma GivenUpNotOpened(w: World, i: nat, e: Entry)
    requires i < |w.table| && !w.table[i].state.Unused? && e.seqno == w.table[i].seqno
    ensures NoneOpened(w, Fail(SetEntry(w, i, e), i))
  {
    SetNotOpened(w, i, e);
    FailNotOpened(SetEntry(w, i, e), i);
    NoneOpenedTrans(w, SetEntry(w, i, e), Fail(SetEntry(w, i, e), i));
  }

  lemma {:induction false} TickNotOpened(w: World, n: nat)
    requires n <= |w.table|
    ensures NoneOpened(w, TickTo(w, n))
  {
    if n > 0 {
      TickNotOpened(w, n - 1);
      CheckNotOpened(TickTo(w, n - 1), n - 1, 0);
      NoneOpenedTrans(w, TickTo(w, n - 1), TickTo(w, n));
    }
  }

  lemma VerdictNotOpened(w: World, i: nat, v: Verdict, txid: u16)
    requires i < |w.table| && w.table[i].state.Asking?
    ensures NoneOpened(w, OnVerdict(w, i, v, txid))
  {
    var e := w.table[i];
    match v {
      case Ignored =>
      case ServerError =>
        FailNotOpened(w, i);
        CheckNotOpened(SetEntry(w, i, e.(retries := MAX_RETRIES - 1, tmr := 1)), i, txid);
      case NoAnswer =>
        FailNotOpened(w, i);
        CheckNotOpened(SetEntry(w, i, e.(family := OtherFamily(e.family), state := New)), i, txid);
      case Answer(ttl, addr) =>
    }
  }

  /** A new query carries the count of its time. */
  lemma OpenedAges(w: World, name: nat, family: Family, tok: nat, r: nat, i: nat, total: nat, births: seq<nat>)
    requires AgesOk(w, total, births) && r < |w.reqs| && i < |w.table|
    ensures AgesOk(Opened(w, name, family, tok, r, i), total + 1, births[i := total])
  {
    var v, n, bs := Opened(w, name, family, tok, r, i), total + 1, births[i := total];
    forall k | 0 <= k < |v.table|
      ensures AgeAt(v, n, bs, k)
    {
      assert AgeAt(w, total, births, k);
    }
  }

  lemma AskAges(a: Aged, e: Event)
    requires AgesOk(a.w, a.total, a.births) && e.Ask? && Enabled(a.w, e)
    ensures var b := AgedStep(a, e); AgesOk(b.w, b.total, b.births)
  {
    var w, r, i := a.w, FreeReq(a.w.reqs, 0), Pick(a.w);
    if Opens(w, e) {
      OpenedAges(w, e.name, e.family, e.tok, r, i, a.total, a.births);
      var v := Opened(w, e.name, e.family, e.tok, r, i);
      CheckNotOpened(v, i, e.txid);
      NoneOpenedAges(v, CheckEntry(v, i, e.txid), a.total + 1, a.births[i := a.total]);
    } else {
      NoneOpenedAges(w, Step(w, e), a.total, a.births);
    }
  }

  lemma StepAges(a: Aged, e: Event)
    requires AgesOk(a.w, a.total, a.births)
    ensures var b := AgedStep(a, e); AgesOk(b.w, b.total, b.births)
  {
    if Enabled(a.w, e) && e.Ask? {
      AskAges(a, e);
    } else if Enabled(a.w, e) {
      match e {
        case Tick => TickNotOpened(a.w, |a.w.table|);
        case Packet(id, v, txid) =>
          var i := AskingWith(a.w.table, id, 0);
          if i < |a.w.table| {
            VerdictNotOpened(a.w, i, v, txid);
          }
        case SetServer(k, valid) =>
      }
      NoneOpenedAges(a.w, Step(a.w, e), a.total, a.births);
    }
  }

  lemma {:induction false} AgedRunAges(a: Aged, es: seq<Event>)
    requires AgesOk(a.w, a.total, a.births)
    ensures var b := AgedRun(a, es); AgesOk(b.w, b.total, b.births)
    decreases |es|
  {
    if es != [] {
      StepAges(a, es[0]);
      AgedRunAges(AgedStep(a, es[0]), es[1..]);
    }
  }

  /**
   * Over every run, dns_seqno counts the queries opened and each entry in use remembers the count of its own, modulo
   * 256.
   */
  lemma SeqnoCounts(entries: nat, requests: nat, servers: nat, es: seq<Event>)
    ensures var a := AgedRun(AgedInit(entries, requests, servers), es);
      a.w == Run(Init(entries, requests, servers), es) && AgesOk(a.w, a.total, a.births)
  {
    var a := AgedInit(entries, requests, servers);
    AgedRunIsRun(a, es);
    AgedRunAges(a, es);
  }

  // ---- requests turned away by a table that holds completed entries ----

  /** Entry k is of no use to a new request: a query under way, or completed a multiple of 256 queries ago. */
  predicate Blocked(a: Aged, k: nat)
    requires k < |a.w.table| == |a.births|
  {
    !a.w.table[k].state.Unused? && (a.w.table[k].state.Done? ==> (a.total - a.births[k]) % 0x100 == 0)
  }

  lemma BlockedBySeqno(a: Aged, k: nat)
    requires AgesOk(a.w, a.total, a.births) && k < |a.w.table|
    ensures Blocked(a, k) <==>
      !a.w.table[k].state.Unused? && (a.w.table[k].state.Done? ==> (a.w.seqno - a.w.table[k].seqno) % 0x100 == 0)
    ensures Blocked(a, k) && a.w.table[k].state.Done? ==> a.total - a.births[k] >= 0x100
  {
    assert AgeAt(a.w, a.total, a.births, k);
    DifferenceOfRemainders(a.total, a.births[k]);
  }

  lemma DifferenceOfRemainders(x: nat, y: nat)
    ensures (x % 0x100 - y % 0x100) % 0x100 == (x - y) % 0x100
  {
  }

  /**
   * A request that wants an entry of its own is refused after a run exactly when every entry is under way or was
   * opened a positive multiple of 256 queries ago, since its age is computed in a u8_t and an age of 0 is not taken.
   */
  lemma TurnedAwayIff(entries: nat, requests: nat, servers: nat, es: seq<Event>, e: Event)
    requires var w := Run(Init(entries, requests, servers), es); Enabled(w, e) && WantsEntry(w, e)
    ensures var a := AgedRun(AgedInit(entries, requests, servers), es);
      && a.w == Run(Init(entries, requests, servers), es) && |a.births| == |a.w.table|
      && (!Request(a.w, e.name, e.family, e.tok, e.pcbOk, e.txid).1
          <==> forall k | 0 <= k < |a.w.table| :: Blocked(a, k))
      && (forall k | 0 <= k < |a.w.table| && Blocked(a, k) && a.w.table[k].state.Done? ::
            a.total - a.births[k] >= 0x100)
  {
    SeqnoCounts(entries, requests, servers, es);
    var a := AgedRun(AgedInit(entries, requests, servers), es);
    PickFails(a.w);
    forall k | 0 <= k < |a.w.table|
      ensures Blocked(a, k) <==>
        !a.w.table[k].state.Unused? && (a.w.table[k].state.Done? ==> (a.w.seqno - a.w.table[k].seqno) % 0x100 == 0)
      ensures Blocked(a, k) && a.w.table[k].state.Done? ==> a.total - a.births[k] >= 0x100
    {
      BlockedBySeqno(a, k);
    }
  }

  // ---- a run that gets there ----

  const LONG: u32 := MAX_TTL

  /** Before the first query in a table of two, with one server. */
  ghost predicate Fresh(w: World) {
    && |w.table| == 2 && w.table[0].state.Unused? && w.table[1].state.Unused?
    && |w.reqs| == 2 && w.reqs[0].found.None? && w.reqs[1].found.None?
    && w.servers == [true] && w.seqno == 0 && w.accepted == {}
  }

  /** After k queries: the first one is completed and cached for a week, the other entry is free again. */
  ghost predicate Stage(w: World, k: nat) {
    && |w.table| == 2 && w.table[0].state.Done? && w.table[0].seqno == 0 && w.table[0].ttl == LONG
    && w.table[1].state.Unused?
    && |w.reqs| == 2 && w.reqs[0].found.None? && w.reqs[1].found.None?
    && w.servers == [true] && w.seqno == k % 0x100 && forall t | t in w.accepted :: t < k
  }

  /** Query k waits for its answer in entry i. */
  ghost predicate Waiting(w: World, k: nat, i: nat) {
    && |w.table| == 2 && i < 2 && w.table[i].state.Asking? && w.table[i].txid == 0 && w.table[i].name == k
    && w.table[i].family == V4 && w.table[i].seqno == k % 0x100
    && (if i == 0 then w.table[1].state.Unused?
        else w.table[0].state.Done? && w.table[0].seqno == 0 && w.table[0].ttl == LONG)
    && |w.reqs| == 2 && w.reqs[0].found.Some? && w.reqs[0].idx == i && w.reqs[1].found.None?
    && w.servers == [true] && w.seqno == (k + 1) % 0x100 && forall t | t in w.accepted :: t < k + 1
  }

  /** Query k is asked for, and what comes back may be cached for ttl seconds. */
  function AskFor(k: nat): Event { Ask(k, V4, k, true, 0) }

  function Reply(ttl: u32): Event { Packet(0, Answer(ttl, 0), 0) }

  lemma FirstAsked(w: World)
    requires Fresh(w)
    ensures Waiting(Step(w, AskFor(0)), 0, 0)
  {
    assert Duplicate(w.table, 0, V4, 0) == 2 && FreeReq(w.reqs, 0) == 0;
    assert FirstUnused(w.table, 0) == 0 && Pick(w) == 0;
  }

  lemma FirstAnswered(w: World)
    requires Waiting(w, 0, 0)
    ensures Stage(Step(w, Reply(LONG)), 1)
  {
    assert AskingWith(w.table, 0, 0) == 0;
  }

  lemma Asked(w: World, k: nat)
    requires Stage(w, k)
    ensures Waiting(Step(w, AskFor(k)), k, 1)
  {
    assert Duplicate(w.table, k, V4, 0) == 2 && FreeReq(w.reqs, 0) == 0;
    assert FirstUnused(w.table, 0) == 1 && Pick(w) == 1;
  }

  lemma Answered(w: World, k: nat)
    requires Waiting(w, k, 1)
    ensures Stage(Step(w, Reply(0)), k + 1)
  {
    assert AskingWith(w.table, 0, 0) == 1;
  }

  lemma RunTwo(w: World, e: Event, f: Event, rest: seq<Event>)
    ensures Run(w, [e, f] + rest) == Run(Step(Step(w, e), f), rest)
  {
    assert ([e, f] + rest)[1..] == [f] + rest && ([f] + rest)[1..] == rest;
  }

  /**
   * Queries k to n - 1, each answered at once with an address that must not be cached; query n is left without
   * answer.
   */
  function Rounds(k: nat, n: nat): seq<Event>
    requires k <= n
    decreases n - k
  {
    if k == n then [AskFor(n)] else [AskFor(k), Reply(0)] + Rounds(k + 1, n)
  }

  lemma {:induction false} RoundsWaiting(w: World, k: nat, n: nat)
    requires Stage(w, k) && k <= n
    ensures Waiting(Run(w, Rounds(k, n)), n, 1)
    decreases n - k
  {
    Asked(w, k);
    if k < n {
      Answered(Step(w, AskFor(k)), k);
      RunTwo(w, AskFor(k), Reply(0), Rounds(k + 1, n));
      RoundsWaiting(Step(Step(w, AskFor(k)), Reply(0)), k + 1, n);
    } else {
      assert [AskFor(n)][1..] == [];
    }
  }

  function LongRun(): seq<Event> { [SetServer(0, true)] + ([AskFor(0), Reply(LONG)] + Rounds(1, 255)) }

  lemma LongRunWaiting()
    ensures Waiting(Run(Init(2, 2, 1), LongRun()), 255, 1)
  {
    var w, es := Init(2, 2, 1), [AskFor(0), Reply(LONG)] + Rounds(1, 255);
    assert LongRun()[1..] == es;
    var v := Step(w, SetServer(0, true));
    assert Fresh(v);
    FirstAsked(v);
    FirstAnswered(Step(v, AskFor(0)));
    RunTwo(v, AskFor(0), Reply(LONG), Rounds(1, 255));
    RoundsWaiting(Step(Step(v, AskFor(0)), Reply(LONG)), 1, 255);
  }

  /**
   * A run after which a request is turned away although entry 0 holds a completed query that could make room: 256
   * queries were opened since, one of them still under way in entry 1.
   */
  lemma TurnedAway(e: Event)
    requires e == Ask(256, V4, 256, true, 1)
    ensures var w := Run(Init(2, 2, 1), LongRun());
      && Enabled(w, e) && WantsEntry(w, e) && |w.table| == 2 && w.table[0].state.Done? && w.table[1].state.Asking?
      && !Request(w, e.name, e.family, e.tok, e.pcbOk, e.txid).1
  {
    LongRunWaiting();
    Refused(Run(Init(2, 2, 1), LongRun()), e);
  }

  lemma Refused(w: World, e: Event)
    requires Waiting(w, 255, 1) && e == Ask(256, V4, 256, true, 1)
    ensures Enabled(w, e) && WantsEntry(w, e) && !Request(w, e.name, e.family, e.tok, e.pcbOk, e.txid).1
  {
    assert Duplicate(w.table, 256, V4, 0) == 2 && FreeReq(w.reqs, 0) == 1;
    assert FirstUnused(w.table, 0) == 2;
    assert Oldest(w.table, 0, 1) == 2 && Oldest(w.table, 0, 2) == 2;
  }
}
