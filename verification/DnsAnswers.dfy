/**
 * What the resolver makes of each kind of packet and of time: which callbacks are made with which address, what the
 * query does next, and how long an answer stays in the table.
 */
module DnsAnswers {
  import opened Common
  import opened DnsModel
  import opened DnsRuns

  // ---- callbacks ----

  /** These calls are one for each request that waits for entry i, all with this name and address. */
  ghost predicate AllTold(reqs: seq<Req>, i: nat, name: nat, addr: Option<nat>, calls: seq<Call>) {
    && (forall r | 0 <= r < |reqs| && IsFor(reqs[r], i) :: Call(reqs[r].found.value, name, addr) in calls)
    && (forall c | c in calls ::
          && c.name == name && c.addr == addr
          && exists r :: 0 <= r < |reqs| && reqs[r] == Req(Some(c.tok), i))
    && |calls| == Waiting(reqs, i)
  }

  /** From w to v the waiting requests of entry i were called back, and nobody else. */
  ghost predicate CalledBack(w: World, i: nat, v: World, addr: Option<nat>)
    requires i < |w.table|
  {
    w.called <= v.called && AllTold(w.reqs, i, w.table[i].name, addr, v.called[|w.called|..])
  }

  /** Requests that wait for entry i. */
  function Waiting(reqs: seq<Req>, i: nat): nat {
    if reqs == [] then 0 else Waiting(reqs[1..], i) + if reqs[0].found.Some? && reqs[0].idx == i then 1 else 0
  }

  lemma {:induction false} WaitingSnoc(reqs: seq<Req>, i: nat)
    requires reqs != []
    ensures Waiting(reqs, i)
      == Waiting(reqs[..|reqs| - 1], i) + if IsFor(reqs[|reqs| - 1], i) then 1 else 0
  {
    var n := |reqs| - 1;
    if n > 0 {
      WaitingSnoc(reqs[1..], i);
      assert reqs[1..][..n - 1] == reqs[..n][1..];
    }
  }

  lemma {:induction false} CallsMembers(reqs: seq<Req>, i: nat, name: nat, addr: Option<nat>)
    ensures forall r | 0 <= r < |reqs| && IsFor(reqs[r], i) ::
      Call(reqs[r].found.value, name, addr) in Calls(reqs, i, name, addr)
    ensures forall c | c in Calls(reqs, i, name, addr) ::
      c.name == name && c.addr == addr && exists r :: 0 <= r < |reqs| && reqs[r] == Req(Some(c.tok), i)
    ensures |Calls(reqs, i, name, addr)| == Waiting(reqs, i)
  {
    if reqs != [] {
      var n := |reqs| - 1;
      CallsMembers(reqs[..n], i, name, addr);
      WaitingSnoc(reqs, i);
      forall c | c in Calls(reqs, i, name, addr)
        ensures c.name == name && c.addr == addr && exists r :: 0 <= r < |reqs| && reqs[r] == Req(Some(c.tok), i)
      {
        if c in Calls(reqs[..n], i, name, addr) {
          var r :| 0 <= r < n && reqs[..n][r] == Req(Some(c.tok), i);
          assert reqs[r] == Req(Some(c.tok), i);
        } else {
          assert reqs[n] == Req(Some(c.tok), i);
        }
      }
    }
  }

  lemma CallFoundCallsBack(w: World, i: nat, addr: Option<nat>)
    requires i < |w.table|
    ensures CalledBack(w, i, CallFound(w, i, addr), addr)
  {
    CallsMembers(w.reqs, i, w.table[i].name, addr);
    assert CallFound(w, i, addr).called[|w.called|..] == Calls(w.reqs, i, w.table[i].name, addr);
  }

  /** It does not matter if the other fields of the entry change before. */
  lemma EntryCallsBack(w: World, i: nat, e: Entry, addr: Option<nat>)
    requires i < |w.table| && e.name == w.table[i].name
    ensures CalledBack(w, i, CallFound(SetEntry(w, i, e), i, addr), addr)
  {
    CallFoundCallsBack(SetEntry(w, i, e), i, addr);
  }

  /** The request slots of entry i are free afterwards, all others as before. */
  ghost predicate Settled(w: World, v: World, i: nat) {
    && |v.reqs| == |w.reqs|
    && forall r | 0 <= r < |w.reqs| ::
         if w.reqs[r].found.Some? && w.reqs[r].idx == i then v.reqs[r].found == None else v.reqs[r] == w.reqs[r]
  }

  /** Only entry i, the requests and the callbacks may have changed. */
  ghost predicate OnlyEntry(w: World, v: World, i: nat) {
    && |v.table| == |w.table| && v.servers == w.servers && v.seqno == w.seqno && v.accepted == w.accepted
    && forall k | 0 <= k < |w.table| && k != i :: v.table[k] == w.table[k]
  }

  /** The query is over without an answer: every waiting request is told so, and the entry is free. */
  ghost predicate Failed(w: World, v: World, i: nat)
    requires i < |w.table|
  {
    && OnlyEntry(w, v, i) && v.table[i].state == Unused && v.sent == w.sent
    && CalledBack(w, i, v, None) && Settled(w, v, i)
  }

  lemma FailFails(w: World, i: nat, e: Entry)
    requires i < |w.table| && e.name == w.table[i].name
    ensures Failed(w, Fail(SetEntry(w, i, e), i), i)
  {
    EntryCallsBack(w, i, e, None);
  }

  /** The query goes on as entry e; nobody is called. */
  ghost predicate Stays(w: World, v: World, i: nat, e: Entry) {
    && OnlyEntry(w, v, i) && v.called == w.called && v.reqs == w.reqs
    && i < |v.table| && v.table[i] == e && e.state == Asking
  }

  /** One query has been sent, the one of entry e. */
  predicate Sent(w: World, v: World, e: Entry) {
    v.sent == w.sent + [Query(e.name, e.family == V6 || e.family == V6ThenV4, e.server, e.txid)]
  }

  /** The query goes on as entry e, which has been sent to its server. */
  ghost predicate GoesOn(w: World, v: World, i: nat, e: Entry) { Stays(w, v, i, e) && Sent(w, v, e) }

  lemma SendGoesOn(w: World, i: nat, e: Entry)
    requires i < |w.table| && e.state.Asking? && e.name == w.table[i].name
    ensures SentOrFailed(w, Send(SetEntry(w, i, e), i), i, e)
  {
    FailFails(w, i, e);
  }

  // ---- packets ----

  /** The outstanding query with this id. */
  ghost predicate Asks(w: World, id: u16, i: nat) {
    i == AskingWith(w.table, id, 0) && i < |w.table|
  }

  /** A packet whose id is not outstanding, or that is not a proper response, changes nothing. */
  lemma IgnoredPacket(w: World, id: u16, v: Verdict, txid: u16)
    requires v.Ignored? || forall k | 0 <= k < |w.table| :: !(w.table[k].state.Asking? && w.table[k].txid == id)
    ensures Receive(w, id, v, txid) == w
  {
  }

  /**
   * A good answer: every waiting request is called back with the address, and the entry keeps it for its time to live,
   * a week at most, or not at all if that is 0.
   */
  lemma AnswerDelivered(w: World, id: u16, ttl: u32, addr: nat, txid: u16, i: nat)
    requires Asks(w, id, i)
    ensures var v := Receive(w, id, Answer(ttl, addr), txid);
      && OnlyEntry(w, v, i) && Settled(w, v, i) && CalledBack(w, i, v, Some(addr))
      && v.sent == w.sent
      && (ttl == 0 ==> v.table[i].state == Unused)
      && (ttl > 0 ==>
            && v.table[i].state == Done && v.table[i].addr == addr && v.table[i].name == w.table[i].name
            && v.table[i].ttl == (if ttl <= 604800 then ttl else 604800)
            && v.table[i].family == (if w.table[i].family.V6? || w.table[i].family.V6ThenV4? then V6 else V4))
  {
    var kept := if ttl > MAX_TTL then MAX_TTL else ttl;
    EntryCallsBack(w, i, w.table[i].(state := Done, ttl := kept, addr := addr), Some(addr));
  }

  /** A server error: the same query goes to the next server, if there is one; otherwise it has failed. */
  lemma ServerErrorMovesOn(w: World, id: u16, txid: u16, i: nat)
    requires Inv(w) && Asks(w, id, i)
    ensures var e := w.table[i];
      SentOrFailed(w, Receive(w, id, ServerError, txid), i, e.(server := e.server + 1, tmr := 1, retries := 0))
  {
    var e := w.table[i];
    if ServerSet(w, e.server + 1) {
      ServerErrorIs(w, i, txid);
      SendGoesOn(w, i, e.(server := e.server + 1, tmr := 1, retries := 0));
    } else {
      FailFails(w, i, e);
      assert Receive(w, id, ServerError, txid) == Fail(w, i) && SetEntry(w, i, e) == w;
    }
  }

  /**
   * No usable answer: a request for either family now asks for the other one, from the first server on and under a new
   * id; a request for one family, or for its second choice, has failed.
   */
  lemma NoAnswerFallsBack(w: World, id: u16, txid: u16, i: nat)
    requires Asks(w, id, i)
    ensures var v, e := Receive(w, id, NoAnswer, txid), w.table[i];
      var n := e.(state := Asking, txid := txid, server := 0, tmr := 1, retries := 0);
      if |w.servers| > 0 && w.servers[0] && e.family == V4ThenV6 then GoesOn(w, v, i, n.(family := V6))
      else if |w.servers| > 0 && w.servers[0] && e.family == V6ThenV4 then GoesOn(w, v, i, n.(family := V4))
      else Failed(w, v, i)
  {
    var e := w.table[i];
    FailFails(w, i, e);
    if FallsBack(e.family) {
      var f := OtherFamily(e.family);
      var u := SetEntry(w, i, e.(family := f, state := New));
      var n := e.(family := f, state := Asking, txid := txid, server := 0, tmr := 1, retries := 0);
      assert SetEntry(u, i, n) == SetEntry(w, i, n);
      SendGoesOn(w, i, n);
    }
  }

  // ---- time ----

  /**
   * One tick for a query under way: it waits while its timer runs; then it is repeated, after one second more than
   * before; after the fourth try it goes to the next server; and after the last server it has failed.
   */
  lemma AskingChecked(w: World, i: nat, txid: u16)
    requires Inv(w) && i < |w.table| && w.table[i].state.Asking?
    ensures var v, e := CheckEntry(w, i, txid), w.table[i];
      && (e.tmr > 1 ==> Stays(w, v, i, e.(tmr := e.tmr - 1)) && v.sent == w.sent)
      && (e.tmr <= 1 && e.retries < 3 ==>
            SentOrFailed(w, v, i, e.(tmr := e.retries + 1, retries := e.retries + 1)))
      && (e.tmr <= 1 && e.retries >= 3 ==> SentOrFailed(w, v, i, e.(server := e.server + 1, tmr := 1, retries := 0)))
  {
    var e := w.table[i];
    assert EntryOk(e, |w.servers|);
    CheckAskingIs(w, i);
    if e.tmr <= 1 {
      if Retried(w, e).Some? {
        SendGoesOn(w, i, Retried(w, e).value);
      } else {
        FailFails(w, i, e.(tmr := 0, retries := MAX_RETRIES));
      }
    }
  }

  /** The query goes on as entry e, if the server e names is set; otherwise it has failed. */
  ghost predicate SentOrFailed(w: World, v: World, i: nat, e: Entry)
    requires i < |w.table|
  {
    if e.server < |w.servers| && w.servers[e.server] then GoesOn(w, v, i, e) else Failed(w, v, i)
  }

  /** A table entry is checked once in a tick, whatever the others do. */
  lemma {:induction false} DoneChecked(w: World, n: nat, i: nat)
    requires Inv(w) && n <= |w.table| && i < |w.table| && w.table[i].state.Done? && w.table[i].ttl > 0
    ensures var e, v := w.table[i], TickTo(w, n).table[i];
      if n <= i then v == e
      else v == e.(ttl := e.ttl - 1, state := if e.ttl == 1 then Unused else Done)
    decreases n
  {
    if n > 0 {
      TickKeeps(w, n - 1);
      DoneChecked(w, n - 1, i);
      DoneOneCheck(TickTo(w, n - 1), n - 1, i, TickTo(w, n));
    }
  }

  lemma DoneOneCheck(u: World, j: nat, i: nat, v: World)
    requires Inv(u) && i < |u.table| && j < |u.table| && v == CheckEntry(u, j, 0)
    ensures |v.table| == |u.table| && (i != j ==> v.table[i] == u.table[i])
    ensures i == j && u.table[i].state.Done? && u.table[i].ttl > 0 ==>
      v.table[i] == u.table[i].(ttl := u.table[i].ttl - 1, state := if u.table[i].ttl == 1 then Unused else Done)
  {
    if i != j {
      CheckOther(u, j, 0, i);
    }
  }

  /** The first n ticks. */
  function TickEvents(n: nat): seq<Event> { seq(n, _ => Tick) }

  /** An answer stays in the table for its time to live in ticks, and not longer. */
  lemma {:induction false} CachedForItsTime(w: World, i: nat, n: nat)
    requires Inv(w) && i < |w.table| && w.table[i].state.Done? && w.table[i].ttl > 0
    ensures var v := Run(w, TickEvents(n)); i < |v.table|
    ensures var e, v := w.table[i], Run(w, TickEvents(n)).table[i];
      && (n < e.ttl ==> v.state == Done && v.ttl == e.ttl - n && v.addr == e.addr && v.name == e.name)
      && (n == e.ttl ==> v.state == Unused)
    decreases n
  {
    if n > 0 {
      DoneChecked(w, |w.table|, i);
      StepKeeps(w, Tick);
      var u := Step(w, Tick);
      assert TickEvents(n)[1..] == TickEvents(n - 1);
      if u.table[i].state.Done? {
        CachedForItsTime(u, i, n - 1);
      } else {
        TicksKeepSize(u, n - 1);
        assert n == w.table[i].ttl ==> TickEvents(n - 1) == [];
      }
    }
  }

  lemma {:induction false} TicksKeepSize(w: World, n: nat)
    ensures |Run(w, TickEvents(n)).table| == |w.table|
    decreases n
  {
    if n > 0 {
      assert TickEvents(n)[1..] == TickEvents(n - 1);
      TicksKeepSize(Step(w, Tick), n - 1);
    }
  }

  // ---- answers over runs ----

  /** Callbacks were only added, and all of them report failure. */
  ghost predicate OnlyFailures(w: World, v: World) {
    w.called <= v.called && forall c | c in v.called && c !in w.called :: c.addr == None
  }

  lemma OnlyFailuresTrans(w: World, u: World, v: World)
    requires OnlyFailures(w, u) && OnlyFailures(u, v)
    ensures OnlyFailures(w, v)
  {
  }

  lemma FailOnly(w: World, i: nat)
    requires i < |w.table|
    ensures OnlyFailures(w, Fail(w, i))
  {
    CallsMembers(w.reqs, i, w.table[i].name, None);
    assert Fail(w, i).called == w.called + Calls(w.reqs, i, w.table[i].name, None);
  }

  lemma CheckOnly(w: World, i: nat, txid: u16)
    requires i < |w.table|
    ensures OnlyFailures(w, CheckEntry(w, i, txid))
  {
    var e := w.table[i];
    match e.state {
      case New => SentOnly(w, i, e.(txid := txid, state := Asking, server := 0, tmr := 1, retries := 0));
      case Asking => AskingOnly(w, i);
      case Done =>
      case Unused =>
    }
  }

  lemma SentOnly(w: World, i: nat, e: Entry)
    requires i < |w.table|
    ensures OnlyFailures(w, Send(SetEntry(w, i, e), i)) && OnlyFailures(w, Fail(SetEntry(w, i, e), i))
  {
    FailOnly(SetEntry(w, i, e), i);
  }

  lemma AskingOnly(w: World, i: nat)
    requires i < |w.table|
    ensures OnlyFailures(w, CheckAsking(w, i))
  {
    var e := w.table[i];
    var retries := (e.retries + 1) % 0x100;
    SentOnly(w, i, e.(server := e.server + 1, tmr := 1, retries := 0));
    SentOnly(w, i, e.(tmr := retries, retries := retries));
    SentOnly(w, i, e.(tmr := 0, retries := retries));
  }

  lemma {:induction false} TickOnly(w: World, n: nat)
    requires n <= |w.table|
    ensures OnlyFailures(w, TickTo(w, n))
  {
    if n > 0 {
      TickOnly(w, n - 1);
      var u := TickTo(w, n - 1);
      OneCheckOnly(w, u, n - 1, CheckEntry(u, n - 1, 0));
    }
  }

  lemma OneCheckOnly(w: World, u: World, j: nat, v: World)
    requires OnlyFailures(w, u) && j < |u.table| && v == CheckEntry(u, j, 0)
    ensures OnlyFailures(w, v)
  {
    CheckOnly(u, j, 0);
    OnlyFailuresTrans(w, u, v);
  }

  lemma VerdictOnly(w: World, i: nat, v: Verdict, txid: u16)
    requires i < |w.table| && !v.Answer?
    ensures OnlyFailures(w, OnVerdict(w, i, v, txid))
  {
    var e := w.table[i];
    FailOnly(w, i);
    match v {
      case Ignored =>
      case ServerError => CheckOnly(SetEntry(w, i, e.(retries := MAX_RETRIES - 1, tmr := 1)), i, txid);
      case NoAnswer => CheckOnly(SetEntry(w, i, e.(family := OtherFamily(e.family), state := New)), i, txid);
    }
  }

  lemma RequestOnly(w: World, name: nat, family: Family, tok: nat, pcbOk: bool, txid: u16)
    ensures OnlyFailures(w, Request(w, name, family, tok, pcbOk, txid).0)
  {
    var d, r, i := Duplicate(w.table, name, family, 0), FreeReq(w.reqs, 0), Pick(w);
    if r < |w.reqs| && i < |w.table| {
      CheckOnly(Opened(w, name, family, tok, r, i), i, txid);
    }
  }

  /** e is a packet with this address as the answer to the query that tok waits for in w, under that name. */
  ghost predicate Answers(w: World, e: Event, tok: nat, name: nat, addr: nat) {
    e.Packet? && e.verdict.Answer? && e.verdict.addr == addr
    && exists i: nat :: Asks(w, e.id, i) && w.table[i].name == name && Waits(w, tok, i)
  }

  /** Every event other than an answer makes failure callbacks only. */
  lemma StepOnly(w: World, e: Event)
    requires !(e.Packet? && e.verdict.Answer?)
    ensures OnlyFailures(w, Step(w, e))
  {
    if Enabled(w, e) {
      match e {
        case Tick => TickOnly(w, |w.table|);
        case Packet(id, v, txid) =>
          var i := AskingWith(w.table, id, 0);
          if i < |w.table| {
            VerdictOnly(w, i, v, txid);
          }
        case Ask(name, family, tok, pcbOk, txid) => RequestOnly(w, name, family, tok, pcbOk, txid);
        case SetServer(k, valid) =>
      }
    }
  }

  lemma NewCallAnswers(w: World, e: Event, c: Call, addr: nat)
    requires c in Step(w, e).called && c !in w.called && c.addr == Some(addr)
    ensures Enabled(w, e) && Answers(w, e, c.tok, c.name, addr)
  {
    var v := Step(w, e);
    if e.Packet? && e.verdict.Answer? {
      var i := AskingWith(w.table, e.id, 0);
      assert i < |w.table|;
      AnswerDelivered(w, e.id, e.verdict.ttl, e.verdict.addr, e.txid, i);
      Appended(w.called, v.called, c);
      var r :| 0 <= r < |w.reqs| && w.reqs[r] == Req(Some(c.tok), i);
      assert WaitsAt(w, c.tok, i, r);
      assert Asks(w, e.id, i);
    } else {
      StepOnly(w, e);
    }
  }

  lemma Appended(a: seq<Call>, b: seq<Call>, c: Call)
    requires |a| <= |b| && b[..|a|] == a && c in b && c !in a
    ensures c in b[|a|..]
  {
    assert b == b[..|a|] + b[|a|..];
  }

  /** A callback with an address is only ever made for a packet that answers the very query the request waits for. */
  lemma {:induction false} OnlyAnswersAreReported(w: World, es: seq<Event>, c: Call, addr: nat) returns (j: nat)
    requires c in Run(w, es).called && c !in w.called && c.addr == Some(addr)
    ensures j < |es| && Answers(Run(w, es[..j]), es[j], c.tok, c.name, addr)
    decreases |es|
  {
    if c in Step(w, es[0]).called {
      NewCallAnswers(w, es[0], c, addr);
      j := 0;
    } else {
      var k := OnlyAnswersAreReported(Step(w, es[0]), es[1..], c, addr);
      j := k + 1;
      assert es[..j][0] == es[0] && es[..j][1..] == es[1..][..k];
    }
  }

  lemma {:induction false} CalledTwice(cs: seq<Call>, a: Call, b: Call)
    requires a in cs && b in cs && a != b && a.tok == b.tok
    ensures CallCount(cs, a.tok) >= 2
  {
    var n := |cs| - 1;
    assert cs == cs[..n] + [cs[n]];
    if a in cs[..n] && b in cs[..n] {
      CalledTwice(cs[..n], a, b);
    } else if a in cs[..n] {
      CalledOnce(cs[..n], a);
    } else {
      CalledOnce(cs[..n], b);
    }
  }

  lemma {:induction false} CalledOnce(cs: seq<Call>, a: Call)
    requires a in cs
    ensures CallCount(cs, a.tok) >= 1
  {
    var n := |cs| - 1;
    assert cs == cs[..n] + [cs[n]];
    if a in cs[..n] {
      CalledOnce(cs[..n], a);
    }
  }

  /** Once a query is answered, its waiting requests have been told the address, and are never told anything else. */
  lemma AnswerIsFinal(w: World, id: u16, ttl: u32, addr: nat, txid: u16, i: nat, tok: nat, es: seq<Event>)
    requires Inv(w) && Enabled(w, Packet(id, Answer(ttl, addr), txid)) && Asks(w, id, i) && Waits(w, tok, i)
    ensures var v := Run(Step(w, Packet(id, Answer(ttl, addr), txid)), es);
      var answer := Call(tok, w.table[i].name, Some(addr));
      answer in v.called && forall c | c in v.called && c.tok == tok :: c == answer
  {
    var u, answer := Step(w, Packet(id, Answer(ttl, addr), txid)), Call(tok, w.table[i].name, Some(addr));
    AnswerDelivered(w, id, ttl, addr, txid, i);
    var r: nat :| WaitsAt(w, tok, i, r);
    assert IsFor(w.reqs[r], i) && answer in u.called[|w.called|..];
    StepKeeps(w, Packet(id, Answer(ttl, addr), txid));
    RunGrows(u, es);
    NeverTwice(u, es, tok);
    var v := Run(u, es);
    assert answer in u.called && answer in v.called;
    forall c | c in v.called && c.tok == tok
      ensures c == answer
    {
      if c != answer {
        CalledTwice(v.called, c, answer);
      }
    }
  }

  // ---- requests ----

  /**
   * An accepted request has a free slot of its own and waits for a query for its name: one that is under way, which is
   * left as it is, or a new one, to the first server under a new id.  A new one takes an unused entry or, if there is
   * none, the oldest completed one.
   */
  lemma RequestAccepted(w: World, name: nat, family: Family, tok: nat, pcbOk: bool, txid: u16)
    requires Request(w, name, family, tok, pcbOk, txid).1
    ensures exists i, r ::
      0 <= i < |w.table| && 0 <= r < |w.reqs| && Joined(w, Request(w, name, family, tok, pcbOk, txid).0, i, r, tok)
      && NewOrJoined(w, Request(w, name, family, tok, pcbOk, txid).0, i, name, family, txid)
  {
    var d, r, i := Duplicate(w.table, name, family, 0), FreeReq(w.reqs, 0), Pick(w);
    var v := Request(w, name, family, tok, pcbOk, txid).0;
    var k := if d < |w.table| then d else i;
    if d == |w.table| && !w.table[i].state.Unused? {
      PickOldest(w);
    }
    assert Joined(w, v, k, r, tok) && NewOrJoined(w, v, k, name, family, txid);
  }

  lemma PickOldest(w: World)
    requires Pick(w) < |w.table| && !w.table[Pick(w)].state.Unused?
    ensures OldestDone(w, Pick(w))
  {
    var i := Pick(w);
    assert forall k | 0 <= k < |w.table| && w.table[k].state.Done? ::
      Age(w.seqno, w.table[k]) <= Age(w.seqno, w.table[i]);
  }

  /** No entry is unused, and of the completed ones entry i has the greatest u8_t age. */
  ghost predicate OldestDone(w: World, i: nat)
    requires i < |w.table|
  {
    && w.table[i].state == Done
    && forall k | 0 <= k < |w.table| ::
         w.table[k].state != Unused
         && (w.table[k].state == Done ==> (w.seqno - w.table[k].seqno) % 0x100 <= (w.seqno - w.table[i].seqno) % 0x100)
  }

  /** The request takes slot r, which was free, and waits for entry i; nothing else happens. */
  ghost predicate Joined(w: World, v: World, i: nat, r: nat, tok: nat)
    requires i < |w.table| && r < |w.reqs|
  {
    && w.reqs[r].found == None && v.reqs == w.reqs[r := Req(Some(tok), i)] && v.accepted == w.accepted + {tok}
    && v.called == w.called && v.servers == w.servers && |v.table| == |w.table|
    && forall k | 0 <= k < |w.table| && k != i :: v.table[k] == w.table[k]
  }

  /**
   * A request is refused without a first server, without a free slot, or if no query for its name is under way and
   * there is no port or no entry for a new one; then queries under way, requests and callbacks are left alone.
   */
  lemma RequestRefused(w: World, name: nat, family: Family, tok: nat, pcbOk: bool, txid: u16)
    ensures !Request(w, name, family, tok, pcbOk, txid).1 <==>
      || |w.servers| == 0 || !w.servers[0] || (forall r | 0 <= r < |w.reqs| :: w.reqs[r].found.Some?)
      || ((forall k | 0 <= k < |w.table| :: !UnderWay(w.table[k], name, family))
          && (!pcbOk || forall k | 0 <= k < |w.table| :: NoRoom(w, w.table[k])))
    ensures var (v, ok) := Request(w, name, family, tok, pcbOk, txid);
      !ok ==>
        && v.called == w.called && v.accepted == w.accepted && v.sent == w.sent
        && |v.table| == |w.table| && |v.reqs| == |w.reqs|
        && (forall k | 0 <= k < |w.table| && w.table[k].state.Asking? :: v.table[k] == w.table[k])
        && (forall r | 0 <= r < |w.reqs| && w.reqs[r].found.Some? :: v.reqs[r] == w.reqs[r])
  {
    PickFails(w);
    var d, r := Duplicate(w.table, name, family, 0), FreeReq(w.reqs, 0);
    assert d < |w.table| ==> UnderWay(w.table[d], name, family);
    assert r < |w.reqs| ==> w.reqs[r].found.None?;
  }

  predicate UnderWay(e: Entry, name: nat, family: Family) { e.state == Asking && e.name == name && e.family == family }

  /** The entry is in use, and if it is completed, it carries the current sequence number. */
  predicate NoRoom(w: World, e: Entry) {
    e.state != Unused && (e.state == Done ==> (w.seqno - e.seqno) % 0x100 == 0)
  }

  ghost predicate NewOrJoined(w: World, v: World, i: nat, name: nat, family: Family, txid: u16)
    requires i < |w.table| == |v.table|
  {
    var e := v.table[i];
    && e.state == Asking && e.name == name && e.family == family
    && (if w.table[i].state.Asking? then e == w.table[i] && v.seqno == w.seqno && v.sent == w.sent
        else
          && e.txid == txid && e.server == 0 && e.tmr == 1 && e.retries == 0 && Sent(w, v, e)
          && e.seqno == w.seqno && v.seqno == (w.seqno + 1) % 0x100
          && (forall k | 0 <= k < |w.table| :: !UnderWay(w.table[k], name, family))
          && (w.table[i].state == Unused || OldestDone(w, i)))
  }
}
