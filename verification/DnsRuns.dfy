/**
 * Whole runs of the resolver: every accepted request is called back exactly once and within a bounded number of
 * ticks.
 */
module DnsRuns {
  import opened Common
  import opened DnsModel

  datatype Event =
    | Tick
    | Packet(id: u16, verdict: Verdict, txid: u16)
    | Ask(name: nat, family: Family, tok: nat, pcbOk: bool, txid: u16)
    | SetServer(k: nat, valid: bool)

  /** Each request has a token of its own, and dns_create_txid came up with an id that no other query is using. */
  ghost predicate Enabled(w: World, e: Event) {
    match e
    case Packet(id, _, txid) => !InUse(w.table, txid, AskingWith(w.table, id, 0))
    case Ask(_, _, tok, _, txid) => tok !in w.accepted && !InUse(w.table, txid, |w.table|)
    case _ => true
  }

  ghost function Step(w: World, e: Event): World {
    if !Enabled(w, e) then w
    else match e
      case Tick => TickTo(w, |w.table|)
      case Packet(id, v, txid) => Receive(w, id, v, txid)
      case Ask(name, family, tok, pcbOk, txid) => Request(w, name, family, tok, pcbOk, txid).0
      case SetServer(k, valid) => if k < |w.servers| then w.(servers := w.servers[k := valid]) else w
  }

  ghost function Run(w: World, es: seq<Event>): World
    decreases |es|
  {
    if es == [] then w else Run(Step(w, es[0]), es[1..])
  }

  function Init(entries: nat, requests: nat, servers: nat): World {
    World(seq(entries, _ => Entry(Unused, 0, 0, 0, 0, 0, 0, 0, V4, 0)), seq(requests, _ => Req(None, 0)),
          seq(servers, _ => false), 0, [], {}, [])
  }

  lemma {:induction false} NoRequests(reqs: seq<Req>, tok: nat)
    requires forall r | 0 <= r < |reqs| :: reqs[r].found.None?
    ensures ReqCount(reqs, tok) == 0
  {
    if reqs != [] {
      NoRequests(reqs[..|reqs| - 1], tok);
    }
  }

  lemma InitInv(entries: nat, requests: nat, servers: nat)
    requires 0 < servers
    ensures Inv(Init(entries, requests, servers))
  {
    var w := Init(entries, requests, servers);
    forall tok: nat
      ensures Conserves(w, tok)
    {
      NoRequests(w.reqs, tok);
    }
  }

  lemma ServersKeep(w: World, k: nat, valid: bool)
    requires Inv(w) && k < |w.servers|
    ensures Inv(w.(servers := w.servers[k := valid]))
  {
    var v := w.(servers := w.servers[k := valid]);
    forall r | 0 <= r < |v.reqs|
      ensures ReqAt(v, r, |v.table|)
    {
      assert ReqAt(w, r, |w.table|);
    }
    forall tok: nat
      ensures Conserves(v, tok)
    {
      assert Conserves(w, tok);
    }
  }

  lemma StepKeeps(w: World, e: Event)
    requires Inv(w)
    ensures Inv(Step(w, e))
  {
    if Enabled(w, e) {
      match e {
        case Tick => TickKeeps(w, |w.table|);
        case Packet(id, v, txid) =>
          var i := AskingWith(w.table, id, 0);
          if i < |w.table| {
            VerdictKeeps(w, i, v, txid);
          }
        case Ask(name, family, tok, pcbOk, txid) =>
          if ServerSet(w, 0) {
            EnqueueKeeps(w, name, family, tok, pcbOk, txid);
          }
        case SetServer(k, valid) =>
          if k < |w.servers| {
            ServersKeep(w, k, valid);
          }
      }
    }
  }

  /** Every run keeps the invariant; in particular no request is ever called back twice. */
  lemma {:induction false} RunKeeps(w: World, es: seq<Event>)
    requires Inv(w)
    ensures Inv(Run(w, es))
    decreases |es|
  {
    if es != [] {
      StepKeeps(w, es[0]);
      RunKeeps(Step(w, es[0]), es[1..]);
    }
  }

  lemma NeverTwice(w: World, es: seq<Event>, tok: nat)
    requires Inv(w)
    ensures CallCount(Run(w, es).called, tok) <= 1
    ensures CallCount(Run(w, es).called, tok) == 1 ==> tok in Run(w, es).accepted
  {
    RunKeeps(w, es);
    assert Conserves(Run(w, es), tok);
  }

  // ---- how long a query can still take ----

  /** Ticks after the current timer until the retries at one server are used up: 1 + 2 + 3 from the start. */
  function Wait(retries: nat): nat
    decreases MAX_RETRIES - retries
  {
    if retries + 1 >= MAX_RETRIES then 0 else retries + 1 + Wait(retries + 1)
  }

  const PER_SERVER: nat := 7

  lemma WaitValues()
    ensures Wait(0) == 6 && Wait(1) == 5 && Wait(2) == 3 && Wait(3) == 0 && PER_SERVER == 1 + Wait(0)
  {
    assert Wait(2) == 3;
    assert Wait(1) == 5;
  }

  /** The timer, then the retries here, then the servers behind this one, then all of them for the other family. */
  function TicksLeft(e: Entry, servers: nat): int {
    e.tmr + Wait(e.retries) + PER_SERVER * (servers - 1 - e.server)
    + if FallsBack(e.family) then PER_SERVER * servers else 0
  }

  ghost predicate WaitsAt(w: World, tok: nat, i: nat, r: nat) { r < |w.reqs| && w.reqs[r] == Req(Some(tok), i) }

  /** The request waits for entry i. */
  ghost predicate Waits(w: World, tok: nat, i: nat) {
    i < |w.table| && exists r: nat :: WaitsAt(w, tok, i, r)
  }

  lemma WaitsAsking(w: World, tok: nat, i: nat)
    requires Inv(w) && Waits(w, tok, i)
    ensures w.table[i].state.Asking? && EntryOk(w.table[i], |w.servers|) && CallCount(w.called, tok) == 0
    ensures TicksLeft(w.table[i], |w.servers|) > 0
  {
    var r: nat :| WaitsAt(w, tok, i, r);
    assert ReqAt(w, r, |w.table|);
    assert Conserves(w, tok);
    ReqCountPositive(w.reqs, r, tok);
  }

  lemma {:induction false} ReqCountPositive(reqs: seq<Req>, r: nat, tok: nat)
    requires r < |reqs| && reqs[r].found == Some(tok)
    ensures ReqCount(reqs, tok) > 0
  {
    if r < |reqs| - 1 {
      ReqCountPositive(reqs[..|reqs| - 1], r, tok);
    }
  }

  ghost predicate Called(w: World, tok: nat) { CallCount(w.called, tok) > 0 }

  /** From w to v the request was called back, or still waits for entry i with at least n ticks less to go. */
  ghost predicate Advanced(w: World, v: World, tok: nat, i: nat, n: nat) {
    && i < |w.table| == |v.table| && |v.servers| == |w.servers|
    && (Called(v, tok)
        || (Waits(v, tok, i) && TicksLeft(v.table[i], |v.servers|) + n <= TicksLeft(w.table[i], |w.servers|)))
  }

  lemma CalledStays(w: World, v: World, tok: nat)
    requires w.called <= v.called && Called(w, tok)
    ensures Called(v, tok)
  {
    assert v.called == w.called + v.called[|w.called|..];
    CallCountConcat(w.called, v.called[|w.called|..], tok);
  }

  lemma AdvancedTrans(w: World, u: World, v: World, tok: nat, i: nat, m: nat, n: nat)
    requires Advanced(w, u, tok, i, m) && |v.table| == |u.table| && |v.servers| == |u.servers| && u.called <= v.called
    requires Waits(u, tok, i) ==> Advanced(u, v, tok, i, n)
    ensures Advanced(w, v, tok, i, m + n)
  {
    if Called(u, tok) {
      CalledStays(u, v, tok);
    }
  }

  /** Entry i, its requests and the calls made so far are as before. */
  ghost predicate Undisturbed(w: World, v: World, i: nat) {
    && i < |w.table| == |v.table| && |v.servers| == |w.servers| && |v.reqs| == |w.reqs| && v.table[i] == w.table[i]
    && (forall r | 0 <= r < |w.reqs| && IsFor(w.reqs[r], i) :: v.reqs[r] == w.reqs[r])
    && w.called <= v.called
  }

  lemma UndisturbedAdvanced(w: World, v: World, tok: nat, i: nat)
    requires Undisturbed(w, v, i) && Waits(w, tok, i)
    ensures Advanced(w, v, tok, i, 0)
  {
    var r: nat :| WaitsAt(w, tok, i, r);
    assert WaitsAt(v, tok, i, r);
  }

  lemma CheckOther(w: World, j: nat, txid: u16, i: nat)
    requires i < |w.table| && j < |w.table| && i != j && (w.table[j].state.Asking? ==> EntryOk(w.table[j], |w.servers|))
    ensures Undisturbed(w, CheckEntry(w, j, txid), i)
  {
    var e := w.table[j];
    match e.state
    case New => SendOther(w, j, e.(txid := txid, state := Asking, server := 0, tmr := 1, retries := 0), i);
    case Asking => CheckAskingOther(w, j, i);
    case Done =>
    case Unused =>
  }

  lemma CheckAskingOther(w: World, j: nat, i: nat)
    requires i < |w.table| && j < |w.table| && i != j && w.table[j].state.Asking? && EntryOk(w.table[j], |w.servers|)
    ensures Undisturbed(w, CheckAsking(w, j), i)
  {
    var e := w.table[j];
    CheckAskingIs(w, j);
    if e.tmr <= 1 {
      if Retried(w, e).Some? {
        SendOther(w, j, Retried(w, e).value, i);
      } else {
        FailOther(w, j, e.(tmr := 0, retries := MAX_RETRIES), i);
      }
    }
  }

  lemma FailOther(w: World, j: nat, e: Entry, i: nat)
    requires i < |w.table| && j < |w.table| && i != j
    ensures Undisturbed(w, Fail(SetEntry(w, j, e), j), i)
  {
  }

  lemma SendOther(w: World, j: nat, e: Entry, i: nat)
    requires i < |w.table| && j < |w.table| && i != j
    ensures Undisturbed(w, Send(SetEntry(w, j, e), j), i)
  {
    if !ServerSet(w, e.server) {
      FailOther(w, j, e, i);
    }
  }

  lemma {:induction false} InCalls(reqs: seq<Req>, i: nat, name: nat, addr: Option<nat>, tok: nat, r: nat)
    requires r < |reqs| && reqs[r] == Req(Some(tok), i)
    ensures CallCount(Calls(reqs, i, name, addr), tok) > 0
  {
    var n := |reqs| - 1;
    CallsSnoc(reqs, i, name, addr, tok);
    if r < n {
      InCalls(reqs[..n], i, name, addr, tok, r);
    } else {
      LastCallCount(reqs[n], i, name, addr, tok);
    }
  }

  lemma CallsSnoc(reqs: seq<Req>, i: nat, name: nat, addr: Option<nat>, tok: nat)
    requires reqs != []
    ensures var n := |reqs| - 1;
      CallCount(Calls(reqs, i, name, addr), tok)
      == CallCount(Calls(reqs[..n], i, name, addr), tok) + CallCount(LastCall(reqs[n], i, name, addr), tok)
  {
    var n := |reqs| - 1;
    CallCountConcat(Calls(reqs[..n], i, name, addr), LastCall(reqs[n], i, name, addr), tok);
  }

  lemma CallFoundCalls(w: World, i: nat, addr: Option<nat>, tok: nat)
    requires Waits(w, tok, i)
    ensures Called(CallFound(w, i, addr), tok)
  {
    var r: nat :| WaitsAt(w, tok, i, r);
    InCalls(w.reqs, i, w.table[i].name, addr, tok, r);
    CallCountConcat(w.called, Calls(w.reqs, i, w.table[i].name, addr), tok);
  }

  /** Entry i gets new contents with at least n ticks less to go, and the query is sent (or given up on the spot). */
  lemma SentAdvanced(w: World, i: nat, e: Entry, tok: nat, n: nat)
    requires Waits(w, tok, i) && TicksLeft(e, |w.servers|) + n <= TicksLeft(w.table[i], |w.servers|)
    ensures Advanced(w, Send(SetEntry(w, i, e), i), tok, i, n)
  {
    var v := SetEntry(w, i, e);
    SetEntryWaits(w, i, e, tok);
    if !ServerSet(v, e.server) {
      CallFoundCalls(v, i, None, tok);
    }
  }

  lemma SetEntryWaits(w: World, i: nat, e: Entry, tok: nat)
    requires Waits(w, tok, i)
    ensures Waits(SetEntry(w, i, e), tok, i)
  {
    var r: nat :| WaitsAt(w, tok, i, r);
    assert WaitsAt(SetEntry(w, i, e), tok, i, r);
  }

  lemma GivenUpAdvanced(w: World, i: nat, e: Entry, tok: nat, n: nat)
    requires Waits(w, tok, i)
    ensures Advanced(w, Fail(SetEntry(w, i, e), i), tok, i, n)
  {
    SetEntryWaits(w, i, e, tok);
    CallFoundCalls(SetEntry(w, i, e), i, None, tok);
  }

  /** A retry, or the change to the next server, is one tick less to go. */
  lemma RetriedTicks(w: World, e: Entry)
    requires EntryOk(e, |w.servers|) && e.state.Asking? && e.tmr == 1 && Retried(w, e).Some?
    ensures TicksLeft(Retried(w, e).value, |w.servers|) == TicksLeft(e, |w.servers|) - 1
  {
    WaitValues();
    assert e.retries == 0 || e.retries == 1 || e.retries == 2 || e.retries == 3;
  }

  /** dns_check_entry on a query under way. */
  lemma CheckOwn(w: World, i: nat, tok: nat)
    requires Inv(w) && Waits(w, tok, i)
    ensures Advanced(w, CheckAsking(w, i), tok, i, 1)
  {
    WaitsAsking(w, tok, i);
    CheckAskingIs(w, i);
    var e := w.table[i];
    if e.tmr > 1 {
      SetEntryWaits(w, i, e.(tmr := e.tmr - 1), tok);
    } else if Retried(w, e).Some? {
      RetriedTicks(w, e);
      SentAdvanced(w, i, Retried(w, e).value, tok, 1);
    } else {
      GivenUpAdvanced(w, i, e.(tmr := 0, retries := MAX_RETRIES), tok, 1);
    }
  }

  lemma CheckGrows(w: World, j: nat, txid: u16)
    requires j < |w.table|
    ensures var v := CheckEntry(w, j, txid);
      |v.table| == |w.table| && v.servers == w.servers && |v.reqs| == |w.reqs| && w.called <= v.called
  {
  }

  lemma {:induction false} TickAdvanced(w: World, n: nat, tok: nat, i: nat)
    requires Inv(w) && Waits(w, tok, i) && n <= |w.table|
    ensures Advanced(w, TickTo(w, n), tok, i, if i < n then 1 else 0)
  {
    if n == 0 {
      UndisturbedAdvanced(w, w, tok, i);
    } else {
      TickAdvanced(w, n - 1, tok, i);
      TickKeeps(w, n - 1);
      OneCheckAdvanced(w, TickTo(w, n - 1), n - 1, TickTo(w, n), tok, i);
    }
  }

  lemma OneCheckAdvanced(w: World, u: World, j: nat, v: World, tok: nat, i: nat)
    requires Inv(u) && j < |u.table| && v == CheckEntry(u, j, 0) && Advanced(w, u, tok, i, if i < j then 1 else 0)
    ensures Advanced(w, v, tok, i, if i < j + 1 then 1 else 0)
  {
    CheckGrows(u, j, 0);
    if Waits(u, tok, i) {
      if i == j {
        WaitsAsking(u, tok, i);
        CheckOwn(u, i, tok);
      } else {
        assert EntryOk(u.table[j], |u.servers|);
        CheckOther(u, j, 0, i);
        UndisturbedAdvanced(u, v, tok, i);
      }
    }
    AdvancedTrans(w, u, v, tok, i, if i < j then 1 else 0, if i == j then 1 else 0);
  }

  // ---- packets and requests never set a query back ----

  lemma ServerErrorOther(w: World, j: nat, txid: u16, i: nat)
    requires i < |w.table| && j < |w.table| && i != j && w.table[j].state.Asking? && EntryOk(w.table[j], |w.servers|)
    ensures Undisturbed(w, OnVerdict(w, j, ServerError, txid), i)
  {
    var e := w.table[j];
    if ServerSet(w, e.server + 1) {
      ServerErrorIs(w, j, txid);
      CheckAskingOther(SetEntry(w, j, e.(retries := MAX_RETRIES - 1, tmr := 1)), j, i);
    } else {
      GivenUpOther(w, j, i);
    }
  }

  lemma GivenUpOther(w: World, j: nat, i: nat)
    requires i < |w.table| && j < |w.table| && i != j
    ensures Undisturbed(w, Fail(w, j), i)
  {
    FailOther(w, j, w.table[j], i);
    assert SetEntry(w, j, w.table[j]) == w;
  }

  lemma NoAnswerOther(w: World, j: nat, txid: u16, i: nat)
    requires i < |w.table| && j < |w.table| && i != j
    ensures Undisturbed(w, OnVerdict(w, j, NoAnswer, txid), i)
  {
    var e := w.table[j];
    if FallsBack(e.family) {
      CheckOther(SetEntry(w, j, e.(family := OtherFamily(e.family), state := New)), j, txid, i);
    } else {
      GivenUpOther(w, j, i);
    }
  }

  lemma VerdictOther(w: World, j: nat, verdict: Verdict, txid: u16, i: nat)
    requires i < |w.table| && j < |w.table| && i != j && w.table[j].state.Asking? && EntryOk(w.table[j], |w.servers|)
    ensures Undisturbed(w, OnVerdict(w, j, verdict, txid), i)
  {
    match verdict
    case Ignored =>
    case ServerError => ServerErrorOther(w, j, txid, i);
    case NoAnswer => NoAnswerOther(w, j, txid, i);
    case Answer(ttl, addr) =>
  }

  /** A server error moves on to the next server or ends the query. */
  lemma ServerErrorOwn(w: World, i: nat, txid: u16, tok: nat)
    requires Inv(w) && Waits(w, tok, i)
    ensures Advanced(w, OnVerdict(w, i, ServerError, txid), tok, i, 0)
  {
    WaitsAsking(w, tok, i);
    var e := w.table[i];
    if ServerSet(w, e.server + 1) {
      var n := e.(retries := MAX_RETRIES - 1, tmr := 1);
      ServerErrorIs(w, i, txid);
      Retimed(w, i, n);
      SetEntryWaits(w, i, n, tok);
      CheckOwn(SetEntry(w, i, n), i, tok);
      LastTry(e, |w.servers|);
      NotSetBack(w, i, n, tok);
    } else {
      GivenUpAdvanced(w, i, e, tok, 0);
      assert SetEntry(w, i, e) == w;
    }
  }

  lemma NotSetBack(w: World, i: nat, n: Entry, tok: nat)
    requires i < |w.table| && n.state.Asking?
    requires Advanced(SetEntry(w, i, n), CheckAsking(SetEntry(w, i, n), i), tok, i, 1)
    requires TicksLeft(n, |w.servers|) <= TicksLeft(w.table[i], |w.servers|)
    ensures Advanced(w, CheckAsking(SetEntry(w, i, n), i), tok, i, 0)
  {
    assert SetEntry(w, i, n).table[i] == n;
  }

  lemma ServerErrorIs(w: World, i: nat, txid: u16)
    requires i < |w.table| && w.table[i].state.Asking? && ServerSet(w, w.table[i].server + 1)
    ensures OnVerdict(w, i, ServerError, txid)
      == CheckAsking(SetEntry(w, i, w.table[i].(retries := MAX_RETRIES - 1, tmr := 1)), i)
  {
  }

  lemma LastTry(e: Entry, servers: nat)
    requires EntryOk(e, servers) && e.state.Asking?
    ensures TicksLeft(e.(retries := MAX_RETRIES - 1, tmr := 1), servers) <= TicksLeft(e, servers)
  {
    WaitValues();
  }

  /** A packet without usable answer goes on to the other family once or ends the query. */
  lemma NoAnswerOwn(w: World, i: nat, txid: u16, tok: nat)
    requires Inv(w) && Waits(w, tok, i)
    ensures Advanced(w, OnVerdict(w, i, NoAnswer, txid), tok, i, 0)
  {
    WaitsAsking(w, tok, i);
    var e := w.table[i];
    if FallsBack(e.family) {
      var n := e.(family := OtherFamily(e.family), state := New);
      var a := n.(txid := txid, state := Asking, server := 0, tmr := 1, retries := 0);
      WaitValues();
      assert SetEntry(SetEntry(w, i, n), i, a) == SetEntry(w, i, a);
      SentAdvanced(w, i, a, tok, 0);
    } else {
      GivenUpAdvanced(w, i, e, tok, 0);
      assert SetEntry(w, i, e) == w;
    }
  }

  lemma AnswerOwn(w: World, i: nat, ttl: u32, addr: nat, tok: nat)
    requires Waits(w, tok, i)
    ensures Advanced(w, CorrectResponse(w, i, ttl, addr), tok, i, 0)
  {
    var kept := if ttl > MAX_TTL then MAX_TTL else ttl;
    var e := w.table[i].(state := Done, ttl := kept, addr := addr);
    SetEntryWaits(w, i, e, tok);
    CallFoundCalls(SetEntry(w, i, e), i, Some(addr), tok);
  }

  lemma PacketAdvanced(w: World, id: u16, v: Verdict, txid: u16, tok: nat, i: nat)
    requires Inv(w) && Waits(w, tok, i)
    ensures Advanced(w, Receive(w, id, v, txid), tok, i, 0)
  {
    var j := AskingWith(w.table, id, 0);
    if j == |w.table| {
      UndisturbedAdvanced(w, w, tok, i);
    } else if j != i {
      assert EntryOk(w.table[j], |w.servers|);
      VerdictOther(w, j, v, txid, i);
      UndisturbedAdvanced(w, OnVerdict(w, j, v, txid), tok, i);
    } else {
      match v
      case Ignored => UndisturbedAdvanced(w, w, tok, i);
      case ServerError => ServerErrorOwn(w, i, txid, tok);
      case NoAnswer => NoAnswerOwn(w, i, txid, tok);
      case Answer(ttl, addr) => AnswerOwn(w, i, ttl, addr, tok);
    }
  }

  lemma RequestOther(w: World, name: nat, family: Family, t: nat, pcbOk: bool, txid: u16, i: nat)
    requires i < |w.table| && w.table[i].state.Asking?
    ensures Undisturbed(w, Request(w, name, family, t, pcbOk, txid).0, i)
  {
    if ServerSet(w, 0) {
      EnqueueOther(w, name, family, t, pcbOk, txid, i);
    }
  }

  lemma EnqueueOther(w: World, name: nat, family: Family, t: nat, pcbOk: bool, txid: u16, i: nat)
    requires i < |w.table| && w.table[i].state.Asking?
    ensures Undisturbed(w, Enqueue(w, name, family, t, pcbOk, txid).0, i)
  {
    var d, r, p := Duplicate(w.table, name, family, 0), FreeReq(w.reqs, 0), Pick(w);
    if r < |w.reqs| && d == |w.table| && p < |w.table| && pcbOk {
      OpenedOther(w, name, family, t, r, p, txid, i);
    }
  }

  lemma OpenedOther(w: World, name: nat, family: Family, t: nat, r: nat, p: nat, txid: u16, i: nat)
    requires i < |w.table| && r < |w.reqs| && w.reqs[r].found.None? && p < |w.table| && p != i
    ensures Undisturbed(w, CheckEntry(Opened(w, name, family, t, r, p), p, txid), i)
  {
    var u := Opened(w, name, family, t, r, p);
    CheckOther(u, p, txid, i);
    assert Undisturbed(w, u, i);
  }

  lemma StepAdvanced(w: World, e: Event, tok: nat, i: nat)
    requires Inv(w) && Waits(w, tok, i)
    ensures Advanced(w, Step(w, e), tok, i, if e.Tick? then 1 else 0)
  {
    WaitsAsking(w, tok, i);
    if Enabled(w, e) {
      match e
      case Tick => TickAdvanced(w, |w.table|, tok, i);
      case Packet(id, v, txid) => PacketAdvanced(w, id, v, txid, tok, i);
      case Ask(name, family, t, pcbOk, txid) =>
        RequestOther(w, name, family, t, pcbOk, txid, i);
        UndisturbedAdvanced(w, Step(w, e), tok, i);
      case SetServer(k, valid) => UndisturbedAdvanced(w, Step(w, e), tok, i);
    } else {
      UndisturbedAdvanced(w, w, tok, i);
    }
  }

  lemma {:induction false} TickGrows(w: World, n: nat)
    requires n <= |w.table|
    ensures |TickTo(w, n).servers| == |w.servers| && w.called <= TickTo(w, n).called
  {
    if n > 0 {
      TickGrows(w, n - 1);
      CheckGrows(TickTo(w, n - 1), n - 1, 0);
    }
  }

  lemma VerdictGrows(w: World, i: nat, verdict: Verdict, txid: u16)
    requires i < |w.table|
    ensures var v := OnVerdict(w, i, verdict, txid);
      |v.table| == |w.table| && |v.servers| == |w.servers| && w.called <= v.called
  {
    var e := w.table[i];
    match verdict
    case Ignored =>
    case ServerError =>
      if ServerSet(w, e.server + 1) {
        CheckGrows(SetEntry(w, i, e.(retries := MAX_RETRIES - 1, tmr := 1)), i, txid);
      }
    case NoAnswer =>
      if FallsBack(e.family) {
        CheckGrows(SetEntry(w, i, e.(family := OtherFamily(e.family), state := New)), i, txid);
      }
    case Answer(ttl, addr) =>
  }

  lemma RequestGrows(w: World, name: nat, family: Family, tok: nat, pcbOk: bool, txid: u16)
    ensures var v := Request(w, name, family, tok, pcbOk, txid).0;
      |v.table| == |w.table| && |v.servers| == |w.servers| && w.called <= v.called
  {
    var r, p := FreeReq(w.reqs, 0), Pick(w);
    if r < |w.reqs| && p < |w.table| {
      CheckGrows(Opened(w, name, family, tok, r, p), p, txid);
    }
  }

  /** Callbacks made are never taken back. */
  lemma StepGrows(w: World, e: Event)
    ensures |Step(w, e).table| == |w.table| && |Step(w, e).servers| == |w.servers| && w.called <= Step(w, e).called
  {
    match e
    case Tick => TickGrows(w, |w.table|);
    case Packet(id, v, txid) =>
      var i := AskingWith(w.table, id, 0);
      if i < |w.table| {
        VerdictGrows(w, i, v, txid);
      }
    case Ask(name, family, t, pcbOk, txid) => RequestGrows(w, name, family, t, pcbOk, txid);
    case SetServer(k, valid) =>
  }

  function Ticks(es: seq<Event>): nat {
    if es == [] then 0 else (if es[0].Tick? then 1 else 0) + Ticks(es[1..])
  }

  /** Over any run a pending request is called back, or its remaining time shrinks with every tick. */
  lemma {:induction false} RunAdvanced(w: World, es: seq<Event>, tok: nat, i: nat)
    requires Inv(w) && Waits(w, tok, i)
    ensures Advanced(w, Run(w, es), tok, i, Ticks(es))
    decreases |es|
  {
    if es == [] {
      UndisturbedAdvanced(w, w, tok, i);
    } else {
      var u := Step(w, es[0]);
      StepKeeps(w, es[0]);
      StepAdvanced(w, es[0], tok, i);
      RunGrows(u, es[1..]);
      if Waits(u, tok, i) {
        RunAdvanced(u, es[1..], tok, i);
      }
      AdvancedTrans(w, u, Run(w, es), tok, i, if es[0].Tick? then 1 else 0, Ticks(es[1..]));
    }
  }

  lemma {:induction false} RunGrows(w: World, es: seq<Event>)
    ensures |Run(w, es).table| == |w.table| && |Run(w, es).servers| == |w.servers| && w.called <= Run(w, es).called
    decreases |es|
  {
    if es != [] {
      StepGrows(w, es[0]);
      RunGrows(Step(w, es[0]), es[1..]);
    }
  }

  /**
   * Whatever packets arrive and whatever else is asked, a pending request is answered exactly once when its time is
   * up.
   */
  lemma AnsweredInTime(w: World, es: seq<Event>, tok: nat, i: nat)
    requires Inv(w) && Waits(w, tok, i) && Ticks(es) >= TicksLeft(w.table[i], |w.servers|)
    ensures CallCount(Run(w, es).called, tok) == 1
  {
    RunAdvanced(w, es, tok, i);
    RunKeeps(w, es);
    NeverTwice(w, es, tok);
    if !Called(Run(w, es), tok) {
      WaitsAsking(Run(w, es), tok, i);
    }
  }

  /** The time an accepted request can take: seven ticks for each server, twice that with a second address family. */
  function Bound(family: Family, servers: nat): nat {
    if FallsBack(family) then 2 * PER_SERVER * servers else PER_SERVER * servers
  }

  lemma AcceptedWaits(w: World, name: nat, family: Family, tok: nat, pcbOk: bool, txid: u16) returns (i: nat)
    requires Inv(w) && tok !in w.accepted && !InUse(w.table, txid, |w.table|)
    requires Request(w, name, family, tok, pcbOk, txid).1
    ensures var v := Request(w, name, family, tok, pcbOk, txid).0;
      && Waits(v, tok, i) && TicksLeft(v.table[i], |v.servers|) <= Bound(family, |v.servers|)
      && (Duplicate(w.table, name, family, 0) == |w.table| ==>
            TicksLeft(v.table[i], |v.servers|) == Bound(family, |v.servers|))
  {
    var d, r, p := Duplicate(w.table, name, family, 0), FreeReq(w.reqs, 0), Pick(w);
    var v := Request(w, name, family, tok, pcbOk, txid).0;
    WaitValues();
    if d < |w.table| {
      i := d;
      assert WaitsAt(v, tok, d, r);
      assert EntryOk(w.table[d], |w.servers|);
      WithinBound(w.table[d], |w.servers|);
    } else {
      i := p;
      assert v.table[p]
        == Filled(w, p, name, family).(txid := txid, state := Asking, server := 0, tmr := 1, retries := 0);
      assert WaitsAt(v, tok, p, r);
    }
  }

  lemma WithinBound(e: Entry, servers: nat)
    requires e.state.Asking? && EntryOk(e, servers)
    ensures TicksLeft(e, servers) <= Bound(e.family, servers)
  {
    WaitValues();
    assert e.retries == 0 || e.retries == 1 || e.retries == 2 || e.retries == 3;
  }

  /**
   * Every accepted request gets its callback exactly once within Bound ticks, whatever packets arrive, whatever else is
   * asked and however the servers are changed meanwhile.
   */
  lemma AcceptedIsAnsweredOnce(w: World, name: nat, family: Family, tok: nat, pcbOk: bool, txid: u16, es: seq<Event>)
    requires Inv(w) && tok !in w.accepted && !InUse(w.table, txid, |w.table|)
    requires Request(w, name, family, tok, pcbOk, txid).1 && Ticks(es) >= Bound(family, |w.servers|)
    ensures CallCount(Run(Request(w, name, family, tok, pcbOk, txid).0, es).called, tok) == 1
  {
    var e := Ask(name, family, tok, pcbOk, txid);
    StepKeeps(w, e);
    StepGrows(w, e);
    var i := AcceptedWaits(w, name, family, tok, pcbOk, txid);
    AnsweredInTime(Step(w, e), es, tok, i);
  }

  // ---- the bound is met ----

  ghost predicate AllSet(w: World) { forall k | 0 <= k < |w.servers| :: w.servers[k] }

  /** After n ticks of silence the request has been called back, or it waits with exactly n ticks less to go. */
  ghost predicate OnSchedule(w: World, v: World, tok: nat, i: nat, n: nat) {
    && i < |w.table| == |v.table| && v.servers == w.servers
    && var left := TicksLeft(w.table[i], |w.servers|);
    if left <= n then Called(v, tok)
    else Waits(v, tok, i) && TicksLeft(v.table[i], |w.servers|) == left - n && v.table[i].family == w.table[i].family
  }

  lemma SilentCheck(w: World, i: nat, tok: nat)
    requires Inv(w) && Waits(w, tok, i) && AllSet(w) && !FallsBack(w.table[i].family)
    ensures OnSchedule(w, CheckAsking(w, i), tok, i, 1)
  {
    WaitsAsking(w, tok, i);
    CheckAskingIs(w, i);
    var e := w.table[i];
    WaitValues();
    if e.tmr > 1 {
      SetEntryWaits(w, i, e.(tmr := e.tmr - 1), tok);
    } else if Retried(w, e).Some? {
      RetriedTicks(w, e);
      SetEntryWaits(w, i, Retried(w, e).value, tok);
    } else {
      SetEntryWaits(w, i, e.(tmr := 0, retries := MAX_RETRIES), tok);
      CallFoundCalls(SetEntry(w, i, e.(tmr := 0, retries := MAX_RETRIES)), i, None, tok);
    }
  }

  lemma UndisturbedSchedule(w: World, v: World, tok: nat, i: nat)
    requires Undisturbed(w, v, i) && v.servers == w.servers && Inv(w) && Waits(w, tok, i)
    ensures OnSchedule(w, v, tok, i, 0)
  {
    WaitsAsking(w, tok, i);
    var r: nat :| WaitsAt(w, tok, i, r);
    assert WaitsAt(v, tok, i, r);
  }

  lemma ScheduleTrans(w: World, u: World, v: World, tok: nat, i: nat, m: nat, n: nat)
    requires OnSchedule(w, u, tok, i, m) && |v.table| == |u.table| && v.servers == u.servers && u.called <= v.called
    requires TicksLeft(w.table[i], |w.servers|) > m ==> OnSchedule(u, v, tok, i, n)
    ensures OnSchedule(w, v, tok, i, m + n)
  {
    if TicksLeft(w.table[i], |w.servers|) <= m {
      CalledStays(u, v, tok);
    }
  }

  lemma SilentOneCheck(w: World, u: World, j: nat, v: World, tok: nat, i: nat)
    requires Inv(u) && j < |u.table| && v == CheckEntry(u, j, 0)
    requires AllSet(w) && OnSchedule(w, u, tok, i, if i < j then 1 else 0) && !FallsBack(w.table[i].family)
    ensures OnSchedule(w, v, tok, i, if i < j + 1 then 1 else 0)
  {
    CheckGrows(u, j, 0);
    if Waits(u, tok, i) {
      WaitsAsking(u, tok, i);
      if i == j {
        if TicksLeft(w.table[i], |w.servers|) > 0 {
          SilentCheck(u, i, tok);
        }
      } else {
        assert EntryOk(u.table[j], |u.servers|);
        CheckOther(u, j, 0, i);
        UndisturbedSchedule(u, v, tok, i);
      }
    }
    ScheduleTrans(w, u, v, tok, i, if i < j then 1 else 0, if i == j then 1 else 0);
  }

  lemma {:induction false} SilentTick(w: World, n: nat, tok: nat, i: nat)
    requires Inv(w) && Waits(w, tok, i) && AllSet(w) && !FallsBack(w.table[i].family) && n <= |w.table|
    ensures OnSchedule(w, TickTo(w, n), tok, i, if i < n then 1 else 0)
  {
    if n == 0 {
      UndisturbedSchedule(w, w, tok, i);
    } else {
      SilentTick(w, n - 1, tok, i);
      TickKeeps(w, n - 1);
      SilentOneCheck(w, TickTo(w, n - 1), n - 1, TickTo(w, n), tok, i);
    }
  }

  lemma {:induction false} SilentRun(w: World, es: seq<Event>, tok: nat, i: nat)
    requires Inv(w) && Waits(w, tok, i) && AllSet(w) && !FallsBack(w.table[i].family) && forall e | e in es :: e.Tick?
    ensures OnSchedule(w, Run(w, es), tok, i, |es|)
    decreases |es|
  {
    if es == [] {
      UndisturbedSchedule(w, w, tok, i);
    } else {
      var u := Step(w, es[0]);
      assert es[0] in es;
      StepKeeps(w, es[0]);
      SilentTick(w, |w.table|, tok, i);
      SilentServers(u, es[1..]);
      RunGrows(u, es[1..]);
      if TicksLeft(w.table[i], |w.servers|) > 1 {
        SilentRun(u, es[1..], tok, i);
      }
      ScheduleTrans(w, u, Run(w, es), tok, i, 1, |es| - 1);
    }
  }

  lemma {:induction false} SilentServers(w: World, es: seq<Event>)
    requires forall e | e in es :: e.Tick?
    ensures Run(w, es).servers == w.servers
    decreases |es|
  {
    if es != [] {
      assert es[0] in es;
      TickServers(w, |w.table|);
      SilentServers(Step(w, es[0]), es[1..]);
    }
  }

  lemma {:induction false} TickServers(w: World, n: nat)
    requires n <= |w.table|
    ensures TickTo(w, n).servers == w.servers
  {
    if n > 0 {
      TickServers(w, n - 1);
      CheckGrows(TickTo(w, n - 1), n - 1, 0);
    }
  }

  /** The bound is sharp: with all servers set but silent, the callback comes with the last tick and not before. */
  lemma SilenceTimesOut(w: World, es: seq<Event>, tok: nat, i: nat)
    requires Inv(w) && Waits(w, tok, i) && AllSet(w) && !FallsBack(w.table[i].family) && forall e | e in es :: e.Tick?
    ensures CallCount(Run(w, es).called, tok) == if |es| >= TicksLeft(w.table[i], |w.servers|) then 1 else 0
  {
    SilentRun(w, es, tok, i);
    RunKeeps(w, es);
    NeverTwice(w, es, tok);
    if Waits(Run(w, es), tok, i) {
      WaitsAsking(Run(w, es), tok, i);
    }
  }
}
