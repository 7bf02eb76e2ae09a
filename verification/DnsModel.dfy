/**
 * The resolver of core/dns.c as a state machine on values: the request table, retries, backup servers, fallback to the
 * other address family, and the callbacks.  DnsResolver proves the in-place code against these functions; callbacks do
 * not re-enter the resolver.
 */
module DnsModel {
  import opened Common

  const MAX_RETRIES: nat := 4
  const MAX_TTL: u32 := 604800

  datatype Phase = Unused | New | Asking | Done

  /** LWIP_DNS_ADDRTYPE_* */
  datatype Family = V4 | V6 | V4ThenV6 | V6ThenV4

  /** struct dns_table_entry; a name stands for all its spellings in upper and lower case. */
  datatype Entry = Entry(state: Phase, txid: u16, server: nat, tmr: u8, retries: u8, ttl: u32, seqno: u8,
                         name: nat, family: Family, addr: nat)

  /** struct dns_req_entry; each callback with its argument is a token of its own. */
  datatype Req = Req(found: Option<nat>, idx: nat)

  /** A callback that was made: None means the name could not be resolved. */
  datatype Call = Call(tok: nat, name: nat, addr: Option<nat>)

  /** A query handed to UDP, which may lose it: to which server it goes, and whether it asks for an IPv6 address. */
  datatype Query = Query(name: nat, v6: bool, server: nat, txid: u16)

  /** `servers`: whether dns_servers[k] is set; `accepted`: tokens of the requests answered with ERR_INPROGRESS. */
  datatype World = World(table: seq<Entry>, reqs: seq<Req>, servers: seq<bool>, seqno: u8, called: seq<Call>,
                         accepted: set<nat>, sent: seq<Query>)

  /** What dns_recv finds in a packet whose txid is outstanding. */
  datatype Verdict = Ignored | ServerError | NoAnswer | Answer(ttl: u32, addr: nat)

  // ---- callbacks ----

  predicate IsFor(r: Req, i: nat) { r.found.Some? && r.idx == i }

  function Clear(r: Req, i: nat): Req { if IsFor(r, i) then Req(None, i) else r }

  function Cleared(reqs: seq<Req>, i: nat): (n: seq<Req>)
    ensures |n| == |reqs| && forall k | 0 <= k < |reqs| :: n[k] == Clear(reqs[k], i)
  {
    seq(|reqs|, k requires 0 <= k < |reqs| => Clear(reqs[k], i))
  }

  function Calls(reqs: seq<Req>, i: nat, name: nat, addr: Option<nat>): seq<Call> {
    if reqs == [] then []
    else Calls(reqs[..|reqs| - 1], i, name, addr) + LastCall(reqs[|reqs| - 1], i, name, addr)
  }

  /** The callback owed to one request, if it waits for entry i. */
  function LastCall(r: Req, i: nat, name: nat, addr: Option<nat>): seq<Call> {
    if IsFor(r, i) then [Call(r.found.value, name, addr)] else []
  }

  function Narrowed(f: Family): Family { if AsksV6(f) then V6 else V4 }

  function SetEntry(w: World, i: nat, e: Entry): World
    requires i < |w.table|
  {
    w.(table := w.table[i := e])
  }

  /** dns_call_found */
  function CallFound(w: World, i: nat, addr: Option<nat>): World
    requires i < |w.table|
  {
    var e := w.table[i];
    SetEntry(w, i, if addr.Some? then e.(family := Narrowed(e.family)) else e)
      .(reqs := Cleared(w.reqs, i), called := w.called + Calls(w.reqs, i, e.name, addr))
  }

  /** Report failure and flush the entry. */
  function Fail(w: World, i: nat): World
    requires i < |w.table|
  {
    SetEntry(CallFound(w, i, None), i, w.table[i].(state := Unused))
  }

  // ---- dns_check_entry ----

  predicate ServerSet(w: World, k: nat) { k < |w.servers| && w.servers[k] }

  /** LWIP_DNS_ADDRTYPE_IS_IPV6 */
  predicate AsksV6(f: Family) { f.V6? || f.V6ThenV4? }

  /** dns_send: a query goes out unless the server is gone. */
  function Send(w: World, i: nat): World
    requires i < |w.table|
  {
    var e := w.table[i];
    if ServerSet(w, e.server) then w.(sent := w.sent + [Query(e.name, AsksV6(e.family), e.server, e.txid)])
    else Fail(w, i)
  }

  /** dns_check_entry; txid is what dns_create_txid provides for a new entry. */
  function CheckEntry(w: World, i: nat, txid: u16): World
    requires i < |w.table|
  {
    var e := w.table[i];
    match e.state
    case New => Send(SetEntry(w, i, e.(txid := txid, state := Asking, server := 0, tmr := 1, retries := 0)), i)
    case Asking => CheckAsking(w, i)
    case Done =>
      if e.ttl == 0 then SetEntry(w, i, e.(state := Unused))
      else SetEntry(w, i, e.(ttl := e.ttl - 1, state := if e.ttl == 1 then Unused else Done))
    case Unused => w
  }

  function CheckAsking(w: World, i: nat): World
    requires i < |w.table|
  {
    var e := w.table[i];
    var tmr := (e.tmr - 1) % 0x100;
    if tmr != 0 then SetEntry(w, i, e.(tmr := tmr))
    else
      var retries := (e.retries + 1) % 0x100;
      if retries == MAX_RETRIES then
        if ServerSet(w, e.server + 1) then
          Send(SetEntry(w, i, e.(server := e.server + 1, tmr := 1, retries := 0)), i)
        else Fail(SetEntry(w, i, e.(tmr := 0, retries := retries)), i)
      else Send(SetEntry(w, i, e.(tmr := retries, retries := retries)), i)
  }

  /** dns_check_entries on the first n entries. */
  function TickTo(w: World, n: nat): (v: World)
    requires n <= |w.table|
    ensures |v.table| == |w.table|
  {
    if n == 0 then w else CheckEntry(TickTo(w, n - 1), n - 1, 0)
  }

  // ---- dns_recv ----

  /** The entry whose outstanding query has this txid, or |table|. */
  function AskingWith(table: seq<Entry>, txid: u16, i: nat): (r: nat)
    requires i <= |table|
    ensures i <= r <= |table| && (r < |table| ==> table[r].state.Asking? && table[r].txid == txid)
    ensures forall k | i <= k < r :: !(table[k].state.Asking? && table[k].txid == txid)
    decreases |table| - i
  {
    if i == |table| || (table[i].state.Asking? && table[i].txid == txid) then i else AskingWith(table, txid, i + 1)
  }

  /** dns_correct_response */
  function CorrectResponse(w: World, i: nat, ttl: u32, addr: nat): World
    requires i < |w.table|
  {
    var kept := if ttl > MAX_TTL then MAX_TTL else ttl;
    var v := CallFound(SetEntry(w, i, w.table[i].(state := Done, ttl := kept, addr := addr)), i, Some(addr));
    if kept == 0 then SetEntry(v, i, v.table[i].(state := Unused)) else v
  }

  predicate FallsBack(f: Family) { f.V4ThenV6? || f.V6ThenV4? }

  function OtherFamily(f: Family): Family { if f.V4ThenV6? then V6 else V4 }

  function OnVerdict(w: World, i: nat, v: Verdict, txid: u16): World
    requires i < |w.table|
  {
    var e := w.table[i];
    match v
    case Ignored => w
    case ServerError =>
      if ServerSet(w, e.server + 1) then CheckEntry(SetEntry(w, i, e.(retries := MAX_RETRIES - 1, tmr := 1)), i, txid)
      else Fail(w, i)
    case NoAnswer =>
      if FallsBack(e.family) then CheckEntry(SetEntry(w, i, e.(family := OtherFamily(e.family), state := New)), i, txid)
      else Fail(w, i)
    case Answer(ttl, addr) => CorrectResponse(w, i, ttl, addr)
  }

  function Receive(w: World, id: u16, v: Verdict, txid: u16): World {
    var i := AskingWith(w.table, id, 0);
    if i == |w.table| then w else OnVerdict(w, i, v, txid)
  }

  // ---- dns_enqueue ----

  /** A query for the same name and family that is already under way, or |table|. */
  function Duplicate(table: seq<Entry>, name: nat, family: Family, i: nat): (r: nat)
    requires i <= |table|
    ensures i <= r <= |table|
    ensures r < |table| ==> table[r].state.Asking? && table[r].name == name && table[r].family == family
    ensures forall k | i <= k < r :: !(table[k].state.Asking? && table[k].name == name && table[k].family == family)
    decreases |table| - i
  {
    if i == |table| || (table[i].state.Asking? && table[i].name == name && table[i].family == family) then i
    else Duplicate(table, name, family, i + 1)
  }

  function FreeReq(reqs: seq<Req>, k: nat): (r: nat)
    requires k <= |reqs|
    ensures k <= r <= |reqs| && (r < |reqs| ==> reqs[r].found.None?) && forall j | k <= j < r :: reqs[j].found.Some?
    decreases |reqs| - k
  {
    if k == |reqs| || reqs[k].found.None? then k else FreeReq(reqs, k + 1)
  }

  function Age(seqno: u8, e: Entry): u8 { (seqno - e.seqno) % 0x100 }

  /** The entry dns_enqueue settles on after looking at those before n: the oldest completed one, or |table|. */
  function Oldest(table: seq<Entry>, seqno: u8, n: nat): (r: nat)
    requires n <= |table|
    ensures r < n || r == |table|
    ensures r < |table| ==> table[r].state.Done? && Age(seqno, table[r]) > 0
    ensures r < |table| ==>
      forall k | 0 <= k < n && table[k].state.Done? :: Age(seqno, table[k]) <= Age(seqno, table[r])
    ensures r == |table| ==> forall k | 0 <= k < n && table[k].state.Done? :: Age(seqno, table[k]) == 0
  {
    if n == 0 then |table|
    else
      var r := Oldest(table, seqno, n - 1);
      var lseq := if r == |table| then 0 else Age(seqno, table[r]);
      if table[n - 1].state.Done? && Age(seqno, table[n - 1]) > lseq then n - 1 else r
  }

  function FirstUnused(table: seq<Entry>, i: nat): (r: nat)
    requires i <= |table|
    ensures i <= r <= |table| && (r < |table| ==> table[r].state.Unused?)
    ensures forall k | i <= k < r :: !table[k].state.Unused?
    decreases |table| - i
  {
    if i == |table| || table[i].state.Unused? then i else FirstUnused(table, i + 1)
  }

  function Pick(w: World): (r: nat)
    ensures r < |w.table| ==> w.table[r].state.Unused? || w.table[r].state.Done?
  {
    var u := FirstUnused(w.table, 0);
    if u < |w.table| then u else Oldest(w.table, w.seqno, |w.table|)
  }

  /**
   * No entry is to be had exactly when each one is under way or completed with the current sequence number (see
   * DnsAges).
   */
  lemma PickFails(w: World)
    ensures Pick(w) == |w.table| <==>
      forall k | 0 <= k < |w.table| ::
        !w.table[k].state.Unused? && (w.table[k].state.Done? ==> (w.seqno - w.table[k].seqno) % 0x100 == 0)
  {
    var u := FirstUnused(w.table, 0);
    if u == |w.table| {
      var r := Oldest(w.table, w.seqno, |w.table|);
      assert r < |w.table| ==> Age(w.seqno, w.table[r]) > 0;
      assert forall k | 0 <= k < |w.table| :: Age(w.seqno, w.table[k]) == (w.seqno - w.table[k].seqno) % 0x100;
    }
  }

  function Filled(w: World, i: nat, name: nat, family: Family): Entry
    requires i < |w.table|
  {
    w.table[i].(state := New, seqno := w.seqno, name := name, family := family)
  }

  /** dns_enqueue; `pcbOk`: a source port could be had.  The result is ERR_INPROGRESS (true) or ERR_MEM. */
  function Enqueue(w: World, name: nat, family: Family, tok: nat, pcbOk: bool, txid: u16): (World, bool) {
    var d, r, i := Duplicate(w.table, name, family, 0), FreeReq(w.reqs, 0), Pick(w);
    if r == |w.reqs| then (w, false)
    else if d < |w.table| then (w.(reqs := w.reqs[r := Req(Some(tok), d)], accepted := w.accepted + {tok}), true)
    else if i >= |w.table| then (w, false)
    else if !pcbOk then
      (SetEntry(w, i, Filled(w, i, name, family).(state := Unused)).(reqs := w.reqs[r := Req(None, i)]), false)
    else (CheckEntry(Opened(w, name, family, tok, r, i), i, txid), true)
  }

  /** The new entry and its request, before the query is sent. */
  function Opened(w: World, name: nat, family: Family, tok: nat, r: nat, i: nat): World
    requires r < |w.reqs| && i < |w.table|
  {
    SetEntry(w, i, Filled(w, i, name, family))
      .(reqs := w.reqs[r := Req(Some(tok), i)], seqno := (w.seqno + 1) % 0x100, accepted := w.accepted + {tok})
  }

  /** The end of dns_gethostbyname_addrtype: ERR_VAL (false) without a server, else dns_enqueue. */
  function Request(w: World, name: nat, family: Family, tok: nat, pcbOk: bool, txid: u16): (World, bool) {
    if ServerSet(w, 0) then Enqueue(w, name, family, tok, pcbOk, txid) else (w, false)
  }

  // ---- what every operation keeps ----

  predicate InUse(table: seq<Entry>, txid: u16, but: nat) {
    exists k :: 0 <= k < |table| && k != but && table[k].state.Asking? && table[k].txid == txid
  }

  /** A query under way has a server and a running timer. */
  predicate EntryOk(e: Entry, servers: nat) {
    && !e.state.New?
    && (e.state.Asking? ==>
          e.server < servers && e.retries < MAX_RETRIES && 1 <= e.tmr <= if e.retries == 0 then 1 else e.retries)
  }

  function ReqCount(reqs: seq<Req>, tok: nat): nat {
    if reqs == [] then 0 else ReqCount(reqs[..|reqs| - 1], tok) + if reqs[|reqs| - 1].found == Some(tok) then 1 else 0
  }

  function CallCount(cs: seq<Call>, tok: nat): nat {
    if cs == [] then 0 else CallCount(cs[..|cs| - 1], tok) + if cs[|cs| - 1].tok == tok then 1 else 0
  }

  predicate Conserves(w: World, tok: nat) {
    ReqCount(w.reqs, tok) + CallCount(w.called, tok) == if tok in w.accepted then 1 else 0
  }

  ghost predicate EntriesBut(w: World, i: nat) {
    forall k | 0 <= k < |w.table| && k != i :: EntryOk(w.table[k], |w.servers|)
  }

  /** A pending request belongs to a query under way. */
  predicate ReqAt(w: World, r: nat, i: nat)
    requires r < |w.reqs|
  {
    w.reqs[r].found.Some? ==>
      w.reqs[r].idx < |w.table| && (w.reqs[r].idx != i ==> w.table[w.reqs[r].idx].state.Asking?)
  }

  ghost predicate ReqsBut(w: World, i: nat) {
    forall r | 0 <= r < |w.reqs| :: ReqAt(w, r, i)
  }

  predicate Differ(table: seq<Entry>, j: nat, k: nat)
    requires j < |table| && k < |table|
  {
    table[j].state.Asking? && table[k].state.Asking? ==> table[j].txid != table[k].txid
  }

  ghost predicate TxidsBut(table: seq<Entry>, i: nat) {
    forall j, k | 0 <= j < k < |table| && j != i && k != i :: Differ(table, j, k)
  }

  /** Every accepted request is pending in one place or was answered once, and no other request is either. */
  ghost predicate Conserved(w: World) {
    forall tok: nat :: Conserves(w, tok)
  }

  /** The invariant, except that entry i is being worked on. */
  ghost predicate InvBut(w: World, i: nat) {
    0 < |w.servers| && EntriesBut(w, i) && ReqsBut(w, i) && TxidsBut(w.table, i) && Conserved(w)
  }

  /** Between operations no entry is being worked on. */
  ghost predicate Inv(w: World) { InvBut(w, |w.table|) }

  lemma InvToBut(w: World, i: nat)
    requires Inv(w)
    ensures InvBut(w, i)
  {
    forall r | 0 <= r < |w.reqs|
      ensures ReqAt(w, r, i)
    {
      assert ReqAt(w, r, |w.table|);
    }
  }

  lemma ButSetEntry(w: World, i: nat, e: Entry)
    requires InvBut(w, i) && i < |w.table|
    ensures InvBut(SetEntry(w, i, e), i)
  {
    var v := SetEntry(w, i, e);
    forall r | 0 <= r < |v.reqs|
      ensures ReqAt(v, r, i)
    {
      assert ReqAt(w, r, i);
    }
    forall j, k | 0 <= j < k < |v.table| && j != i && k != i
      ensures Differ(v.table, j, k)
    {
      assert Differ(w.table, j, k);
    }
    forall tok: nat
      ensures Conserves(v, tok)
    {
      assert Conserves(w, tok);
    }
  }

  /** Entry i becomes a query under way with a txid of its own. */
  lemma Replaced(w: World, i: nat, e: Entry)
    requires InvBut(w, i) && i < |w.table|
    requires e.state.Asking? && EntryOk(e, |w.servers|) && !InUse(w.table, e.txid, i)
    ensures Inv(SetEntry(w, i, e))
  {
    ButSetEntry(w, i, e);
    var v := SetEntry(w, i, e);
    forall r | 0 <= r < |v.reqs|
      ensures ReqAt(v, r, |v.table|)
    {
      assert ReqAt(v, r, i);
    }
    forall j, k | 0 <= j < k < |v.table|
      ensures Differ(v.table, j, k)
    {
      if j != i && k != i {
        assert Differ(w.table, j, k);
      }
    }
  }

  lemma {:induction false} CallCountConcat(a: seq<Call>, b: seq<Call>, tok: nat)
    ensures CallCount(a + b, tok) == CallCount(a, tok) + CallCount(b, tok)
  {
    if b == [] {
      assert a + b == a;
    } else {
      CallCountConcat(a, b[..|b| - 1], tok);
      assert (a + b)[..|a + b| - 1] == a + b[..|b| - 1];
    }
  }

  lemma OneCall(c: Call, tok: nat)
    ensures CallCount([c], tok) == if c.tok == tok then 1 else 0
  {
    assert [c][..0] == [];
  }

  lemma LastCallCount(r: Req, i: nat, name: nat, addr: Option<nat>, tok: nat)
    ensures CallCount(LastCall(r, i, name, addr), tok)
      == (if r.found == Some(tok) then 1 else 0) - (if Clear(r, i).found == Some(tok) then 1 else 0)
  {
    if IsFor(r, i) {
      OneCall(Call(r.found.value, name, addr), tok);
    }
  }

  /** Every cleared request is called once. */
  lemma {:induction false} CallsCount(reqs: seq<Req>, i: nat, name: nat, addr: Option<nat>, tok: nat)
    ensures ReqCount(Cleared(reqs, i), tok) + CallCount(Calls(reqs, i, name, addr), tok) == ReqCount(reqs, tok)
  {
    if reqs != [] {
      var n := |reqs| - 1;
      CallsCount(reqs[..n], i, name, addr, tok);
      assert Cleared(reqs, i)[..n] == Cleared(reqs[..n], i);
      LastCallCount(reqs[n], i, name, addr, tok);
      CallCountConcat(Calls(reqs[..n], i, name, addr), LastCall(reqs[n], i, name, addr), tok);
    }
  }

  lemma CallFoundConserved(w: World, i: nat, addr: Option<nat>)
    requires i < |w.table| && Conserved(w)
    ensures Conserved(CallFound(w, i, addr))
  {
    forall tok: nat
      ensures Conserves(CallFound(w, i, addr), tok)
    {
      assert Conserves(w, tok);
      CallsCount(w.reqs, i, w.table[i].name, addr, tok);
      CallCountConcat(w.called, Calls(w.reqs, i, w.table[i].name, addr), tok);
    }
  }

  /** The callbacks of entry i are made and it is no longer under way. */
  lemma Closed(w: World, i: nat, addr: Option<nat>, e: Entry)
    requires InvBut(w, i) && i < |w.table| && (e.state.Unused? || e.state.Done?)
    ensures Inv(SetEntry(CallFound(w, i, addr), i, e))
  {
    var u := CallFound(w, i, addr);
    var v := SetEntry(u, i, e);
    CallFoundConserved(w, i, addr);
    forall r | 0 <= r < |v.reqs|
      ensures ReqAt(v, r, |v.table|)
    {
      assert ReqAt(w, r, i);
    }
    forall j, k | 0 <= j < k < |v.table|
      ensures Differ(v.table, j, k)
    {
      if j != i && k != i {
        assert Differ(w.table, j, k);
      }
    }
    forall tok: nat
      ensures Conserves(v, tok)
    {
      assert Conserves(u, tok);
    }
  }

  lemma FailKeeps(w: World, i: nat)
    requires InvBut(w, i) && i < |w.table|
    ensures Inv(Fail(w, i))
  {
    Closed(w, i, None, w.table[i].(state := Unused));
  }

  lemma SendKeeps(w: World, i: nat)
    requires Inv(w) && i < |w.table|
    ensures Inv(Send(w, i))
  {
    if !ServerSet(w, w.table[i].server) {
      InvToBut(w, i);
      FailKeeps(w, i);
    } else {
      SeqnoKeeps(w, |w.table|, w.seqno, Send(w, i).sent);
    }
  }

  lemma CheckNewKeeps(w: World, i: nat, txid: u16)
    requires InvBut(w, i) && i < |w.table| && w.table[i].state.New? && !InUse(w.table, txid, i)
    ensures Inv(CheckEntry(w, i, txid))
  {
    var e := w.table[i].(txid := txid, state := Asking, server := 0, tmr := 1, retries := 0);
    Replaced(w, i, e);
    SendKeeps(SetEntry(w, i, e), i);
  }

  /** An entry's own txid is not in use by another one. */
  lemma OwnTxid(w: World, i: nat)
    requires Inv(w) && i < |w.table| && w.table[i].state.Asking?
    ensures !InUse(w.table, w.table[i].txid, i)
  {
    forall k | 0 <= k < |w.table| && k != i && w.table[k].state.Asking?
      ensures w.table[k].txid != w.table[i].txid
    {
      assert if k < i then Differ(w.table, k, i) else Differ(w.table, i, k);
    }
  }

  /** Changing timer, retries or server of a query under way. */
  lemma Retimed(w: World, i: nat, e: Entry)
    requires Inv(w) && i < |w.table| && w.table[i].state.Asking?
    requires e.state.Asking? && e.txid == w.table[i].txid && EntryOk(e, |w.servers|)
    ensures Inv(SetEntry(w, i, e))
  {
    InvToBut(w, i);
    OwnTxid(w, i);
    Replaced(w, i, e);
  }

  /** The state of a query under way when its timer is done; None if all servers have been tried. */
  function Retried(w: World, e: Entry): Option<Entry> {
    if e.retries + 1 < MAX_RETRIES then Some(e.(tmr := e.retries + 1, retries := e.retries + 1))
    else if ServerSet(w, e.server + 1) then Some(e.(server := e.server + 1, tmr := 1, retries := 0))
    else None
  }

  /** dns_check_entry on a query under way, free of u8_t wrap-around. */
  lemma CheckAskingIs(w: World, i: nat)
    requires i < |w.table| && w.table[i].state.Asking? && EntryOk(w.table[i], |w.servers|)
    ensures var e := w.table[i];
      CheckAsking(w, i) ==
        if e.tmr > 1 then SetEntry(w, i, e.(tmr := e.tmr - 1))
        else match Retried(w, e)
          case Some(n) => Send(SetEntry(w, i, n), i)
          case None => Fail(SetEntry(w, i, e.(tmr := 0, retries := MAX_RETRIES)), i)
  {
    var e := w.table[i];
    NoWrap(e.tmr, e.retries);
    if e.tmr == 1 {
      assert Retried(w, e).None? ==> e.retries + 1 == MAX_RETRIES;
    }
  }

  lemma NoWrap(tmr: u8, retries: u8)
    requires 1 <= tmr && retries < MAX_RETRIES
    ensures (tmr - 1) % 0x100 == tmr - 1 && (retries + 1) % 0x100 == retries + 1
  {
  }

  lemma SendAgainKeeps(w: World, i: nat, e: Entry)
    requires Inv(w) && i < |w.table| && w.table[i].state.Asking?
    requires e.state.Asking? && e.txid == w.table[i].txid && EntryOk(e, |w.servers|)
    ensures Inv(Send(SetEntry(w, i, e), i))
  {
    Retimed(w, i, e);
    SendKeeps(SetEntry(w, i, e), i);
  }

  lemma GiveUpKeeps(w: World, i: nat, e: Entry)
    requires Inv(w) && i < |w.table|
    ensures Inv(Fail(SetEntry(w, i, e), i))
  {
    InvToBut(w, i);
    ButSetEntry(w, i, e);
    FailKeeps(SetEntry(w, i, e), i);
  }

  lemma CheckAskingKeeps(w: World, i: nat)
    requires Inv(w) && i < |w.table| && w.table[i].state.Asking?
    ensures Inv(CheckAsking(w, i))
  {
    var e := w.table[i];
    assert EntryOk(e, |w.servers|);
    CheckAskingIs(w, i);
    if e.tmr > 1 {
      Retimed(w, i, e.(tmr := e.tmr - 1));
    } else if Retried(w, e).Some? {
      SendAgainKeeps(w, i, Retried(w, e).value);
    } else {
      GiveUpKeeps(w, i, e.(tmr := 0, retries := MAX_RETRIES));
    }
  }

  /** An entry without a query under way may change as long as no query appears. */
  lemma Idled(w: World, i: nat, e: Entry)
    requires Inv(w) && i < |w.table| && !w.table[i].state.Asking? && (e.state.Unused? || e.state.Done?)
    ensures Inv(SetEntry(w, i, e))
  {
    InvToBut(w, i);
    ButSetEntry(w, i, e);
    var v := SetEntry(w, i, e);
    forall r | 0 <= r < |v.reqs|
      ensures ReqAt(v, r, |v.table|)
    {
      assert ReqAt(w, r, |w.table|);
    }
    forall j, k | 0 <= j < k < |v.table|
      ensures Differ(v.table, j, k)
    {
      assert Differ(w.table, j, k);
    }
  }

  lemma CheckKeeps(w: World, i: nat, txid: u16)
    requires Inv(w) && i < |w.table|
    ensures Inv(CheckEntry(w, i, txid))
  {
    var e := w.table[i];
    assert EntryOk(e, |w.servers|);
    match e.state {
      case Asking => CheckAskingKeeps(w, i);
      case Done =>
        var n := if e.ttl == 0 then e.(state := Unused)
                 else e.(ttl := e.ttl - 1, state := if e.ttl == 1 then Unused else Done);
        Idled(w, i, n);
      case Unused =>
    }
  }

  lemma {:induction false} TickKeeps(w: World, n: nat)
    requires Inv(w) && n <= |w.table|
    ensures Inv(TickTo(w, n))
  {
    if n > 0 {
      TickKeeps(w, n - 1);
      TickKeepsOne(TickTo(w, n - 1), n - 1, TickTo(w, n));
    }
  }

  lemma TickKeepsOne(u: World, j: nat, v: World)
    requires Inv(u) && j < |u.table| && v == CheckEntry(u, j, 0)
    ensures Inv(v)
  {
    CheckKeeps(u, j, 0);
  }

  lemma CorrectResponseKeeps(w: World, i: nat, ttl: u32, addr: nat)
    requires Inv(w) && i < |w.table|
    ensures Inv(CorrectResponse(w, i, ttl, addr))
  {
    var kept := if ttl > MAX_TTL then MAX_TTL else ttl;
    var e := w.table[i].(state := Done, ttl := kept, addr := addr);
    var v := SetEntry(w, i, e);
    InvToBut(w, i);
    ButSetEntry(w, i, e);
    var done := CallFound(v, i, Some(addr)).table[i];
    Closed(v, i, Some(addr), done);
    assert SetEntry(CallFound(v, i, Some(addr)), i, done) == CallFound(v, i, Some(addr));
    Closed(v, i, Some(addr), done.(state := Unused));
  }

  lemma ServerErrorKeeps(w: World, i: nat, txid: u16)
    requires Inv(w) && i < |w.table| && w.table[i].state.Asking?
    ensures Inv(OnVerdict(w, i, ServerError, txid))
  {
    var e := w.table[i];
    assert EntryOk(e, |w.servers|);
    if ServerSet(w, e.server + 1) {
      var n := e.(retries := MAX_RETRIES - 1, tmr := 1);
      Retimed(w, i, n);
      CheckAskingKeeps(SetEntry(w, i, n), i);
    } else {
      InvToBut(w, i);
      FailKeeps(w, i);
    }
  }

  lemma NoAnswerKeeps(w: World, i: nat, txid: u16)
    requires Inv(w) && i < |w.table| && w.table[i].state.Asking? && !InUse(w.table, txid, i)
    ensures Inv(OnVerdict(w, i, NoAnswer, txid))
  {
    var e := w.table[i];
    InvToBut(w, i);
    if FallsBack(e.family) {
      var n := e.(family := OtherFamily(e.family), state := New);
      ButSetEntry(w, i, n);
      assert !InUse(SetEntry(w, i, n).table, txid, i);
      CheckNewKeeps(SetEntry(w, i, n), i, txid);
    } else {
      FailKeeps(w, i);
    }
  }

  lemma VerdictKeeps(w: World, i: nat, v: Verdict, txid: u16)
    requires Inv(w) && i < |w.table| && w.table[i].state.Asking? && !InUse(w.table, txid, i)
    ensures Inv(OnVerdict(w, i, v, txid))
  {
    match v
    case Ignored =>
    case ServerError => ServerErrorKeeps(w, i, txid);
    case NoAnswer => NoAnswerKeeps(w, i, txid);
    case Answer(ttl, addr) => CorrectResponseKeeps(w, i, ttl, addr);
  }

  // ---- dns_enqueue keeps it ----

  /** Writing a request slot that was free. */
  lemma {:induction false} ReqCountUpdate(reqs: seq<Req>, r: nat, q: Req, tok: nat)
    requires r < |reqs|
    ensures ReqCount(reqs[r := q], tok)
      == ReqCount(reqs, tok) - (if reqs[r].found == Some(tok) then 1 else 0) + (if q.found == Some(tok) then 1 else 0)
  {
    var n := |reqs| - 1;
    if r < n {
      ReqCountUpdate(reqs[..n], r, q, tok);
      assert reqs[r := q][..n] == reqs[..n][r := q];
    } else {
      assert reqs[r := q][..n] == reqs[..n];
    }
  }

  /** A new request for entry i, which is under way or about to be. */
  lemma Attached(w: World, r: nat, tok: nat, i: nat, but: nat)
    requires InvBut(w, but) && r < |w.reqs| && w.reqs[r].found.None? && tok !in w.accepted
    requires i < |w.table| && (i == but || w.table[i].state.Asking?)
    ensures InvBut(w.(reqs := w.reqs[r := Req(Some(tok), i)], accepted := w.accepted + {tok}), but)
  {
    var v := w.(reqs := w.reqs[r := Req(Some(tok), i)], accepted := w.accepted + {tok});
    forall k | 0 <= k < |v.reqs|
      ensures ReqAt(v, k, but)
    {
      assert ReqAt(w, k, but);
    }
    forall t: nat
      ensures Conserves(v, t)
    {
      assert Conserves(w, t);
      ReqCountUpdate(w.reqs, r, Req(Some(tok), i), t);
    }
  }

  lemma OpenedKeeps(w: World, name: nat, family: Family, tok: nat, r: nat, i: nat, txid: u16)
    requires Inv(w) && i < |w.table| && !w.table[i].state.Asking? && r < |w.reqs| && w.reqs[r].found.None?
    requires tok !in w.accepted && !InUse(w.table, txid, |w.table|)
    ensures Inv(CheckEntry(Opened(w, name, family, tok, r, i), i, txid))
  {
    InvToBut(w, i);
    ButSetEntry(w, i, Filled(w, i, name, family));
    Attached(SetEntry(w, i, Filled(w, i, name, family)), r, tok, i, i);
    var v := Opened(w, name, family, tok, r, i);
    var u := SetEntry(w, i, Filled(w, i, name, family))
      .(reqs := w.reqs[r := Req(Some(tok), i)], accepted := w.accepted + {tok});
    SeqnoKeeps(u, i, (w.seqno + 1) % 0x100, w.sent);
    assert !InUse(v.table, txid, i);
    CheckNewKeeps(v, i, txid);
  }

  /** The sequence number and the queries sent play no part in the invariant. */
  lemma SeqnoKeeps(w: World, i: nat, s: u8, sent: seq<Query>)
    requires InvBut(w, i)
    ensures InvBut(w.(seqno := s, sent := sent), i)
  {
    var v := w.(seqno := s, sent := sent);
    forall r | 0 <= r < |v.reqs|
      ensures ReqAt(v, r, i)
    {
      assert ReqAt(w, r, i);
    }
    forall tok: nat
      ensures Conserves(v, tok)
    {
      assert Conserves(w, tok);
    }
  }

  lemma NoPortKeeps(w: World, e: Entry, r: nat, i: nat)
    requires Inv(w) && i < |w.table| && !w.table[i].state.Asking? && r < |w.reqs| && w.reqs[r].found.None?
    requires e.state.Unused?
    ensures Inv(SetEntry(w, i, e).(reqs := w.reqs[r := Req(None, i)]))
  {
    Idled(w, i, e);
    var u := SetEntry(w, i, e);
    var v := u.(reqs := w.reqs[r := Req(None, i)]);
    forall k | 0 <= k < |v.reqs|
      ensures ReqAt(v, k, |v.table|)
    {
      assert ReqAt(u, k, |u.table|);
    }
    forall t: nat
      ensures Conserves(v, t)
    {
      assert Conserves(u, t);
      ReqCountUpdate(w.reqs, r, Req(None, i), t);
    }
  }

  lemma EnqueueKeeps(w: World, name: nat, family: Family, tok: nat, pcbOk: bool, txid: u16)
    requires Inv(w) && tok !in w.accepted && !InUse(w.table, txid, |w.table|)
    ensures Inv(Enqueue(w, name, family, tok, pcbOk, txid).0)
  {
    var d, r, i := Duplicate(w.table, name, family, 0), FreeReq(w.reqs, 0), Pick(w);
    if r < |w.reqs| {
      if d < |w.table| {
        Attached(w, r, tok, d, |w.table|);
      } else if i < |w.table| {
        if pcbOk {
          OpenedKeeps(w, name, family, tok, r, i, txid);
        } else {
          NoPortKeeps(w, Filled(w, i, name, family).(state := Unused), r, i);
        }
      }
    }
  }
}
