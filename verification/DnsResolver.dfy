/**
 * core/dns.c: dns_table, dns_requests and dns_servers updated in place, proved against the state machine of
 * DnsModel.
 */
module DnsResolver {
  import opened Common
  import opened DnsModel
  import DnsRuns

  class Resolver {
    const table: array<Entry>
    const requests: array<Req>
    const servers: array<bool>
    var seqno: u8
    var called: seq<Call>         // callbacks made so far
    var sent: seq<Query>          // queries handed to UDP so far
    ghost var accepted: set<nat>

    ghost function W(): World
      reads this, table, requests, servers
    {
      World(table[..], requests[..], servers[..], seqno, called, accepted, sent)
    }

    ghost predicate Valid()
      reads this, table, requests, servers
    {
      && Inv(W()) && table.Length < 0x100 && requests.Length < 0x100 && servers.Length < 0x100
    }

    /** The zero-initialised globals, for any DNS_TABLE_SIZE, DNS_MAX_REQUESTS and DNS_MAX_SERVERS. */
    constructor (entries: nat, maxRequests: nat, maxServers: nat)
      requires entries < 0x100 && maxRequests < 0x100 && 0 < maxServers < 0x100
      ensures Valid() && fresh(table) && fresh(requests) && fresh(servers)
      ensures W() == DnsRuns.Init(entries, maxRequests, maxServers)
    {
      table := new Entry[entries](_ => Entry(Unused, 0, 0, 0, 0, 0, 0, 0, V4, 0));
      requests := new Req[maxRequests](_ => Req(None, 0));
      servers := new bool[maxServers](_ => false);
      seqno, called, accepted, sent := 0, [], {}, [];
      new;
      assert W() == DnsRuns.Init(entries, maxRequests, maxServers);
      DnsRuns.InitInv(entries, maxRequests, maxServers);
    }

    /** dns_setserver */
    method DnsSetServer(k: u8, valid: bool)
      requires Valid()
      modifies servers
      ensures Valid() && W() == DnsRuns.Step(old(W()), DnsRuns.SetServer(k, valid))
      ensures servers[..] == if k < servers.Length then old(servers[..])[k := valid] else old(servers[..])
    {
      if k < servers.Length {
        DnsRuns.ServersKeep(W(), k, valid);
        servers[k] := valid;
        assert W() == old(W()).(servers := old(servers[..])[k := valid]);
      }
    }

    /** The callback loop of dns_call_found. */
    method CallBack(i: nat, name: nat, addr: Option<nat>)
      modifies this`called, requests
      ensures requests[..] == Cleared(old(requests[..]), i)
      ensures called == old(called) + Calls(old(requests[..]), i, name, addr)
    {
      ghost var before := requests[..];
      var r := 0;
      while r < requests.Length
        invariant r <= requests.Length
        invariant forall k | 0 <= k < r :: requests[k] == Clear(before[k], i)
        invariant forall k | r <= k < requests.Length :: requests[k] == before[k]
        invariant called == old(called) + Calls(before[..r], i, name, addr)
      {
        assert before[..r + 1][..r] == before[..r];
        if requests[r].found.Some? && requests[r].idx == i {
          called := called + [Call(requests[r].found.value, name, addr)];
          requests[r] := requests[r].(found := None);
        }
        r := r + 1;
      }
      assert before[..r] == before;
    }

    /** dns_call_found */
    method DnsCallFound(i: nat, addr: Option<nat>)
      requires i < table.Length
      modifies this`called, table, requests
      ensures W() == CallFound(old(W()), i, addr)
    {
      if addr.Some? {
        table[i] := table[i].(family := if table[i].family.V6? || table[i].family.V6ThenV4? then V6 else V4);
      }
      CallBack(i, table[i].name, addr);
      assert table[..] == CallFound(old(W()), i, addr).table;
    }

    /** dns_call_found(i, NULL) and flushing the entry */
    method Flush(i: nat)
      requires i < table.Length
      modifies this`called, table, requests
      ensures W() == Fail(old(W()), i)
    {
      DnsCallFound(i, None);
      table[i] := table[i].(state := Unused);
    }

    /** dns_send: the query is handed to UDP */
    method DnsSend(i: nat)
      requires i < table.Length && table[i].server < servers.Length
      modifies this`called, this`sent, table, requests
      ensures W() == Send(old(W()), i)
    {
      if !servers[table[i].server] {
        Flush(i);
      } else {
        sent := sent + [Query(table[i].name, AsksV6(table[i].family), table[i].server, table[i].txid)];
      }
    }

    /** dns_create_txid: the first id drawn that no other query is using. */
    method DnsCreateTxid(draws: nat -> u16, ghost bound: nat) returns (txid: u16)
      requires !InUse(table[..], draws(bound), table.Length)
      ensures !InUse(table[..], txid, table.Length)
      ensures exists n: nat :: txid == draws(n) && forall k: nat | k < n :: InUse(table[..], draws(k), table.Length)
    {
      var n: nat := 0;
      var used := TxidUsed(draws(0));
      while used
        invariant n <= bound && (used <==> InUse(table[..], draws(n), table.Length))
        invariant forall k: nat | k < n :: InUse(table[..], draws(k), table.Length)
        decreases used, bound - n
      {
        n := n + 1;
        used := TxidUsed(draws(n));
      }
      txid := draws(n);
    }

    method TxidUsed(txid: u16) returns (used: bool)
      ensures used <==> InUse(table[..], txid, table.Length)
    {
      var k := 0;
      while k < table.Length
        invariant k <= table.Length && forall j | 0 <= j < k :: !(table[j].state.Asking? && table[j].txid == txid)
      {
        if table[k].state.Asking? && table[k].txid == txid {
          assert table[..][k] == table[k];
          return true;
        }
        k := k + 1;
      }
      return false;
    }

    /** dns_backupserver_available */
    predicate BackupServerAvailable(e: Entry)
      reads servers
    {
      e.server + 1 < servers.Length && servers[e.server + 1]
    }

    /** dns_check_entry, DNS_STATE_NEW */
    method CheckNew(i: nat, draws: nat -> u16, ghost bound: nat) returns (ghost txid: u16)
      requires i < table.Length && table[i].state.New? && 0 < servers.Length
      requires !InUse(table[..], draws(bound), table.Length)
      modifies this`called, this`sent, table, requests
      ensures W() == CheckEntry(old(W()), i, txid) && !InUse(old(table[..]), txid, table.Length)
    {
      var id := DnsCreateTxid(draws, bound);
      txid := id;
      table[i] := table[i].(txid := id, state := Asking, server := 0, tmr := 1, retries := 0);
      assert W() == SetEntry(old(W()), i, table[i]);
      DnsSend(i);
    }

    /** What a query becomes when its timer is done; `more` is false when all servers have been tried. */
    method NextTry(e: Entry) returns (n: Entry, more: bool)
      requires e.state.Asking? && EntryOk(e, servers.Length) && e.tmr == 1
      ensures more == Retried(W(), e).Some?
      ensures n == if more then Retried(W(), e).value else e.(tmr := 0, retries := MAX_RETRIES)
    {
      n, more := e.(tmr := 0, retries := (e.retries + 1) % 0x100), true;
      if n.retries == MAX_RETRIES {
        if BackupServerAvailable(e) {
          n := n.(server := n.server + 1, tmr := 1, retries := 0);
        } else {
          more := false;
        }
      } else {
        n := n.(tmr := n.retries);
      }
    }

    /** dns_check_entry, DNS_STATE_ASKING */
    method CheckOutstanding(i: nat)
      requires i < table.Length && table[i].state.Asking? && EntryOk(table[i], servers.Length)
      modifies this`called, this`sent, table, requests
      ensures W() == CheckAsking(old(W()), i)
    {
      CheckAskingIs(W(), i);
      if table[i].tmr > 1 {
        table[i] := table[i].(tmr := table[i].tmr - 1);
        return;
      }
      var e, more := NextTry(table[i]);
      table[i] := e;
      assert W() == SetEntry(old(W()), i, e);
      if more {
        DnsSend(i);
      } else {
        Flush(i);
      }
    }

    /** dns_check_entry on an entry without a query to be sent, DNS_STATE_DONE and DNS_STATE_UNUSED included */
    method CheckSettled(i: nat)
      requires i < table.Length && !table[i].state.New? && EntryOk(table[i], servers.Length)
      modifies this`called, this`sent, table, requests
      ensures W() == CheckEntry(old(W()), i, 0)
    {
      match table[i].state
      case Asking => CheckOutstanding(i);
      case Done =>
        if table[i].ttl != 0 {
          table[i] := table[i].(ttl := table[i].ttl - 1);
        }
        if table[i].ttl == 0 {
          table[i] := table[i].(state := Unused);
        }
      case Unused =>
    }

    /** dns_check_entries, once per second */
    method DnsTmr()
      requires Valid()
      modifies this`called, this`sent, table, requests
      ensures Valid() && W() == DnsRuns.Step(old(W()), DnsRuns.Tick)
    {
      for i := 0 to table.Length
        invariant W() == TickTo(old(W()), i) && Inv(W())
      {
        assert EntryOk(W().table[i], |W().servers|);
        CheckKeeps(W(), i, 0);
        CheckSettled(i);
      }
    }

    /** dns_correct_response */
    method DnsCorrectResponse(i: nat, ttl: u32, addr: nat)
      requires i < table.Length
      modifies this`called, table, requests
      ensures W() == CorrectResponse(old(W()), i, ttl, addr)
    {
      table[i] := table[i].(state := Done, ttl := ttl, addr := addr);
      if table[i].ttl > MAX_TTL {
        table[i] := table[i].(ttl := MAX_TTL);
      }
      DnsCallFound(i, Some(addr));
      if table[i].ttl == 0 {
        table[i] := table[i].(state := Unused);
      }
    }

    /** dns_recv on the entry the packet is for. */
    method OnResponse(i: nat, verdict: Verdict, draws: nat -> u16, ghost bound: nat) returns (ghost txid: u16)
      requires Valid() && i < table.Length && table[i].state.Asking? && !InUse(table[..], draws(bound), i)
      modifies this`called, this`sent, table, requests
      ensures W() == OnVerdict(old(W()), i, verdict, txid) && !InUse(old(table[..]), txid, i)
    {
      txid := draws(bound);
      ghost var w := W();
      assert EntryOk(w.table[i], |w.servers|);
      match verdict
      case Ignored =>
      case ServerError =>
        if BackupServerAvailable(table[i]) {
          table[i] := table[i].(retries := MAX_RETRIES - 1, tmr := 1);
          assert W() == SetEntry(w, i, table[i]);
          CheckOutstanding(i);
        } else {
          Flush(i);
        }
      case NoAnswer =>
        if table[i].family.V4ThenV6? || table[i].family.V6ThenV4? {
          txid := AskOtherFamily(i, draws, bound);
        } else {
          Flush(i);
        }
      case Answer(ttl, addr) => DnsCorrectResponse(i, ttl, addr);
    }

    /** The query is repeated for the other address family. */
    method AskOtherFamily(i: nat, draws: nat -> u16, ghost bound: nat) returns (ghost txid: u16)
      requires Valid() && i < table.Length && table[i].state.Asking? && !InUse(table[..], draws(bound), i)
      requires FallsBack(table[i].family)
      modifies this`called, this`sent, table, requests
      ensures W() == OnVerdict(old(W()), i, NoAnswer, txid) && !InUse(old(table[..]), txid, i)
    {
      ghost var w := W();
      table[i] := table[i].(family := if table[i].family.V4ThenV6? then V6 else V4, state := New);
      assert W() == SetEntry(w, i, w.table[i].(family := OtherFamily(w.table[i].family), state := New));
      Reopened(w.table, i, table[..], draws(bound));
      txid := CheckNew(i, draws, bound);
      var e := w.table[i].(family := OtherFamily(w.table[i].family), state := New);
      Reopened(w.table, i, SetEntry(w, i, e).table, txid);
    }

    /** dns_recv: the packet with this txid turned out to be `verdict`. */
    method DnsRecv(id: u16, verdict: Verdict, draws: nat -> u16, ghost bound: nat) returns (ghost txid: u16)
      requires Valid() && !InUse(table[..], draws(bound), AskingWith(table[..], id, 0))
      modifies this`called, this`sent, table, requests
      ensures Valid() && W() == Receive(old(W()), id, verdict, txid)
      ensures !InUse(old(table[..]), txid, AskingWith(old(table[..]), id, 0))
    {
      var i: nat := 0;
      txid := draws(bound);
      while i < table.Length
        invariant i <= table.Length && W() == old(W()) && txid == draws(bound)
        invariant forall k | 0 <= k < i :: !(table[k].state.Asking? && table[k].txid == id)
      {
        if table[i].state.Asking? && table[i].txid == id {
          FirstAskingWith(table[..], id, i);
          ghost var w := W();
          txid := OnResponse(i, verdict, draws, bound);
          VerdictKeeps(w, i, verdict, txid);
          return;
        }
        i := i + 1;
      }
      FirstAskingWith(table[..], id, i);
    }

    /** The search for a request entry that is not in use. */
    method FindFreeReq() returns (r: nat)
      ensures r == FreeReq(requests[..], 0)
    {
      r := 0;
      while r < requests.Length
        invariant r <= requests.Length && forall k | 0 <= k < r :: requests[k].found.Some?
      {
        if requests[r].found.None? {
          FirstFreeReq(requests[..], r);
          return;
        }
        r := r + 1;
      }
      FirstFreeReq(requests[..], r);
    }

    /** Join a query for the same name that is already under way. */
    method JoinDuplicate(name: nat, family: Family, tok: nat) returns (joined: bool)
      modifies this`accepted, requests
      ensures var d, r := Duplicate(old(table[..]), name, family, 0), FreeReq(old(requests[..]), 0);
        && (joined <==> d < table.Length && r < requests.Length)
        && (joined ==>
              W() == old(W()).(reqs := old(requests[..])[r := Req(Some(tok), d)], accepted := old(accepted) + {tok}))
        && (!joined ==> W() == old(W()))
    {
      var i: nat := 0;
      while i < table.Length
        invariant i <= table.Length && W() == old(W())
        invariant FreeReq(requests[..], 0) == requests.Length
          || forall k | 0 <= k < i :: !(table[k].state.Asking? && table[k].name == name && table[k].family == family)
      {
        if table[i].state.Asking? && table[i].name == name && table[i].family == family {
          var r := FindFreeReq();
          if r < requests.Length {
            FirstDuplicate(table[..], name, family, i);
            requests[r] := Req(Some(tok), i);
            accepted := accepted + {tok};
            return true;
          }
        }
        i := i + 1;
      }
      if FreeReq(requests[..], 0) < requests.Length {
        FirstDuplicate(table[..], name, family, i);
      }
      return false;
    }

    /** The first unused entry, else the oldest completed one. */
    method PickEntry() returns (i: nat)
      ensures i == Pick(W())
    {
      var lseq: u8, lseqi := 0, table.Length;
      i := 0;
      while i < table.Length
        invariant i <= table.Length && forall k | 0 <= k < i :: !table[k].state.Unused?
        invariant lseqi == Oldest(table[..], seqno, i)
        invariant lseq == if lseqi == table.Length then 0 else Age(seqno, table[lseqi])
      {
        if table[i].state.Unused? {
          FirstUnusedIs(table[..], i);
          return;
        }
        if table[i].state.Done? {
          var age := (seqno - table[i].seqno) % 0x100;
          if age > lseq {
            lseq, lseqi := age, i;
          }
        }
        i := i + 1;
      }
      FirstUnusedIs(table[..], i);
      return lseqi;
    }

    /** dns_enqueue: true is ERR_INPROGRESS, false ERR_MEM; `pcbOk` says whether dns_alloc_pcb finds a source port. */
    method DnsEnqueue(name: nat, family: Family, tok: nat, pcbOk: bool, draws: nat -> u16, ghost bound: nat)
      returns (ok: bool, ghost txid: u16)
      requires Valid() && tok !in accepted && !InUse(table[..], draws(bound), table.Length)
      modifies this, table, requests
      ensures Valid() && (W(), ok) == Enqueue(old(W()), name, family, tok, pcbOk, txid)
      ensures !InUse(old(table[..]), txid, table.Length)
    {
      ghost var w := W();
      txid := draws(bound);
      ok := JoinDuplicate(name, family, tok);
      if !ok {
        var i := PickEntry();
        if i < table.Length {
          var r := FindFreeReq();
          if r < requests.Length {
            ok, txid := UseEntry(name, family, tok, pcbOk, r, i, draws, bound);
          }
        }
      }
      EnqueueKeeps(w, name, family, tok, pcbOk, txid);
    }

    /** A new query in the entry that was found. */
    method UseEntry(name: nat, family: Family, tok: nat, pcbOk: bool, r: nat, i: nat, draws: nat -> u16,
                    ghost bound: nat)
      returns (ok: bool, ghost txid: u16)
      requires r < requests.Length && i < table.Length && !table[i].state.Asking? && 0 < servers.Length
      requires !InUse(table[..], draws(bound), table.Length)
      modifies this, table, requests
      ensures !InUse(old(table[..]), txid, table.Length) && ok == pcbOk
      ensures ok ==> W() == CheckEntry(Opened(old(W()), name, family, tok, r, i), i, txid)
      ensures !ok ==> W() == SetEntry(old(W()), i, Filled(old(W()), i, name, family).(state := Unused))
                              .(reqs := old(requests[..])[r := Req(None, i)])
    {
      ghost var w := W();
      txid := draws(bound);
      table[i] := table[i].(state := New, seqno := seqno, name := name, family := family);
      requests[r] := Req(Some(tok), i);
      if !pcbOk {
        table[i] := table[i].(state := Unused);
        requests[r] := requests[r].(found := None);
        return false, txid;
      }
      seqno := (seqno + 1) % 0x100;
      accepted := accepted + {tok};
      assert W() == Opened(w, name, family, tok, r, i);
      NotAskingReopened(w.table, i, table[..], draws(bound));
      txid := CheckNew(i, draws, bound);
      NotAskingReopened(w.table, i, Opened(w, name, family, tok, r, i).table, txid);
      ok := true;
    }

    /** The end of dns_gethostbyname_addrtype: without a server the request is refused (ERR_VAL), else enqueued. */
    method GetHostByName(name: nat, family: Family, tok: nat, pcbOk: bool, draws: nat -> u16, ghost bound: nat)
      returns (ok: bool, ghost txid: u16)
      requires Valid() && tok !in accepted && !InUse(table[..], draws(bound), table.Length)
      modifies this, table, requests
      ensures Valid() && (W(), ok) == Request(old(W()), name, family, tok, pcbOk, txid)
      ensures !InUse(old(table[..]), txid, table.Length)
    {
      if !servers[0] {
        return false, draws(bound);
      }
      ok, txid := DnsEnqueue(name, family, tok, pcbOk, draws, bound);
    }
  }

  // ---- first matches ----

  lemma FirstAskingWith(es: seq<Entry>, txid: u16, i: nat)
    requires i <= |es| && (forall k | 0 <= k < i :: !(es[k].state.Asking? && es[k].txid == txid))
    requires i < |es| ==> es[i].state.Asking? && es[i].txid == txid
    ensures AskingWith(es, txid, 0) == i
  {
  }

  lemma FirstFreeReq(reqs: seq<Req>, r: nat)
    requires r <= |reqs| && (forall k | 0 <= k < r :: reqs[k].found.Some?) && (r < |reqs| ==> reqs[r].found.None?)
    ensures FreeReq(reqs, 0) == r
  {
  }

  lemma FirstDuplicate(es: seq<Entry>, name: nat, family: Family, i: nat)
    requires i <= |es|
    requires forall k | 0 <= k < i :: !(es[k].state.Asking? && es[k].name == name && es[k].family == family)
    requires i < |es| ==> es[i].state.Asking? && es[i].name == name && es[i].family == family
    ensures Duplicate(es, name, family, 0) == i
  {
  }

  lemma FirstUnusedIs(es: seq<Entry>, i: nat)
    requires i <= |es| && (forall k | 0 <= k < i :: !es[k].state.Unused?) && (i < |es| ==> es[i].state.Unused?)
    ensures FirstUnused(es, 0) == i
  {
  }

  /** An entry that is being set up does not count as a user of its txid. */
  lemma Reopened(es: seq<Entry>, i: nat, ns: seq<Entry>, txid: u16)
    requires i < |es| == |ns| && ns == es[i := ns[i]] && ns[i].state.New?
    ensures InUse(ns, txid, |ns|) <==> InUse(es, txid, i)
  {
    if InUse(es, txid, i) {
      var k :| 0 <= k < |es| && k != i && es[k].state.Asking? && es[k].txid == txid;
      assert ns[k] == es[k];
    }
    if InUse(ns, txid, |ns|) {
      var k :| 0 <= k < |ns| && k != |ns| && ns[k].state.Asking? && ns[k].txid == txid;
      assert ns[k] == es[k];
    }
  }

  lemma NotAskingReopened(es: seq<Entry>, i: nat, ns: seq<Entry>, txid: u16)
    requires i < |es| == |ns| && ns == es[i := ns[i]] && ns[i].state.New? && !es[i].state.Asking?
    ensures InUse(ns, txid, |ns|) <==> InUse(es, txid, |es|)
  {
    Reopened(es, i, ns, txid);
    if InUse(es, txid, |es|) {
      var k :| 0 <= k < |es| && k != |es| && es[k].state.Asking? && es[k].txid == txid;
      assert k != i;
    }
  }
}
