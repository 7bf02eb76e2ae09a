/** api/sockets.c: the sockets[] array with its use counts, proved against the slot protocol of SocketSlots. */
module Sockets {
  import opened Common
  import opened SocketSlots

  const FD_FREE_TCP: u8 := 1
  const FD_FREE_FREE: u8 := 2

  /** struct lwip_sock, the members the slot protocol uses. */
  datatype Sock = Sock(conn: Option<nat>, fdUsed: u8, fdFreePending: u8)

  /** The count is the number of holders. */
  ghost predicate Counts(k: Sock, s: Slot) {
    k.conn == s.conn && k.fdUsed == |s.holders| && (k.fdFreePending != 0 <==> s.closing)
  }

  /** Every event is one its caller may perform when its turn comes. */
  ghost predicate Legal(w: World, es: seq<Event>)
    decreases |es|
  {
    es == [] || (Enabled(w, es[0]) && Legal(Step(w, es[0]), es[1..]))
  }

  lemma {:induction false} RunAppend(w: World, es: seq<Event>, fs: seq<Event>)
    ensures Run(w, es + fs) == Run(Run(w, es), fs)
    decreases |es|
  {
    if es == [] {
      assert es + fs == fs;
    } else {
      assert (es + fs)[1..] == es[1..] + fs;
      RunAppend(Step(w, es[0]), es[1..], fs);
    }
  }

  function Flat(others: seq<seq<Event>>): seq<Event> {
    if others == [] then [] else Flat(others[..|others| - 1]) + others[|others| - 1]
  }

  /** The state alloc_socket sees in round i, if it has found nothing before: the others ran in between. */
  ghost function SeenInRound(w: World, others: seq<seq<Event>>, i: nat): World
    requires i < |others|
  {
    Run(w, Flat(others[..i + 1]))
  }

  lemma NextRound(w: World, others: seq<seq<Event>>, i: nat)
    requires i < |others|
    ensures SeenInRound(w, others, i) == Run(Run(w, Flat(others[..i])), others[i])
  {
    assert others[..i + 1][..i] == others[..i];
    RunAppend(w, Flat(others[..i]), others[i]);
  }

  /** The other threads' calls are legal while alloc_socket looks for a slot, and none of them uses its netconn. */
  ghost predicate AllocLegal(w: World, i: nat, newconn: nat, others: seq<seq<Event>>)
    decreases |others| - i
  {
    i < |others| ==>
      Legal(w, others[i])
      && (var v := Run(w, others[i]);
          newconn !in v.created && ((i < |v.slots| && CanAlloc(v.slots[i])) || AllocLegal(v, i + 1, newconn, others)))
  }

  ghost predicate FreeInRound(w: World, others: seq<seq<Event>>, i: nat)
    requires i < |others|
  {
    var v := SeenInRound(w, others, i);
    i < |v.slots| && CanAlloc(v.slots[i])
  }

  /** alloc_socket has looked at slots 0..i in vain and the others brought the world from w to v. */
  ghost predicate Skipped(w: World, v: World, others: seq<seq<Event>>, i: nat)
    requires i <= |others|
  {
    v == Run(w, Flat(others[..i])) && forall k | 0 <= k < i :: !FreeInRound(w, others, k)
  }

  lemma SkipOne(w: World, v: World, others: seq<seq<Event>>, i: nat)
    requires i < |others| && Skipped(w, v, others, i)
    ensures var u := Run(v, others[i]);
      u == SeenInRound(w, others, i) && (!FreeInRound(w, others, i) ==> Skipped(w, u, others, i + 1))
  {
    NextRound(w, others, i);
  }

  /** The debug assertion of sock_inc_used_locked is not an invariant: this run of a correct program breaks it. */
  lemma CompletedFreeLeavesPending(c: nat)
    ensures var w := Run(Init(1), [AllocAt(0, 0, c), Inc(0, 1), Free(0, 0), Done(0, 1)]);
      Enabled(w, Inc(0, 2)) && w.slots[0].closing && w.slots[0].conn.None? && w.deleted == [c]
  {
    RunFour(Init(1), AllocAt(0, 0, c), Inc(0, 1), Free(0, 0), Done(0, 1));
    PendingWorlds(c);
  }

  lemma RunFour(w: World, a: Event, b: Event, c: Event, d: Event)
    ensures Run(w, [a, b, c, d]) == Step(Step(Step(Step(w, a), b), c), d)
  {
    RunTwo(w, a, b);
    RunTwo(Step(Step(w, a), b), c, d);
    RunAppend(w, [a, b], [c, d]);
    assert [a, b] + [c, d] == [a, b, c, d];
  }

  lemma RunTwo(w: World, a: Event, b: Event)
    ensures Run(w, [a, b]) == Step(Step(w, a), b)
  {
    assert [a, b][1..] == [b] && [b][1..] == [];
    assert Run(w, [a, b]) == Run(Step(w, a), [b]);
    assert Run(Step(w, a), [b]) == Run(Step(Step(w, a), b), []);
  }

  lemma PendingWorlds(c: nat)
    ensures Step(Step(Step(Step(Init(1), AllocAt(0, 0, c)), Inc(0, 1)), Free(0, 0)), Done(0, 1))
      == World([Slot(None, map[], true)], {c}, [c])
  {
    var w1 := Step(Init(1), AllocAt(0, 0, c));
    assert w1 == World([Slot(Some(c), map[0 := Some(c)], false)], {c}, []);
    var two := map[0 := Some(c), 1 := Some(c)];
    var w2 := World([Slot(Some(c), two, false)], {c}, []);
    assert Step(w1, Inc(0, 1)) == w2;
    assert two - {0} == map[1 := Some(c)] && 1 in two - {0};
    var one: map<nat, Option<nat>> := map[1 := Some(c)];
    var w3 := World([Slot(Some(c), one, true)], {c}, []);
    assert Step(w2, Free(0, 0)) == w3;
    assert one - {1} == map[];
  }

  /** Nothing happens to the other slots. */
  ghost predicate OnlySlot(w: World, v: World, i: nat) {
    |v.slots| == |w.slots| && forall k | 0 <= k < |w.slots| && k != i :: v.slots[k] == w.slots[k]
  }

  /** Of all sockets but i, the fd_free_pending flags are as before. */
  ghost predicate SameFlags(a: seq<Sock>, b: seq<Sock>, i: nat) {
    |b| == |a| && forall k | 0 <= k < |a| && k != i :: b[k].fdFreePending == a[k].fdFreePending
  }

  /** The LWIP_SOCK_FD_FREE_TCP flag. */
  predicate IsTcp(flags: u8) { flags % 2 == 1 }

  class SocketTable {
    const sockets: array<Sock>
    ghost var w: World

    ghost predicate Valid()
      reads this, sockets
    {
      |w.slots| == sockets.Length && Inv(w) && forall i | 0 <= i < sockets.Length :: Counts(sockets[i], w.slots[i])
    }

    constructor (n: nat)
      ensures Valid() && fresh(sockets) && sockets.Length == n && w == Init(n)
    {
      sockets := new Sock[n](_ => Sock(None, 0, 0));
      w := Init(n);
      InitInv(n);
    }

    /** sock_inc_used: refused exactly while a free is pending. */
    method IncUsed(i: nat, ghost tok: nat) returns (ok: bool)
      requires Valid() && Enabled(w, Inc(i, tok))
      modifies this, sockets
      ensures Valid() && w == Step(old(w), Inc(i, tok)) && ok == Holds(w, i, tok)
      ensures ok <==> !old(w).slots[i].closing
      ensures OnlySlot(old(w), w, i) && w.deleted == old(w).deleted && w.created == old(w).created
      ensures w.slots[i].conn == old(w).slots[i].conn && w.slots[i].closing == old(w).slots[i].closing
      ensures w.slots[i].holders.Keys == old(w).slots[i].holders.Keys + if ok then {tok} else {}
      ensures SameFlags(old(sockets[..]), sockets[..], sockets.Length)
    {
      StepKeeps(w, Inc(i, tok));
      w := Step(w, Inc(i, tok));
      if sockets[i].fdFreePending != 0 {
        return false;
      }
      sockets[i] := sockets[i].(fdUsed := (sockets[i].fdUsed + 1) % 0x100);
      return true;
    }

    /**
     * sock_inc_used_locked; `assertion` is the outcome of its LWIP_ASSERTs: it fails iff a pending free has
     * completed.
     */
    method IncUsedLocked(i: nat, ghost tok: nat) returns (ok: bool, assertion: bool)
      requires Valid() && Enabled(w, Inc(i, tok))
      modifies this, sockets
      ensures Valid() && w == Step(old(w), Inc(i, tok)) && ok == Holds(w, i, tok)
      ensures assertion <==> !(old(w).slots[i].closing && old(w).slots[i].conn.None?)
      ensures ok <==> !old(w).slots[i].closing
    {
      if sockets[i].fdFreePending != 0 {
        w := Step(w, Inc(i, tok));
        return false, sockets[i].fdUsed != 0;
      }
      ok := IncUsed(i, tok);
      assertion := sockets[i].fdUsed != 0;
    }

    /** free_socket_locked on behalf of a holder: the netconn comes out iff this was the last one. */
    method FreeSocketLocked(i: nat, isTcp: bool, ghost tok: nat) returns (freed: bool, conn: Option<nat>)
      requires Valid() && Enabled(w, Free(i, tok))
      modifies this, sockets
      ensures Valid() && w == Step(old(w), Free(i, tok))
      ensures freed <==> old(w).slots[i].holders.Keys == {tok}
      ensures freed ==> conn.Some? && conn == old(w).slots[i].conn && w.deleted == old(w).deleted + [conn.value]
      ensures !freed ==> conn.None? && w.deleted == old(w).deleted && Closing(w, i, old(w).slots[i].conn.value)
      ensures OnlySlot(old(w), w, i) && w.slots[i].holders == old(w).slots[i].holders - {tok}
      ensures w.slots[i].conn == if freed then None else old(w).slots[i].conn
      ensures w.slots[i].closing == (old(w).slots[i].closing || !freed)
      ensures SameFlags(old(sockets[..]), sockets[..], i) && (!freed ==> IsTcp(sockets[i].fdFreePending) == isTcp)
    {
      Remaining(w.slots[i], tok);
      StepKeeps(w, Free(i, tok));
      w := Step(w, Free(i, tok));
      sockets[i] := sockets[i].(fdUsed := sockets[i].fdUsed - 1);
      if sockets[i].fdUsed > 0 {
        sockets[i] := sockets[i].(fdFreePending := FD_FREE_FREE + if isTcp then FD_FREE_TCP else 0);
        return false, None;
      }
      conn := sockets[i].conn;
      sockets[i] := sockets[i].(conn := None);
      freed := true;
    }

    /**
     * done_socket: the last holder of a slot whose free is pending gets the netconn, together with the kind of socket
     * that the pending free noted.
     */
    method DoneSocket(i: nat, ghost tok: nat) returns (freed: bool, conn: Option<nat>, isTcp: bool)
      requires Valid() && Enabled(w, Done(i, tok))
      modifies this, sockets
      ensures Valid() && w == Step(old(w), Done(i, tok))
      ensures freed <==> old(w).slots[i].holders.Keys == {tok} && old(w).slots[i].closing
      ensures freed ==> conn.Some? && conn == old(w).slots[i].conn && w.deleted == old(w).deleted + [conn.value]
      ensures freed ==> isTcp == IsTcp(old(sockets[i]).fdFreePending)
      ensures !freed ==> conn.None? && w.deleted == old(w).deleted
      ensures OnlySlot(old(w), w, i) && w.slots[i].holders == old(w).slots[i].holders - {tok}
      ensures w.slots[i].conn == if freed then None else old(w).slots[i].conn
      ensures w.slots[i].closing == old(w).slots[i].closing
      ensures SameFlags(old(sockets[..]), sockets[..], i)
    {
      Remaining(w.slots[i], tok);
      freed, conn, isTcp := false, None, false;
      sockets[i] := sockets[i].(fdUsed := sockets[i].fdUsed - 1);
      if sockets[i].fdUsed == 0 && sockets[i].fdFreePending != 0 {
        sockets[i] := sockets[i].(fdUsed := 1);
        assert sockets[i] == old(sockets[i]);
        isTcp := IsTcp(sockets[i].fdFreePending);
        freed, conn := FreeSocketLocked(i, isTcp, tok);
        return;
      }
      StepKeeps(w, Done(i, tok));
      w := Step(w, Done(i, tok));
    }

    /** One round of the alloc_socket loop. */
    method AllocRound(i: nat, newconn: nat, ghost tok: nat) returns (ok: bool)
      requires Valid() && Enabled(w, AllocAt(i, tok, newconn))
      modifies this, sockets
      ensures Valid() && w == Step(old(w), AllocAt(i, tok, newconn)) && ok == CanAlloc(old(w).slots[i])
      ensures ok <==> old(w).slots[i].conn.None? && old(w).slots[i].holders == map[]
      ensures OnlySlot(old(w), w, i)
      ensures w.slots[i] == if ok then Slot(Some(newconn), map[tok := Some(newconn)], false) else old(w).slots[i]
    {
      StepKeeps(w, AllocAt(i, tok, newconn));
      w := Step(w, AllocAt(i, tok, newconn));
      if sockets[i].conn.None? {
        if sockets[i].fdUsed != 0 {
          return false;
        }
        sockets[i] := Sock(Some(newconn), 1, 0);
        return true;
      }
      return false;
    }

    method Perform(e: Event)
      requires Valid() && Enabled(w, e)
      modifies this, sockets
      ensures Valid() && w == Step(old(w), e)
    {
      match e
      case Inc(i, tok) => var ok := IncUsed(i, tok);
      case Done(i, tok) => var freed, conn, isTcp := DoneSocket(i, tok);
      case Free(i, tok) => var freed, conn := FreeSocketLocked(i, true, tok);
      case AllocAt(i, tok, conn) => var ok := AllocRound(i, conn, tok);
    }

    /** What other threads do while this one is outside its protected sections. */
    method Others(es: seq<Event>)
      requires Valid() && Legal(w, es)
      modifies this, sockets
      ensures Valid() && w == Run(old(w), es)
    {
      if es != [] {
        Perform(es[0]);
        Others(es[1..]);
      }
    }

    method AllocTurn(i: nat, newconn: nat, ghost tok: nat, others: seq<seq<Event>>) returns (ok: bool)
      requires Valid() && i < |others| == sockets.Length && AllocLegal(w, i, newconn, others)
      modifies this, sockets
      ensures Valid()
      ensures var v := Run(old(w), others[i]);
        newconn !in v.created && |v.slots| == sockets.Length && w == Step(v, AllocAt(i, tok, newconn))
        && ok == CanAlloc(v.slots[i]) && (ok ==> Holds(w, i, tok) && w.slots[i].conn == Some(newconn))
        && OnlySlot(v, w, i) && (ok ==> v.slots[i].conn.None? && v.slots[i].holders == map[])
        && (ok ==> w.slots[i] == Slot(Some(newconn), map[tok := Some(newconn)], false))
        && (!ok ==> w == v)
      ensures !ok ==> AllocLegal(w, i + 1, newconn, others)
    {
      Others(others[i]);
      ok := AllocRound(i, newconn, tok);
    }

    /** alloc_socket: the first slot that is free when its turn comes; the others run between the rounds. */
    method AllocSocket(newconn: nat, ghost tok: nat, others: seq<seq<Event>>) returns (r: int)
      requires Valid() && |others| == sockets.Length && AllocLegal(w, 0, newconn, others)
      modifies this, sockets
      ensures Valid() && -1 <= r < sockets.Length
      ensures r == -1 ==> Skipped(old(w), w, others, |others|) && (sockets.Length > 0 ==> newconn !in w.created)
      ensures r >= 0 ==> var v := SeenInRound(old(w), others, r);
        FreeInRound(old(w), others, r) && (forall k | 0 <= k < r :: !FreeInRound(old(w), others, k))
        && w == Step(v, AllocAt(r, tok, newconn)) && Holds(w, r, tok) && w.slots[r].conn == Some(newconn)
        && v.slots[r].conn.None? && v.slots[r].holders == map[] && OnlySlot(v, w, r)
        && w.slots[r] == Slot(Some(newconn), map[tok := Some(newconn)], false)
    {
      var i: nat := 0;
      while i < sockets.Length
        invariant i <= sockets.Length && Valid() && Skipped(old(w), w, others, i)
        invariant AllocLegal(w, i, newconn, others)
        invariant i > 0 ==> newconn !in w.created
      {
        SkipOne(old(w), w, others, i);
        var ok := AllocTurn(i, newconn, tok, others);
        if ok {
          return i;
        }
        i := i + 1;
      }
      return -1;
    }

    /** tryget_socket: sock->conn is read outside the lock, while others run, and is still what it was on entry. */
    method TryGetSocket(fd: int, ghost tok: nat, others: seq<Event>) returns (r: Option<nat>)
      requires Valid()
      requires 0 <= fd < sockets.Length ==> Enabled(w, Inc(fd, tok)) && Legal(Step(w, Inc(fd, tok)), others)
      requires forall k | 0 <= k < |others| :: others[k].tok != tok
      modifies this, sockets
      ensures Valid()
      ensures r.Some? <==> 0 <= fd < sockets.Length && !old(w).slots[fd].closing && old(w).slots[fd].conn.Some?
      ensures r.Some? ==> r.value == fd && Holds(w, fd, tok) && w.slots[fd].conn == old(w).slots[fd].conn
      ensures r.Some? ==> w == Run(Step(old(w), Inc(fd, tok)), others)
      ensures r.None? && 0 <= fd < sockets.Length ==> !Holds(w, fd, tok)
    {
      if fd < 0 || fd >= sockets.Length {
        return None;
      }
      var ok := IncUsed(fd, tok);
      if !ok {
        return None;
      }
      HeldConnStays(w, others, fd, tok);
      Others(others);
      if sockets[fd].conn.Some? {
        return Some(fd);
      }
      var freed, conn, isTcp := DoneSocket(fd, tok);
      return None;
    }
  }

  lemma Remaining(s: Slot, tok: nat)
    requires tok in s.holders
    ensures |s.holders - {tok}| == |s.holders| - 1
    ensures |s.holders| == 1 <==> s.holders - {tok} == map[]
    ensures |s.holders| == 1 <==> s.holders.Keys == {tok}
  {
    SmallerMap(s.holders, tok);
    assert s.holders.Keys == (s.holders - {tok}).Keys + {tok};
  }
}
