/**
 * The learning bridge table (netif/bridgeif_fdb.c; sections 7.8 and 7.9.2 of IEEE 802.1D-2004): an array of entries
 * that refines a capacity-bounded map from addresses to ports with the seconds they are still good for.
 */
module BridgeFdb {
  import opened Common

  const TIMEOUT_SEC: nat := 300
  const MAX_PORTS: nat := 7
  const FLOOD: u8 := 0xff

  type Mac = seq<byte>
  type PortIndex = x: int | 0 <= x <= MAX_PORTS

  /** bridgeif_dfdb_entry_t */
  datatype Entry = Entry(used: bool, port: PortIndex, ts: nat, addr: Mac)

  predicate Live(e: Entry) { e.used && e.ts != 0 }

  /** What is known about an address. */
  datatype Lease = Lease(port: PortIndex, left: nat)

  type Table = map<Mac, Lease>

  // ---- the ideal table ----

  function Learn(t: Table, capacity: nat, a: Mac, port: PortIndex): Table {
    if a in t || |t| < capacity then t[a := Lease(port, TIMEOUT_SEC)] else t
  }

  function Age(t: Table): Table {
    map a | a in t && t[a].left > 1 :: Lease(t[a].port, t[a].left - 1)
  }

  /** (bridgeif_portmask_t)(1 << port) */
  function PortMask(port: nat): u8 { if port == 0 then 1 else 2 * PortMask(port - 1) % 0x100 }

  function Lookup(t: Table, a: Mac): u8 { if a in t then PortMask(t[a].port) else FLOOD }

  /** The mask of port p is bit p. */
  lemma PortMaskBit(p: PortIndex)
    ensures PortMask(p) == [1, 2, 4, 8, 16, 32, 64, 128][p]
  {
    assert PortMask(1) == 2 && PortMask(2) == 4 && PortMask(3) == 8;
    assert PortMask(4) == 16 && PortMask(5) == 32 && PortMask(6) == 64 && PortMask(7) == 128;
    assert p == 0 || p == 1 || p == 2 || p == 3 || p == 4 || p == 5 || p == 6 || p == 7;
  }

  /** A port mask names one port and is never mistaken for flooding. */
  lemma PortMaskNamesPort(p: PortIndex, q: PortIndex)
    ensures PortMask(p) == PortMask(q) ==> p == q
    ensures PortMask(p) != FLOOD && PortMask(p) != 0
  {
    PortMaskBit(p);
    PortMaskBit(q);
  }

  // ---- the array refines the ideal table ----

  /** At most one live entry per address. */
  ghost predicate Unique(es: seq<Entry>) {
    forall i, j | 0 <= i < j < |es| && Live(es[i]) && Live(es[j]) :: es[i].addr != es[j].addr
  }

  ghost predicate EntryAt(es: seq<Entry>, t: Table, i: nat)
    requires i < |es|
  {
    Live(es[i]) ==> es[i].addr in t && t[es[i].addr] == Lease(es[i].port, es[i].ts)
  }

  ghost predicate HasEntry(es: seq<Entry>, a: Mac) {
    exists i :: 0 <= i < |es| && Live(es[i]) && es[i].addr == a
  }

  ghost predicate Represents(es: seq<Entry>, t: Table) {
    && Unique(es) && (forall i | 0 <= i < |es| :: EntryAt(es, t, i))
    && (forall a | a in t :: HasEntry(es, a))
  }

  function LiveCount(es: seq<Entry>): nat {
    if es == [] then 0 else LiveCount(es[..|es| - 1]) + if Live(es[|es| - 1]) then 1 else 0
  }

  lemma {:induction false} LiveCountBound(es: seq<Entry>)
    ensures LiveCount(es) <= |es|
    ensures LiveCount(es) == |es| <==> forall i | 0 <= i < |es| :: Live(es[i])
  {
    if es != [] {
      LiveCountBound(es[..|es| - 1]);
    }
  }

  /** The ideal table has as many addresses as the array has live entries. */
  lemma {:induction false} TableSize(es: seq<Entry>, t: Table)
    requires Represents(es, t)
    ensures |t| == LiveCount(es)
  {
    if es == [] {
      assert forall a :: a !in t;
      assert t == map[];
    } else {
      var n := |es| - 1;
      var front, last := es[..n], es[n];
      if Live(last) {
        var u := t - {last.addr};
        assert EntryAt(es, t, n);
        DroppedLast(es, t);
        TableSize(front, u);
        assert t.Keys == u.Keys + {last.addr};
      } else {
        KeptFront(es, t);
        TableSize(front, t);
      }
    }
  }

  lemma DroppedLast(es: seq<Entry>, t: Table)
    requires Represents(es, t) && es != [] && Live(es[|es| - 1])
    ensures Represents(es[..|es| - 1], t - {es[|es| - 1].addr})
  {
    var n := |es| - 1;
    var front, u := es[..n], t - {es[n].addr};
    forall i | 0 <= i < n
      ensures EntryAt(front, u, i)
    {
      assert EntryAt(es, t, i);
    }
    forall a | a in u
      ensures HasEntry(front, a)
    {
      assert HasEntry(es, a);
      var i :| 0 <= i < |es| && Live(es[i]) && es[i].addr == a;
      assert front[i] == es[i];
    }
  }

  lemma KeptFront(es: seq<Entry>, t: Table)
    requires Represents(es, t) && es != [] && !Live(es[|es| - 1])
    ensures Represents(es[..|es| - 1], t)
  {
    var front := es[..|es| - 1];
    forall i | 0 <= i < |front|
      ensures EntryAt(front, t, i)
    {
      assert EntryAt(es, t, i);
    }
    forall a | a in t
      ensures HasEntry(front, a)
    {
      assert HasEntry(es, a);
      var i :| 0 <= i < |es| && Live(es[i]) && es[i].addr == a;
      assert front[i] == es[i];
    }
  }

  /** A table without a dead entry is full. */
  lemma Capacity(es: seq<Entry>, t: Table)
    requires Represents(es, t)
    ensures |t| <= |es|
    ensures |t| == |es| <==> forall i | 0 <= i < |es| :: Live(es[i])
  {
    TableSize(es, t);
    LiveCountBound(es);
  }

  /** Writing a fresh lease for `a` into slot k, which held `a` already or was dead while `a` was unknown. */
  lemma WrittenRepresents(es: seq<Entry>, t: Table, k: nat, a: Mac, port: PortIndex)
    requires Represents(es, t) && k < |es|
    requires if a in t then Live(es[k]) && es[k].addr == a else !Live(es[k])
    ensures Represents(es[k := Entry(true, port, TIMEOUT_SEC, a)], t[a := Lease(port, TIMEOUT_SEC)])
  {
    var ns, nt := es[k := Entry(true, port, TIMEOUT_SEC, a)], t[a := Lease(port, TIMEOUT_SEC)];
    forall i | 0 <= i < |ns|
      ensures EntryAt(ns, nt, i) && (i != k && Live(ns[i]) ==> ns[i].addr != a)
    {
      assert EntryAt(es, t, i);
    }
    forall b | b in nt
      ensures HasEntry(ns, b)
    {
      if b == a {
        assert Live(ns[k]);
      } else {
        assert HasEntry(es, b);
        var i :| 0 <= i < |es| && Live(es[i]) && es[i].addr == b;
        assert ns[i] == es[i];
      }
    }
  }

  /** One entry a second later. */
  function Older(e: Entry): Entry {
    if !Live(e) then e else if e.ts == 1 then e.(ts := 0, used := false) else e.(ts := e.ts - 1)
  }

  lemma OlderRepresents(es: seq<Entry>, t: Table, ns: seq<Entry>)
    requires Represents(es, t) && |ns| == |es| && forall i | 0 <= i < |es| :: ns[i] == Older(es[i])
    ensures Represents(ns, Age(t))
  {
    forall i | 0 <= i < |ns|
      ensures EntryAt(ns, Age(t), i)
    {
      assert EntryAt(es, t, i);
    }
    forall a | a in Age(t)
      ensures HasEntry(ns, a)
    {
      assert HasEntry(es, a);
      var i :| 0 <= i < |es| && Live(es[i]) && es[i].addr == a;
      assert EntryAt(es, t, i);
      assert Live(ns[i]) && ns[i].addr == a;
    }
  }

  class Fdb {
    const fdb: array<Entry>
    ghost var table: Table

    ghost predicate Valid()
      reads this, fdb
    {
      Represents(fdb[..], table)
    }

    /** bridgeif_fdb_init (mem_calloc clears the entries) */
    constructor (max: u16)
      ensures Valid() && fresh(fdb) && fdb.Length == max && table == map[]
    {
      fdb := new Entry[max](_ => Entry(false, 0, 0, []));
      table := map[];
    }

    /** The scan shared by learning and lookup: the live entry of an address. */
    method Find(a: Mac) returns (i: nat)
      requires Valid()
      ensures i <= fdb.Length && (i < fdb.Length <==> a in table)
      ensures i < fdb.Length ==> Live(fdb[i]) && fdb[i].addr == a && table[a] == Lease(fdb[i].port, fdb[i].ts)
    {
      i := 0;
      while i < fdb.Length
        invariant i <= fdb.Length && forall j | 0 <= j < i :: !(Live(fdb[j]) && fdb[j].addr == a)
      {
        if fdb[i].used && fdb[i].ts != 0 {
          if fdb[i].addr == a {
            assert EntryAt(fdb[..], table, i);
            return;
          }
        }
        i := i + 1;
      }
      assert a in table ==> HasEntry(fdb[..], a);
    }

    /** bridgeif_fdb_update_src */
    method UpdateSrc(a: Mac, port: PortIndex)
      requires Valid()
      modifies this, fdb
      ensures Valid() && table == Learn(old(table), fdb.Length, a, port)
    {
      var i := Find(a);
      Capacity(fdb[..], table);
      if i < fdb.Length {
        WrittenRepresents(fdb[..], table, i, a, port);
        fdb[i] := fdb[i].(ts := TIMEOUT_SEC, port := port);
        table := table[a := Lease(port, TIMEOUT_SEC)];
        assert fdb[..] == old(fdb[..])[i := Entry(true, port, TIMEOUT_SEC, a)];
        return;
      }
      i := 0;
      while i < fdb.Length
        invariant i <= fdb.Length && fdb[..] == old(fdb[..]) && table == old(table)
        invariant forall j | 0 <= j < i :: Live(fdb[j])
      {
        if !fdb[i].used || fdb[i].ts == 0 {
          assert !Live(fdb[..][i]);
          WrittenRepresents(fdb[..], table, i, a, port);
          fdb[i] := Entry(true, port, TIMEOUT_SEC, a);
          table := table[a := Lease(port, TIMEOUT_SEC)];
          assert fdb[..] == old(fdb[..])[i := Entry(true, port, TIMEOUT_SEC, a)];
          return;
        }
        i := i + 1;
      }
    }

    /** bridgeif_fdb_get_dst_ports */
    method GetDstPorts(a: Mac) returns (mask: u8)
      requires Valid()
      ensures mask == Lookup(table, a)
    {
      var i := Find(a);
      if i < fdb.Length {
        return PortMask(fdb[i].port);
      }
      return FLOOD;
    }

    /** bridgeif_fdb_age_one_second */
    method AgeOneSecond()
      requires Valid()
      modifies this, fdb
      ensures Valid() && table == Age(old(table))
    {
      var i: nat := 0;
      while i < fdb.Length
        invariant i <= fdb.Length && table == old(table)
        invariant forall j | 0 <= j < i :: fdb[j] == Older(old(fdb[j]))
        invariant forall j | i <= j < fdb.Length :: fdb[j] == old(fdb[j])
      {
        if fdb[i].used && fdb[i].ts != 0 {
          fdb[i] := fdb[i].(ts := fdb[i].ts - 1);
          if fdb[i].ts == 0 {
            fdb[i] := fdb[i].(used := false);
          }
        }
        i := i + 1;
      }
      OlderRepresents(old(fdb[..]), table, fdb[..]);
      table := Age(table);
    }
  }

  // ---- whole runs ----

  datatype Event = Learned(a: Mac, port: PortIndex) | Second

  function Step(t: Table, capacity: nat, e: Event): Table {
    match e
    case Learned(a, port) => Learn(t, capacity, a, port)
    case Second => Age(t)
  }

  function Run(capacity: nat, es: seq<Event>): Table {
    if es == [] then map[] else Step(Run(capacity, es[..|es| - 1]), capacity, es[|es| - 1])
  }

  lemma RunSnoc(capacity: nat, es: seq<Event>, e: Event)
    ensures Run(capacity, es + [e]) == Step(Run(capacity, es), capacity, e)
  {
    assert (es + [e])[..|es|] == es;
  }

  /** Event k was a frame from `a`, and the table had or could make room for it. */
  predicate Recorded(capacity: nat, es: seq<Event>, k: nat, a: Mac)
    requires k < |es|
  {
    es[k].Learned? && es[k].a == a && (a in Run(capacity, es[..k]) || |Run(capacity, es[..k])| < capacity)
  }

  /** Seconds that passed in es from event k on. */
  function Ticks(es: seq<Event>, k: nat): nat
    requires k <= |es|
    decreases |es| - k
  {
    if k == |es| then 0 else (if es[k].Second? then 1 else 0) + Ticks(es, k + 1)
  }

  lemma {:induction false} TicksSnoc(es: seq<Event>, e: Event, k: nat)
    requires k <= |es|
    ensures Ticks(es + [e], k) == Ticks(es, k) + if e.Second? then 1 else 0
    decreases |es| - k
  {
    if k < |es| {
      TicksSnoc(es, e, k + 1);
    }
  }

  /** Event k was the last frame from `a` that was recorded, and fewer than 300 seconds have passed since. */
  ghost predicate LastHeard(capacity: nat, es: seq<Event>, a: Mac, k: nat) {
    && k < |es| && Recorded(capacity, es, k, a) && Ticks(es, k + 1) < 300
    && (forall j | k < j < |es| :: !Recorded(capacity, es, j, a))
  }

  lemma RecordedSnoc(capacity: nat, es: seq<Event>, e: Event, k: nat, a: Mac)
    requires k < |es|
    ensures Recorded(capacity, es + [e], k, a) == Recorded(capacity, es, k, a)
  {
    assert (es + [e])[..k] == es[..k];
  }

  /** What the table knows is exactly what was last heard, with the time that is left. */
  lemma {:induction false} KnownIsLastHeard(capacity: nat, es: seq<Event>, a: Mac)
    ensures a in Run(capacity, es) <==> exists k: nat :: LastHeard(capacity, es, a, k)
    ensures forall k: nat | LastHeard(capacity, es, a, k) ::
      a in Run(capacity, es) && Run(capacity, es)[a] == Lease(es[k].port, TIMEOUT_SEC - Ticks(es, k + 1))
  {
    if es != [] {
      var n := |es| - 1;
      var front, e := es[..n], es[n];
      assert es == front + [e];
      KnownIsLastHeard(capacity, front, a);
      RunSnoc(capacity, front, e);
      if Recorded(capacity, es, n, a) {
        assert LastHeard(capacity, es, a, n);
      } else {
        LastHeardSnoc(capacity, front, e, a);
      }
    }
  }

  lemma LastHeardSnoc(capacity: nat, front: seq<Event>, e: Event, a: Mac)
    requires !Recorded(capacity, front + [e], |front|, a)
    requires a in Run(capacity, front) <==> exists k: nat :: LastHeard(capacity, front, a, k)
    requires forall k: nat | LastHeard(capacity, front, a, k) ::
      a in Run(capacity, front) && Run(capacity, front)[a] == Lease(front[k].port, TIMEOUT_SEC - Ticks(front, k + 1))
    ensures var t, es := Step(Run(capacity, front), capacity, e), front + [e];
      && (a in t <==> exists k: nat :: LastHeard(capacity, es, a, k))
      && (forall k: nat | LastHeard(capacity, es, a, k) ::
            a in t && t[a] == Lease(es[k].port, TIMEOUT_SEC - Ticks(es, k + 1)))
  {
    var t, es := Step(Run(capacity, front), capacity, e), front + [e];
    NotRecorded(capacity, front, e, a);
    forall k: nat | LastHeard(capacity, es, a, k)
      ensures a in t && t[a] == Lease(es[k].port, TIMEOUT_SEC - Ticks(es, k + 1))
    {
      StillLastHeard(capacity, front, e, a, k);
    }
    if a in t {
      var k: nat :| LastHeard(capacity, front, a, k);
      StillLastHeard(capacity, front, e, a, k);
      assert LastHeard(capacity, es, a, k);
    }
  }

  /** An event that records nothing about `a` leaves its lease alone, up to a second. */
  lemma NotRecorded(capacity: nat, front: seq<Event>, e: Event, a: Mac)
    requires !Recorded(capacity, front + [e], |front|, a)
    ensures var r, d := Run(capacity, front), if e.Second? then 1 else 0; var t := Step(r, capacity, e);
      && (a in t <==> a in r && r[a].left > d)
      && (a in t ==> t[a] == Lease(r[a].port, r[a].left - d))
  {
    assert (front + [e])[..|front|] == front;
  }

  lemma StillLastHeard(capacity: nat, front: seq<Event>, e: Event, a: Mac, k: nat)
    requires !Recorded(capacity, front + [e], |front|, a)
    ensures var es, d := front + [e], if e.Second? then 1 else 0;
      LastHeard(capacity, es, a, k) <==> LastHeard(capacity, front, a, k) && Ticks(front, k + 1) + d < TIMEOUT_SEC
    ensures k < |front| ==>
      (front + [e])[k] == front[k] && Ticks(front + [e], k + 1) == Ticks(front, k + 1) + if e.Second? then 1 else 0
  {
    forall j: nat | j < |front|
      ensures Recorded(capacity, front + [e], j, a) == Recorded(capacity, front, j, a)
    {
      RecordedSnoc(capacity, front, e, j, a);
    }
    if k < |front| {
      TicksSnoc(front, e, k + 1);
    }
  }

  /**
   * A lookup after any run names the port of the last recorded frame from the address if fewer than 300 seconds have
   * passed since, and floods otherwise.
   */
  lemma LookupIsLastHeard(capacity: nat, es: seq<Event>, a: Mac)
    ensures forall k: nat | LastHeard(capacity, es, a, k) :: Lookup(Run(capacity, es), a) == PortMask(es[k].port)
    ensures (forall k: nat :: !LastHeard(capacity, es, a, k)) <==> Lookup(Run(capacity, es), a) == FLOOD
  {
    KnownIsLastHeard(capacity, es, a);
    if a in Run(capacity, es) {
      PortMaskNamesPort(Run(capacity, es)[a].port, 0);
    }
  }

  /** The table never outgrows its array, and a full table turns away unknown addresses only. */
  lemma RunBounded(capacity: nat, es: seq<Event>, a: Mac, port: PortIndex)
    ensures |Run(capacity, es)| <= capacity
    ensures Run(capacity, es + [Learned(a, port)]) == Run(capacity, es) ==>
      (a in Run(capacity, es) && Run(capacity, es)[a] == Lease(port, TIMEOUT_SEC))
      || (a !in Run(capacity, es) && |Run(capacity, es)| == capacity)
  {
    RunSnoc(capacity, es, Learned(a, port));
    RunFits(capacity, es);
  }

  lemma {:induction false} RunFits(capacity: nat, es: seq<Event>)
    ensures |Run(capacity, es)| <= capacity
  {
    if es != [] {
      var front, e := es[..|es| - 1], es[|es| - 1];
      RunFits(capacity, front);
      var t := Run(capacity, front);
      match e {
        case Learned(a, port) =>
          if a in t {
            assert t[a := Lease(port, TIMEOUT_SEC)].Keys == t.Keys;
          } else if |t| < capacity {
            assert t[a := Lease(port, TIMEOUT_SEC)].Keys == t.Keys + {a};
          }
        case Second =>
          SubsetSize(Age(t).Keys, t.Keys);
      }
    }
  }

  lemma {:induction false} SubsetSize(a: set<Mac>, b: set<Mac>)
    requires a <= b
    ensures |a| <= |b|
  {
    if a != {} {
      var x :| x in a;
      SubsetSize(a - {x}, b - {x});
    }
  }
}
