/**
 * Packet buffers (core/pbuf.c) as a store of linked nodes: reference counting and chains.  A released pbuf is gone from
 * the store, so a pointer to it dangles.
 */
module PbufModel {
  import opened Common

  type Payload = s: seq<byte> | |s| < 0x1_0000

  /** struct pbuf; the payload bytes are `data` and len is |data|; fin is PBUF_FLAG_TCP_FIN. */
  datatype Pbuf = Pbuf(next: Option<nat>, tot: u16, ref: nat, fin: bool, data: Payload)

  type Store = map<nat, Pbuf>

  // ---- reference counts ----

  ghost function Preds(m: Store, p: nat): set<nat> { set q | q in m && m[q].next == Some(p) }

  ghost predicate CountAt(m: Store, ext: multiset<nat>, p: nat)
    requires p in m
  {
    && m[p].ref == ext[p] + |Preds(m, p)| && 0 < m[p].ref < 0x100
    && (m[p].next.Some? ==> m[p].next.value in m)
  }

  /** Every count is the number of external references plus the number of live predecessors, and no pointer dangles. */
  ghost predicate Counted(m: Store, ext: multiset<nat>) {
    && (forall p {:trigger CountAt(m, ext, p)} | p in m :: CountAt(m, ext, p))
    && (forall p | p in ext :: p in m)
  }

  /** Fields other than next and ref do not matter for the counts. */
  ghost predicate SameLinks(m: Store, n: Store) {
    m.Keys == n.Keys && forall p | p in m :: n[p].next == m[p].next && n[p].ref == m[p].ref
  }

  lemma SameLinksCounted(m: Store, n: Store, ext: multiset<nat>)
    requires Counted(m, ext) && SameLinks(m, n)
    ensures Counted(n, ext)
  {
    forall p | p in n
      ensures CountAt(n, ext, p)
    {
      assert Preds(n, p) == Preds(m, p) && CountAt(m, ext, p);
    }
  }

  /** pbuf_free drops a reference that is not the last one. */
  lemma DropReference(m: Store, ext: multiset<nat>, p: nat)
    requires Counted(m, ext) && p in ext && p in m && m[p].ref > 1
    ensures Counted(m[p := m[p].(ref := m[p].ref - 1)], ext - multiset{p})
  {
    var n, e := m[p := m[p].(ref := m[p].ref - 1)], ext - multiset{p};
    forall q | q in n
      ensures CountAt(n, e, q)
    {
      assert Preds(n, q) == Preds(m, q);
      assert CountAt(m, ext, q);
    }
  }

  /** What the reference a node holds on its successor becomes when the node is released or unlinked. */
  function Inherited(next: Option<nat>): multiset<nat> { if next.Some? then multiset{next.value} else multiset{} }

  /**
   * pbuf_free drops the last reference: nobody points to p any more, and its reference to next is in the caller's
   * hands.
   */
  lemma ReleaseLast(m: Store, ext: multiset<nat>, p: nat)
    requires Counted(m, ext) && p in ext && p in m && m[p].ref == 1
    ensures Preds(m, p) == {} && ext[p] == 1 && m[p].next != Some(p)
    ensures Counted(m - {p}, ext - multiset{p} + Inherited(m[p].next))
  {
    var n, e := m - {p}, ext - multiset{p} + Inherited(m[p].next);
    assert CountAt(m, ext, p);
    assert p !in Preds(m, p);
    forall q | q in n
      ensures CountAt(n, e, q)
    {
      assert CountAt(m, ext, q);
      assert q !in Preds(m, p);
      if m[p].next == Some(q) {
        assert Preds(m, q) == Preds(n, q) + {p};
      } else {
        assert Preds(m, q) == Preds(n, q);
      }
    }
  }

  function SetNext(m: Store, p: nat, next: Option<nat>): Store
    requires p in m
  {
    m[p := m[p].(next := next)]
  }

  lemma SetNextPreds(m: Store, p: nat, next: Option<nat>, q: nat)
    requires p in m && m[p].next != next
    ensures |Preds(SetNext(m, p, next), q)|
      == |Preds(m, q)| - (if m[p].next == Some(q) then 1 else 0) + (if next == Some(q) then 1 else 0)
  {
    var n := SetNext(m, p, next);
    if m[p].next == Some(q) {
      assert Preds(m, q) == Preds(n, q) + {p};
    } else if next == Some(q) {
      assert Preds(n, q) == Preds(m, q) + {p};
    } else {
      assert Preds(n, q) == Preds(m, q);
    }
  }

  /** Clearing a next pointer hands its reference to the caller. */
  lemma Unlink(m: Store, ext: multiset<nat>, p: nat)
    requires Counted(m, ext) && p in m
    ensures Counted(SetNext(m, p, None), ext + Inherited(m[p].next))
  {
    var n, e := SetNext(m, p, None), ext + Inherited(m[p].next);
    assert CountAt(m, ext, p);
    if m[p].next.Some? {
      forall q | q in n
        ensures CountAt(n, e, q)
      {
        assert CountAt(m, ext, q);
        SetNextPreds(m, p, None, q);
      }
    } else {
      assert n == m && e == ext;
    }
  }

  /** Setting a next pointer uses up one of the caller's references. */
  lemma Link(m: Store, ext: multiset<nat>, p: nat, t: nat)
    requires Counted(m, ext) && p in m && m[p].next == None && t in ext
    ensures Counted(SetNext(m, p, Some(t)), ext - multiset{t})
  {
    var n, e := SetNext(m, p, Some(t)), ext - multiset{t};
    forall q | q in n
      ensures CountAt(n, e, q)
    {
      assert CountAt(m, ext, q);
      SetNextPreds(m, p, Some(t), q);
    }
  }

  lemma AddReference(m: Store, ext: multiset<nat>, p: nat)
    requires Counted(m, ext) && p in m && m[p].ref < 0xff
    ensures Counted(m[p := m[p].(ref := m[p].ref + 1)], ext + multiset{p})
  {
    var n, e := m[p := m[p].(ref := m[p].ref + 1)], ext + multiset{p};
    forall q | q in n
      ensures CountAt(n, e, q)
    {
      assert Preds(n, q) == Preds(m, q);
      assert CountAt(m, ext, q);
    }
  }

  lemma Allocate(m: Store, ext: multiset<nat>, p: nat, b: Pbuf)
    requires Counted(m, ext) && p !in m && b.next == None && b.ref == 1
    ensures Counted(m[p := b], ext + multiset{p})
  {
    var n, e := m[p := b], ext + multiset{p};
    assert p !in ext;
    forall q | q in n
      ensures CountAt(n, e, q)
    {
      if q == p {
        forall x | x in m
          ensures m[x].next != Some(p)
        {
          assert CountAt(m, ext, x);
        }
        assert Preds(n, p) == {};
      } else {
        assert CountAt(m, ext, q);
        assert Preds(n, q) == Preds(m, q);
      }
    }
  }

  // ---- pbuf_free ----

  /** The store after pbuf_free: release from the head while the count drops to zero. */
  function Freed(m: Store, p: Option<nat>): Store
    decreases |m|
  {
    if p.None? || p.value !in m then m
    else if m[p.value].ref <= 1 then
      assert m == (m - {p.value})[p.value := m[p.value]];
      Freed(m - {p.value}, m[p.value].next)
    else m[p.value := m[p.value].(ref := m[p.value].ref - 1)]
  }

  /** How many pbufs pbuf_free releases: the leading ones of the chain that nobody else references. */
  function ReleaseCount(m: Store, p: Option<nat>): nat
    decreases |m|
  {
    if p.None? || p.value !in m || m[p.value].ref > 1 then 0
    else
      assert m == (m - {p.value})[p.value := m[p.value]];
      1 + ReleaseCount(m - {p.value}, m[p.value].next)
  }

  lemma UpdateKeepsSize(m: Store, p: nat, b: Pbuf)
    requires p in m
    ensures |m[p := b]| == |m|
  {
    assert m[p := b].Keys == m.Keys;
  }

  lemma RemovalShrinks(m: Store, p: nat)
    requires p in m
    ensures |m - {p}| < |m|
  {
    assert m == (m - {p})[p := m[p]];
  }

  /** What pbuf_free comes to when the reference to cur is the next to go and k pbufs have been released. */
  datatype Outcome = Outcome(nodes: Store, ext: multiset<nat>, released: nat)

  function Freeing(m: Store, ext: multiset<nat>, cur: Option<nat>, k: nat): Outcome {
    Outcome(Freed(m, cur), ext - Inherited(cur), k + ReleaseCount(m, cur))
  }

  lemma FreeingDone(m: Store, ext: multiset<nat>, k: nat)
    ensures Freeing(m, ext, None, k) == Outcome(m, ext, k)
  {
    assert ext - Inherited(None) == ext;
  }

  lemma FreeingRelease(m: Store, ext: multiset<nat>, q: nat, k: nat)
    requires q in m && m[q].ref == 1
    ensures Freeing(m, ext, Some(q), k)
      == Freeing(m - {q}, ext - multiset{q} + Inherited(m[q].next), m[q].next, k + 1)
  {
    RemovalShrinks(m, q);
    if m[q].next.Some? {
      GiveAndTake(ext - multiset{q}, m[q].next.value);
    }
  }

  lemma FreeingDrop(m: Store, ext: multiset<nat>, q: nat, k: nat)
    requires q in m && m[q].ref > 1
    ensures Freeing(m, ext, Some(q), k) == Freeing(m[q := m[q].(ref := m[q].ref - 1)], ext - multiset{q}, None, k)
  {
    FreeingDone(m[q := m[q].(ref := m[q].ref - 1)], ext - multiset{q}, k);
  }

  lemma GiveAndTake(ext: multiset<nat>, n: nat)
    ensures ext + multiset{n} - multiset{n} == ext
  {
  }

  lemma {:induction false} FreedCounted(m: Store, ext: multiset<nat>, p: nat)
    requires Counted(m, ext) && p in ext
    ensures Counted(Freed(m, Some(p)), ext - multiset{p})
    decreases |m|
  {
    assert CountAt(m, ext, p);
    if m[p].ref == 1 {
      ReleaseLast(m, ext, p);
      RemovalShrinks(m, p);
      var e := ext - multiset{p} + Inherited(m[p].next);
      if m[p].next.Some? {
        FreedCounted(m - {p}, e, m[p].next.value);
        GiveAndTake(ext - multiset{p}, m[p].next.value);
      } else {
        assert e == ext - multiset{p};
      }
    } else {
      DropReference(m, ext, p);
    }
  }

  lemma {:induction false} FreedKeys(m: Store, p: Option<nat>)
    ensures Freed(m, p).Keys <= m.Keys
    ensures forall q | q in Freed(m, p) :: Freed(m, p)[q].next == m[q].next && Freed(m, p)[q].data == m[q].data
    ensures forall q | q in Freed(m, p) :: Freed(m, p)[q].tot == m[q].tot && Freed(m, p)[q].fin == m[q].fin
    decreases |m|
  {
    if p.Some? && p.value in m && m[p.value].ref <= 1 {
      RemovalShrinks(m, p.value);
      FreedKeys(m - {p.value}, m[p.value].next);
    }
  }

  /** pbuf_free releases a pbuf exactly when no reference to it is left. */
  lemma ReleasedExactlyAtZero(m: Store, ext: multiset<nat>, p: nat, q: nat)
    requires Counted(m, ext) && p in ext && q in m
    ensures q in Freed(m, Some(p)) <==> (ext - multiset{p})[q] + |Preds(Freed(m, Some(p)), q)| > 0
  {
    FreedCounted(m, ext, p);
    var n := Freed(m, Some(p));
    if q in n {
      assert CountAt(n, ext - multiset{p}, q);
    } else {
      forall x | x in n
        ensures n[x].next != Some(q)
      {
        assert CountAt(n, ext - multiset{p}, x);
      }
      assert Preds(n, q) == {};
      assert q !in ext - multiset{p};
    }
  }

  // ---- chains ----

  function NextOf(ids: seq<nat>, i: nat): Option<nat>
    requires i < |ids|
  {
    if i + 1 < |ids| then Some(ids[i + 1]) else None
  }

  predicate LinkAt(m: Store, ids: seq<nat>, i: nat)
    requires i < |ids|
  {
    ids[i] in m && m[ids[i]].next == NextOf(ids, i)
  }

  /** ids are the pbufs of a chain, in order. */
  ghost predicate Chain(m: Store, ids: seq<nat>) {
    && (forall i | 0 <= i < |ids| :: LinkAt(m, ids, i))
    && (forall i, j | 0 <= i < j < |ids| :: ids[i] != ids[j])
  }

  function Head(ids: seq<nat>): Option<nat> { if ids == [] then None else Some(ids[0]) }

  /** The payload bytes of the chain from its i-th pbuf on. */
  function FlatFrom(m: Store, ids: seq<nat>, i: nat): seq<byte>
    requires i <= |ids| && forall j | 0 <= j < |ids| :: ids[j] in m
    decreases |ids| - i
  {
    if i == |ids| then [] else m[ids[i]].data + FlatFrom(m, ids, i + 1)
  }

  ghost predicate InStore(m: Store, ids: seq<nat>) {
    forall j | 0 <= j < |ids| :: ids[j] in m
  }

  lemma ChainInStore(m: Store, ids: seq<nat>)
    requires Chain(m, ids)
    ensures InStore(m, ids)
  {
    forall j | 0 <= j < |ids|
      ensures ids[j] in m
    {
      assert LinkAt(m, ids, j);
    }
  }

  predicate TotAt(m: Store, ids: seq<nat>, i: nat)
    requires i < |ids| && forall j | 0 <= j < |ids| :: ids[j] in m
  {
    m[ids[i]].tot == |FlatFrom(m, ids, i)| % 0x1_0000
  }

  /** tot_len fields hold the suffix lengths modulo 2^16, as unchecked concatenation leaves them. */
  ghost predicate TotMod(m: Store, ids: seq<nat>) {
    InStore(m, ids) && forall i | 0 <= i < |ids| :: TotAt(m, ids, i)
  }

  /** tot_len fields hold the true suffix lengths. */
  ghost predicate TotExact(m: Store, ids: seq<nat>) {
    TotMod(m, ids) && |FlatFrom(m, ids, 0)| < 0x1_0000
  }

  lemma {:induction false} SuffixLength(m: Store, ids: seq<nat>, i: nat, j: nat)
    requires InStore(m, ids) && i <= j <= |ids|
    ensures |FlatFrom(m, ids, j)| <= |FlatFrom(m, ids, i)|
    decreases j - i
  {
    if i < j {
      SuffixLength(m, ids, i + 1, j);
    }
  }

  /** In a chain with true lengths every field equals its suffix length. */
  lemma ExactAt(m: Store, ids: seq<nat>, i: nat)
    requires TotExact(m, ids) && i < |ids|
    ensures m[ids[i]].tot == |FlatFrom(m, ids, i)|
  {
    assert TotAt(m, ids, i);
    SuffixLength(m, ids, 0, i);
  }

  lemma {:induction false} FlatFrame(m: Store, n: Store, ids: seq<nat>, i: nat)
    requires InStore(m, ids) && InStore(n, ids) && i <= |ids|
    requires forall j | i <= j < |ids| :: n[ids[j]].data == m[ids[j]].data
    ensures FlatFrom(n, ids, i) == FlatFrom(m, ids, i)
    decreases |ids| - i
  {
    if i < |ids| {
      FlatFrame(m, n, ids, i + 1);
    }
  }

  /** The suffix of a longer chain. */
  lemma {:induction false} FlatShift(m: Store, a: seq<nat>, i: nat, b: seq<nat>, j: nat)
    requires InStore(m, a) && InStore(m, b) && i <= |a| && j <= |b| && a[i..] == b[j..]
    ensures FlatFrom(m, a, i) == FlatFrom(m, b, j)
    decreases |a| - i
  {
    assert |a| - i == |b| - j;
    if i < |a| {
      assert a[i] == a[i..][0] && b[j] == b[j..][0];
      assert a[i + 1..] == a[i..][1..] && b[j + 1..] == b[j..][1..];
      FlatShift(m, a, i + 1, b, j + 1);
    }
  }

  lemma {:induction false} FlatConcat(m: Store, a: seq<nat>, b: seq<nat>, i: nat)
    requires InStore(m, a) && InStore(m, b) && i <= |a|
    ensures InStore(m, a + b) && FlatFrom(m, a + b, i) == FlatFrom(m, a, i) + FlatFrom(m, b, 0)
    decreases |a| - i
  {
    if i < |a| {
      FlatConcat(m, a, b, i + 1);
      var x, y, z := m[a[i]].data, FlatFrom(m, a, i + 1), FlatFrom(m, b, 0);
      assert x + (y + z) == (x + y) + z;
    } else {
      FlatShift(m, a + b, i, b, 0);
    }
  }

  // ---- chains under change ----

  /** Add d to the tot_len of the given pbufs, in u16 arithmetic. */
  function Bumped(m: Store, ids: seq<nat>, d: int): (n: Store)
    ensures n.Keys == m.Keys
    ensures forall q | q in m :: n[q] == if q in ids then m[q].(tot := (m[q].tot + d) % 0x1_0000) else m[q]
  {
    map q | q in m :: if q in ids then m[q].(tot := (m[q].tot + d) % 0x1_0000) else m[q]
  }

  /** One more pbuf visited by a loop that adds d to tot_len. */
  lemma BumpOne(m: Store, ids: seq<nat>, i: nat, d: int)
    requires i < |ids| && ids[i] in m && ids[i] !in ids[..i]
    ensures Bumped(m, ids[..i], d)[ids[i]] == m[ids[i]]
    ensures Bumped(m, ids[..i + 1], d)
      == Bumped(m, ids[..i], d)[ids[i] := m[ids[i]].(tot := (m[ids[i]].tot + d) % 0x1_0000)]
  {
    assert ids[..i + 1] == ids[..i] + [ids[i]];
  }

  lemma ChainFrame(m: Store, n: Store, ids: seq<nat>)
    requires Chain(m, ids) && InStore(m, ids) && InStore(n, ids)
    requires forall j | 0 <= j < |ids| :: n[ids[j]].next == m[ids[j]].next
    ensures Chain(n, ids)
  {
    forall i | 0 <= i < |ids|
      ensures LinkAt(n, ids, i)
    {
      assert LinkAt(m, ids, i);
    }
  }

  /** The tail of a chain is a chain. */
  lemma ChainSuffix(m: Store, ids: seq<nat>, i: nat)
    requires Chain(m, ids) && i <= |ids|
    ensures Chain(m, ids[i..])
  {
    forall j | 0 <= j < |ids[i..]|
      ensures LinkAt(m, ids[i..], j)
    {
      assert LinkAt(m, ids, i + j);
    }
  }

  /** Cutting the link after pbuf i leaves the front as a chain. */
  lemma ChainPrefix(m: Store, n: Store, ids: seq<nat>, i: nat)
    requires Chain(m, ids) && InStore(m, ids) && i < |ids| && InStore(n, ids[..i + 1])
    requires forall j | 0 <= j < i :: ids[j] in n && n[ids[j]].next == m[ids[j]].next
    requires ids[i] in n && n[ids[i]].next == None
    ensures Chain(n, ids[..i + 1])
  {
    var a := ids[..i + 1];
    forall j | 0 <= j < |a|
      ensures LinkAt(n, a, j)
    {
      assert LinkAt(m, ids, j) && a[j] in n && n[ids[j]].next == NextOf(a, j);
    }
  }

  /** Joining two chains through the last pbuf of the first. */
  lemma ChainJoin(m: Store, a: seq<nat>, b: seq<nat>)
    requires Chain(m, a) && Chain(m, b) && a != [] && b != []
    requires forall x | x in a :: x !in b
    ensures a[|a| - 1] in m && Chain(SetNext(m, a[|a| - 1], Some(b[0])), a + b)
  {
    ChainInStore(m, a);
    var n, c := SetNext(m, a[|a| - 1], Some(b[0])), a + b;
    forall i, j | 0 <= i < |a| && 0 <= j < |b|
      ensures a[i] != b[j]
    {
      assert a[i] in a;
    }
    forall i | 0 <= i < |c|
      ensures LinkAt(n, c, i)
    {
      if i < |a| {
        assert LinkAt(m, a, i) && c[i] == a[i];
      } else {
        assert LinkAt(m, b, i - |a|) && c[i] == b[i - |a|];
      }
    }
  }

  /** Leading pbufs of a chain that have a single reference. */
  function Sole(m: Store, ids: seq<nat>): (k: nat)
    requires forall j | 0 <= j < |ids| :: ids[j] in m
    ensures k <= |ids|
  {
    if ids == [] || m[ids[0]].ref > 1 then 0 else 1 + Sole(m, ids[1..])
  }

  lemma {:induction false} SoleFrame(m: Store, n: Store, ids: seq<nat>)
    requires InStore(m, ids) && InStore(n, ids)
    requires forall j | 0 <= j < |ids| :: n[ids[j]].ref == m[ids[j]].ref
    ensures Sole(n, ids) == Sole(m, ids)
  {
    if ids != [] {
      SoleFrame(m, n, ids[1..]);
    }
  }

  lemma ChainRest(m: Store, ids: seq<nat>)
    requires Chain(m, ids) && ids != []
    ensures ids[0] in m && m[ids[0]].next == Head(ids[1..])
    ensures Chain(m - {ids[0]}, ids[1..])
  {
    assert LinkAt(m, ids, 0);
    ChainSuffix(m, ids, 1);
    ChainInStore(m, ids[1..]);
    assert InStore(m - {ids[0]}, ids[1..]);
    ChainFrame(m, m - {ids[0]}, ids[1..]);
  }

  /** On a chain, pbuf_free releases exactly the leading pbufs with one reference and touches nothing outside it. */
  lemma {:induction false} FreedChain(m: Store, ids: seq<nat>)
    requires Chain(m, ids)
    ensures InStore(m, ids) && ReleaseCount(m, Head(ids)) == Sole(m, ids) <= |ids|
    ensures forall q | q in m :: q in Freed(m, Head(ids)) <==> q !in ids[..Sole(m, ids)]
    ensures forall q | q in m && q !in ids :: q in Freed(m, Head(ids)) && Freed(m, Head(ids))[q] == m[q]
    decreases |ids|
  {
    ChainInStore(m, ids);
    if ids != [] {
      var p := ids[0];
      ChainRest(m, ids);
      if m[p].ref <= 1 {
        var n, rest := m - {p}, ids[1..];
        FreedChain(n, rest);
        SoleFrame(m, n, rest);
        FreedKeys(n, Head(rest));
        FirstReleased(m, ids);
        ReleasedNames(m, p, rest, Freed(n, Head(rest)), Sole(n, rest));
        assert ids == [p] + rest;
      }
    }
  }

  lemma FirstReleased(m: Store, ids: seq<nat>)
    requires InStore(m, ids) && ids != [] && m[ids[0]].ref <= 1 && m[ids[0]].next == Head(ids[1..])
    ensures Freed(m, Head(ids)) == Freed(m - {ids[0]}, Head(ids[1..]))
    ensures ReleaseCount(m, Head(ids)) == 1 + ReleaseCount(m - {ids[0]}, Head(ids[1..]))
  {
    RemovalShrinks(m, ids[0]);
  }

  /**
   * If f is what remains of m without p and the first k pbufs of rest, it is m without the first k + 1 pbufs of p
   * and rest.
   */
  lemma ReleasedNames(m: Store, p: nat, rest: seq<nat>, f: Store, k: nat)
    requires p in m && k <= |rest| && p !in f
    requires forall q | q in m - {p} :: q in f <==> q !in rest[..k]
    ensures forall q | q in m :: q in f <==> q !in ([p] + rest)[..k + 1]
  {
    assert ([p] + rest)[..k + 1] == [p] + rest[..k];
    forall q | q in m
      ensures q in f <==> q !in [p] + rest[..k]
    {
      assert q != p ==> q in m - {p};
    }
  }

  // ---- pbuf_cat ----

  function CatStore(m: Store, hs: seq<nat>, ts: seq<nat>): Store
    requires hs != [] && ts != [] && ts[0] in m && hs[|hs| - 1] in m
  {
    SetNext(Bumped(m, hs, m[ts[0]].tot), hs[|hs| - 1], Some(ts[0]))
  }

  /** Concatenation joins the byte sequences and keeps every tot_len right modulo 2^16. */
  lemma CatEffect(m: Store, hs: seq<nat>, ts: seq<nat>)
    requires Chain(m, hs) && Chain(m, ts) && hs != [] && ts != [] && forall x | x in hs :: x !in ts
    ensures InStore(m, hs) && InStore(m, ts) && Chain(CatStore(m, hs, ts), hs + ts)
    ensures InStore(CatStore(m, hs, ts), hs + ts)
    ensures FlatFrom(CatStore(m, hs, ts), hs + ts, 0) == FlatFrom(m, hs, 0) + FlatFrom(m, ts, 0)
    ensures TotMod(m, hs) && TotMod(m, ts) ==> TotMod(CatStore(m, hs, ts), hs + ts)
  {
    ChainInStore(m, hs);
    ChainInStore(m, ts);
    var b := Bumped(m, hs, m[ts[0]].tot);
    var n := CatStore(m, hs, ts);
    ChainFrame(m, b, hs);
    ChainFrame(m, b, ts);
    ChainJoin(b, hs, ts);
    FlatFrame(m, n, hs, 0);
    FlatFrame(m, n, ts, 0);
    FlatConcat(n, hs, ts, 0);
    if TotMod(m, hs) && TotMod(m, ts) {
      CatTot(m, hs, ts, n);
    }
  }

  lemma AddMod(a: nat, b: nat)
    ensures (a % 0x1_0000 + b % 0x1_0000) % 0x1_0000 == (a + b) % 0x1_0000
  {
  }

  lemma SubMod(a: nat, b: nat)
    ensures ((a + b) % 0x1_0000 - b % 0x1_0000) % 0x1_0000 == a % 0x1_0000
  {
  }

  lemma CatFlat(m: Store, hs: seq<nat>, ts: seq<nat>, n: Store, i: nat)
    requires InStore(m, hs) && InStore(m, ts) && hs != [] && ts != [] && i <= |hs|
    requires n == CatStore(m, hs, ts) && InStore(n, hs) && InStore(n, ts)
    ensures InStore(n, hs + ts) && FlatFrom(n, hs + ts, i) == FlatFrom(m, hs, i) + FlatFrom(m, ts, 0)
  {
    FlatConcat(n, hs, ts, i);
    FlatFrame(m, n, hs, i);
    FlatFrame(m, n, ts, 0);
  }

  lemma CatTotHead(m: Store, hs: seq<nat>, ts: seq<nat>, n: Store, i: nat)
    requires TotMod(m, hs) && TotMod(m, ts) && i < |hs| && ts != [] && forall x | x in hs :: x !in ts
    requires n == CatStore(m, hs, ts) && InStore(n, hs) && InStore(n, ts)
    ensures InStore(n, hs + ts) && TotAt(n, hs + ts, i)
  {
    CatFlat(m, hs, ts, n, i);
    assert TotAt(m, hs, i) && TotAt(m, ts, 0) && hs[i] in hs;
    assert (hs + ts)[i] == hs[i] && n[hs[i]].tot == (m[hs[i]].tot + m[ts[0]].tot) % 0x1_0000;
    AddMod(|FlatFrom(m, hs, i)|, |FlatFrom(m, ts, 0)|);
  }

  lemma CatTot(m: Store, hs: seq<nat>, ts: seq<nat>, n: Store)
    requires TotMod(m, hs) && TotMod(m, ts) && hs != [] && ts != [] && forall x | x in hs :: x !in ts
    requires n == CatStore(m, hs, ts)
    ensures TotMod(n, hs + ts)
  {
    var c := hs + ts;
    assert InStore(n, hs) && InStore(n, ts);
    FlatConcat(n, hs, ts, |hs|);
    forall i | 0 <= i < |c|
      ensures TotAt(n, c, i)
    {
      if i < |hs| {
        CatTotHead(m, hs, ts, n, i);
      } else {
        FlatShift(n, c, i, ts, i - |hs|);
        FlatFrame(m, n, ts, i - |hs|);
        assert TotAt(m, ts, i - |hs|) && c[i] == ts[i - |hs|] && c[i] in ts;
      }
    }
  }

  // ---- cutting a chain ----

  /** A chain's bytes are those of its first k pbufs followed by the rest. */
  lemma FlatCut(m: Store, ids: seq<nat>, k: nat)
    requires InStore(m, ids) && k <= |ids|
    ensures InStore(m, ids[..k]) && InStore(m, ids[k..])
    ensures FlatFrom(m, ids[k..], 0) == FlatFrom(m, ids, k)
    ensures FlatFrom(m, ids, 0) == FlatFrom(m, ids[..k], 0) + FlatFrom(m, ids, k)
  {
    assert ids == ids[..k] + ids[k..];
    FlatConcat(m, ids[..k], ids[k..], 0);
    assert ids[k..][0..] == ids[k..];
    FlatShift(m, ids[k..], 0, ids, k);
  }

  lemma {:induction false} FlatCutFrom(m: Store, ids: seq<nat>, k: nat, i: nat)
    requires InStore(m, ids) && i <= k <= |ids|
    ensures InStore(m, ids[..k]) && FlatFrom(m, ids, i) == FlatFrom(m, ids[..k], i) + FlatFrom(m, ids, k)
    decreases k - i
  {
    if i < k {
      FlatCutFrom(m, ids, k, i + 1);
      var x, y, z := m[ids[i]].data, FlatFrom(m, ids[..k], i + 1), FlatFrom(m, ids, k);
      assert x + (y + z) == (x + y) + z;
    } else {
      assert FlatFrom(m, ids[..k], k) == [];
    }
  }

  /** The store after pbuf_split_64k cut the chain before pbuf k. */
  function SplitStore(m: Store, ids: seq<nat>, k: nat): Store
    requires 0 < k < |ids| && forall j | 0 <= j < |ids| :: ids[j] in m
  {
    var r := ids[k];
    var b := Bumped(SetNext(m, ids[k - 1], None), ids[..k], -(m[r].tot as int));
    if m[ids[0]].fin then b[r := b[r].(fin := true)] else b
  }

  /** If the front holds fewer than 64K bytes, its fields become the exact suffix lengths and the rest stays right. */
  lemma SplitEffect(m: Store, ids: seq<nat>, k: nat)
    requires Chain(m, ids) && InStore(m, ids) && TotMod(m, ids) && 0 < k < |ids|
    requires |FlatFrom(m, ids, 0)| - |FlatFrom(m, ids, k)| < 0x1_0000
    ensures var n, a, b := SplitStore(m, ids, k), ids[..k], ids[k..];
      && Chain(n, a) && Chain(n, b) && TotExact(n, a) && TotMod(n, b)
      && FlatFrom(n, a, 0) + FlatFrom(n, b, 0) == FlatFrom(m, ids, 0)
      && FlatFrom(n, b, 0) == FlatFrom(m, ids, k)
  {
    SplitChains(m, ids, k);
    SplitFlat(m, ids, k);
    SplitFrontTot(m, ids, k);
    SplitRestTot(m, ids, k);
  }

  lemma SplitChains(m: Store, ids: seq<nat>, k: nat)
    requires Chain(m, ids) && InStore(m, ids) && 0 < k < |ids|
    ensures Chain(SplitStore(m, ids, k), ids[..k]) && Chain(SplitStore(m, ids, k), ids[k..])
  {
    var n, a, b := SplitStore(m, ids, k), ids[..k], ids[k..];
    assert InStore(n, a) && InStore(n, b) && ids[..k - 1 + 1] == a;
    SplitNexts(m, ids, k, n);
    ChainPrefix(m, n, ids, k - 1);
    ChainSuffix(m, ids, k);
    ChainFrame(m, n, b);
  }

  lemma SplitNexts(m: Store, ids: seq<nat>, k: nat, n: Store)
    requires Chain(m, ids) && InStore(m, ids) && 0 < k < |ids| && n == SplitStore(m, ids, k)
    ensures n.Keys == m.Keys
    ensures forall j | 0 <= j < |ids| && j != k - 1 :: n[ids[j]].next == m[ids[j]].next
    ensures n[ids[k - 1]].next == None
  {
  }

  lemma SplitFlat(m: Store, ids: seq<nat>, k: nat)
    requires InStore(m, ids) && 0 < k < |ids|
    ensures var n := SplitStore(m, ids, k);
      && InStore(n, ids[..k]) && InStore(n, ids[k..])
      && FlatFrom(n, ids[..k], 0) + FlatFrom(n, ids[k..], 0) == FlatFrom(m, ids, 0)
      && FlatFrom(n, ids[k..], 0) == FlatFrom(m, ids, k)
  {
    var n := SplitStore(m, ids, k);
    FlatCut(m, ids, k);
    FlatFrame(m, n, ids[..k], 0);
    FlatFrame(m, n, ids[k..], 0);
  }

  lemma SplitFrontTotAt(m: Store, ids: seq<nat>, k: nat, n: Store, i: nat)
    requires Chain(m, ids) && InStore(m, ids) && TotMod(m, ids) && i < k < |ids|
    requires n == SplitStore(m, ids, k) && InStore(n, ids[..k])
    ensures TotAt(n, ids[..k], i)
  {
    assert TotAt(m, ids, i) && TotAt(m, ids, k);
    SplitFrontField(m, ids, k, n, i);
    SplitFrontLength(m, ids, k, n, i);
    TotDifference(m[ids[i]].tot, m[ids[k]].tot, |FlatFrom(n, ids[..k], i)|, |FlatFrom(m, ids, k)|);
  }

  lemma TotDifference(t: u16, u: u16, x: nat, y: nat)
    requires t == (x + y) % 0x1_0000 && u == y % 0x1_0000
    ensures (t - u) % 0x1_0000 == x % 0x1_0000
  {
    SubMod(x, y);
  }

  lemma SplitFrontField(m: Store, ids: seq<nat>, k: nat, n: Store, i: nat)
    requires Chain(m, ids) && InStore(m, ids) && i < k < |ids| && n == SplitStore(m, ids, k)
    ensures ids[..k][i] in n && n[ids[..k][i]].tot == (m[ids[i]].tot - m[ids[k]].tot) % 0x1_0000
  {
    assert ids[..k][i] == ids[i] && ids[i] in ids[..k] && ids[i] != ids[k];
  }

  lemma SplitFrontLength(m: Store, ids: seq<nat>, k: nat, n: Store, i: nat)
    requires Chain(m, ids) && InStore(m, ids) && i < k < |ids| && n == SplitStore(m, ids, k) && InStore(n, ids[..k])
    ensures |FlatFrom(m, ids, i)| == |FlatFrom(n, ids[..k], i)| + |FlatFrom(m, ids, k)|
  {
    FlatCutFrom(m, ids, k, i);
    FlatFrame(m, n, ids[..k], i);
  }

  lemma SplitFrontTot(m: Store, ids: seq<nat>, k: nat)
    requires Chain(m, ids) && InStore(m, ids) && TotMod(m, ids) && 0 < k < |ids|
    ensures TotMod(SplitStore(m, ids, k), ids[..k])
  {
    var n := SplitStore(m, ids, k);
    assert InStore(n, ids[..k]);
    forall i | 0 <= i < |ids[..k]|
      ensures TotAt(n, ids[..k], i)
    {
      SplitFrontTotAt(m, ids, k, n, i);
    }
  }

  lemma SplitRestTot(m: Store, ids: seq<nat>, k: nat)
    requires Chain(m, ids) && InStore(m, ids) && TotMod(m, ids) && 0 < k < |ids|
    ensures TotMod(SplitStore(m, ids, k), ids[k..])
  {
    var n, b := SplitStore(m, ids, k), ids[k..];
    assert InStore(n, b);
    forall i | 0 <= i < |b|
      ensures TotAt(n, b, i)
    {
      assert TotAt(m, ids, k + i) && b[i] == ids[k + i];
      SplitRestAt(m, ids, k, n, i);
    }
  }

  /** Pbufs behind the cut keep their tot_len and what follows them. */
  lemma SplitRestAt(m: Store, ids: seq<nat>, k: nat, n: Store, i: nat)
    requires Chain(m, ids) && InStore(m, ids) && 0 < k < |ids| && k + i < |ids|
    requires n == SplitStore(m, ids, k) && InStore(n, ids[k..])
    ensures n[ids[k..][i]].tot == m[ids[k + i]].tot && FlatFrom(n, ids[k..], i) == FlatFrom(m, ids, k + i)
  {
    var b := ids[k..];
    assert b[i] == ids[k + i] && b[i] !in ids[..k];
    assert b[i..] == ids[k + i..];
    assert InStore(n, ids);
    FlatShift(n, b, i, ids, k + i);
    FlatFrame(m, n, ids, k + i);
  }

  // ---- pbuf_dechain ----

  /** Decouple p from its successor q; q's tot_len is recomputed and p's becomes its own length. */
  function DechainStore(m: Store, p: nat, q: nat): Store
    requires p in m && q in m
  {
    var a := m[q := m[q].(tot := (m[p].tot - |m[p].data|) % 0x1_0000)];
    a[p := a[p].(next := None, tot := |a[p].data|)]
  }

  lemma DechainCounted(m: Store, ext: multiset<nat>, p: nat, q: nat)
    requires Counted(m, ext) && p in m && q in m && m[p].next == Some(q) && p != q
    ensures Counted(DechainStore(m, p, q), ext + multiset{q})
  {
    Unlink(m, ext, p);
    SameLinksCounted(SetNext(m, p, None), DechainStore(m, p, q), ext + multiset{q});
  }

  /** After decoupling, the tail is still a chain with the same single-reference prefix. */
  lemma DechainTail(m: Store, ids: seq<nat>)
    requires Chain(m, ids) && InStore(m, ids) && |ids| > 1
    ensures var n := DechainStore(m, ids[0], ids[1]);
      && Chain(n, ids[1..]) && InStore(n, ids[1..]) && Sole(n, ids[1..]) == Sole(m, ids[1..])
      && Head(ids[1..]) == Some(ids[1])
  {
    var n, rest := DechainStore(m, ids[0], ids[1]), ids[1..];
    ChainSuffix(m, ids, 1);
    assert forall j | 0 <= j < |rest| :: rest[j] == ids[j + 1] && rest[j] != ids[0];
    ChainFrame(m, n, rest);
    SoleFrame(m, n, rest);
  }

  lemma {:induction false} AllSole(m: Store, ids: seq<nat>)
    requires InStore(m, ids) && forall j | 0 <= j < |ids| :: m[ids[j]].ref == 1
    ensures Sole(m, ids) == |ids|
  {
    if ids != [] {
      AllSole(m, ids[1..]);
    }
  }

  function RowNode(n: nat, i: nat): Pbuf { Pbuf(if i + 1 < n then Some(i + 1) else None, 0, 1, false, []) }

  /** The first k of n pbufs in a row. */
  function Row(n: nat, k: nat): (m: Store)
    ensures forall i: nat :: i in m <==> i < k
    ensures forall i: nat | i in m :: m[i] == RowNode(n, i)
  {
    if k == 0 then map[] else Row(n, k - 1)[k - 1 := RowNode(n, k - 1)]
  }

  function UpTo(n: nat): (s: seq<nat>)
    ensures |s| == n && forall i | 0 <= i < n :: s[i] == i
  {
    seq(n, i => i)
  }

  /** In a row the first pbuf is held by the caller and each other one only by its predecessor. */
  lemma RowCounted(n: nat)
    requires n > 0
    ensures Counted(Row(n, n), multiset{0})
  {
    var m, e := Row(n, n), multiset{0 as nat};
    forall p | p in m
      ensures CountAt(m, e, p)
    {
      RowPreds(n, p);
    }
  }

  lemma RowPreds(n: nat, p: nat)
    requires p < n
    ensures |Preds(Row(n, n), p)| == if p == 0 then 0 else 1
  {
    var m := Row(n, n);
    if p == 0 {
      assert Preds(m, p) == {};
    } else {
      assert p - 1 in m && m[p - 1].next == Some(p);
      assert Preds(m, p) == {p - 1};
    }
  }

  lemma RowChain(n: nat)
    requires n > 0
    ensures Chain(Row(n, n), UpTo(n)) && InStore(Row(n, n), UpTo(n)) && Sole(Row(n, n), UpTo(n)[1..]) == n - 1
  {
    var m, ids := Row(n, n), UpTo(n);
    forall i | 0 <= i < n
      ensures LinkAt(m, ids, i)
    {
      assert ids[i] in m && m[ids[i]] == RowNode(n, i);
    }
    ChainInStore(m, ids);
    AllSole(m, ids[1..]);
  }
}
