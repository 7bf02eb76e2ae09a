/** Shrinking chains at either end (pbuf_realloc, pbuf_free_header) and growing them (pbuf_alloc), on the flat bytes. */
module PbufShape {
  import opened Common
  import opened PbufModel

  // ---- pbuf_realloc ----

  /**
   * The store when pbuf i became the last one with `keep` bytes and the fields before it shrank; the tail is
   * unlinked.
   */
  function ReallocStore(m: Store, ids: seq<nat>, i: nat, keep: nat, shrink: nat): Store
    requires i < |ids| && (forall j | 0 <= j < |ids| :: ids[j] in m) && keep <= |m[ids[i]].data|
  {
    var b := Bumped(m, ids[..i], -(shrink as int));
    b[ids[i] := b[ids[i]].(next := None, tot := keep, data := m[ids[i]].data[..keep])]
  }

  /** Where the walk stops: pbuf i is the first that can hold the rest of the new length. */
  ghost predicate ReallocStop(m: Store, ids: seq<nat>, i: nat, keep: nat, newLen: nat) {
    && i < |ids| && InStore(m, ids) && keep <= |m[ids[i]].data|
    && newLen == |FlatFrom(m, ids, 0)| - |FlatFrom(m, ids, i)| + keep
    && newLen <= |FlatFrom(m, ids, 0)|
  }

  lemma ReallocNode(m: Store, ids: seq<nat>, i: nat, keep: nat, newLen: nat, j: nat)
    requires Chain(m, ids) && ReallocStop(m, ids, i, keep, newLen) && j <= i
    ensures var shrink := |FlatFrom(m, ids, 0)| - newLen;
      var n := ReallocStore(m, ids, i, keep, shrink);
      && ids[j] in n
      && (j < i ==> n[ids[j]] == m[ids[j]].(tot := (m[ids[j]].tot - shrink) % 0x1_0000))
      && (j == i ==> n[ids[j]].data == m[ids[j]].data[..keep] && n[ids[j]].tot == keep && n[ids[j]].next == None)
  {
    if j < i { assert ids[..i][j] == ids[j]; }
  }

  /** The walk shortens tot_len only: the data still adds up. */
  lemma BumpedLength(m: Store, ids: seq<nat>, i: nat, d: int)
    requires InStore(m, ids) && i < |ids|
    ensures var n := Bumped(m, ids[..i], d);
      ids[i] in n && |FlatFrom(m, ids, i)| == |n[ids[i]].data| + |FlatFrom(m, ids, i + 1)|
  {
  }

  /** The bytes of the shrunk chain are a prefix of the old ones, suffix by suffix. */
  lemma {:induction false} ReallocFlat(m: Store, ids: seq<nat>, i: nat, keep: nat, newLen: nat, n: Store, j: nat)
    requires Chain(m, ids) && ReallocStop(m, ids, i, keep, newLen) && j <= i
    requires n == ReallocStore(m, ids, i, keep, |FlatFrom(m, ids, 0)| - newLen) && InStore(n, ids[..i + 1])
    ensures |FlatFrom(m, ids, 0)| - newLen <= |FlatFrom(m, ids, j)|
    ensures FlatFrom(n, ids[..i + 1], j)
      == FlatFrom(m, ids, j)[..|FlatFrom(m, ids, j)| - (|FlatFrom(m, ids, 0)| - newLen)]
    decreases i - j
  {
    ReallocNode(m, ids, i, keep, newLen, j);
    var a := ids[..i + 1];
    if j < i {
      ReallocFlat(m, ids, i, keep, newLen, n, j + 1);
      var rest := FlatFrom(m, ids, j + 1);
      PrefixOfConcat(m[ids[j]].data, rest, |rest| - (|FlatFrom(m, ids, 0)| - newLen));
    } else {
      assert FlatFrom(n, a, i + 1) == [];
    }
  }

  lemma PrefixOfConcat(x: seq<byte>, y: seq<byte>, k: nat)
    requires k <= |y|
    ensures x + y[..k] == (x + y)[..|x| + k]
  {
  }

  lemma ReallocEffect(m: Store, ids: seq<nat>, i: nat, keep: nat, newLen: nat)
    requires Chain(m, ids) && ReallocStop(m, ids, i, keep, newLen) && TotExact(m, ids)
    ensures var n, a := ReallocStore(m, ids, i, keep, |FlatFrom(m, ids, 0)| - newLen), ids[..i + 1];
      Chain(n, a) && InStore(n, a) && FlatFrom(n, a, 0) == FlatFrom(m, ids, 0)[..newLen] && TotExact(n, a)
  {
    var n, a := ReallocStore(m, ids, i, keep, |FlatFrom(m, ids, 0)| - newLen), ids[..i + 1];
    forall j | 0 <= j < |a|
      ensures a[j] in n
    {
      ReallocNode(m, ids, i, keep, newLen, j);
    }
    forall j | 0 <= j <= i
      ensures ids[j] in n && (j < i ==> n[ids[j]].next == m[ids[j]].next) && (j == i ==> n[ids[j]].next == None)
    {
      ReallocNode(m, ids, i, keep, newLen, j);
    }
    ChainPrefix(m, n, ids, i);
    ReallocFlat(m, ids, i, keep, newLen, n, 0);
    forall j | 0 <= j < |a|
      ensures TotAt(n, a, j)
    {
      ReallocTot(m, ids, i, keep, newLen, n, j);
    }
  }

  lemma ReallocTot(m: Store, ids: seq<nat>, i: nat, keep: nat, newLen: nat, n: Store, j: nat)
    requires Chain(m, ids) && ReallocStop(m, ids, i, keep, newLen) && TotExact(m, ids) && j <= i
    requires n == ReallocStore(m, ids, i, keep, |FlatFrom(m, ids, 0)| - newLen) && InStore(n, ids[..i + 1])
    ensures TotAt(n, ids[..i + 1], j)
  {
    ReallocNode(m, ids, i, keep, newLen, j);
    ReallocFlat(m, ids, i, keep, newLen, n, j);
    ExactAt(m, ids, j);
    SuffixLength(m, ids, 0, j);
    assert ids[..i + 1][j] == ids[j];
  }

  lemma ReallocCounted(m: Store, ext: multiset<nat>, ids: seq<nat>, i: nat, keep: nat, shrink: nat)
    requires Counted(m, ext) && Chain(m, ids) && InStore(m, ids) && i < |ids| && keep <= |m[ids[i]].data|
    ensures Counted(ReallocStore(m, ids, i, keep, shrink), ext + Inherited(NextOf(ids, i)))
  {
    assert LinkAt(m, ids, i);
    Unlink(m, ext, ids[i]);
    SameLinksCounted(SetNext(m, ids[i], None), ReallocStore(m, ids, i, keep, shrink), ext + Inherited(NextOf(ids, i)));
  }

  /** The unlinked tail is a chain of its own, apart from the front. */
  lemma ReallocTail(m: Store, ids: seq<nat>, i: nat, keep: nat, shrink: nat)
    requires Chain(m, ids) && InStore(m, ids) && i < |ids| && keep <= |m[ids[i]].data|
    ensures var n, a, b := ReallocStore(m, ids, i, keep, shrink), ids[..i + 1], ids[i + 1..];
      Chain(n, b) && Head(b) == NextOf(ids, i) && forall x | x in a :: x !in b
  {
    var n, b := ReallocStore(m, ids, i, keep, shrink), ids[i + 1..];
    ChainSuffix(m, ids, i + 1);
    forall j | 0 <= j < |b|
      ensures b[j] in n && b[j] in m && n[b[j]].next == m[b[j]].next
    {
      assert b[j] == ids[i + 1 + j];
    }
    ChainFrame(m, n, b);
  }

  // ---- pbuf_free_header ----

  /** Removing the first pbuf: the rest keeps its bytes and its exact lengths. */
  lemma DropFirst(m: Store, n: Store, ids: seq<nat>)
    requires Chain(m, ids) && InStore(m, ids) && TotExact(m, ids) && ids != []
    requires forall x | x in ids[1..] :: x in n && n[x] == m[x]
    ensures Chain(n, ids[1..]) && InStore(n, ids[1..]) && TotExact(n, ids[1..])
    ensures FlatFrom(m, ids, 0) == m[ids[0]].data + FlatFrom(n, ids[1..], 0)
  {
    var b := ids[1..];
    ChainSuffix(m, ids, 1);
    assert forall j | 0 <= j < |b| :: b[j] in b;
    assert InStore(n, b) && InStore(m, b);
    ChainFrame(m, n, b);
    FlatCut(m, ids, 1);
    FlatFrame(m, n, b, 0);
    forall j | 0 <= j < |b|
      ensures TotAt(n, b, j)
    {
      assert TotAt(m, ids, j + 1) && b[j..] == ids[j + 1..];
      FlatShift(m, b, j, ids, j + 1);
      FlatFrame(m, n, b, j);
    }
  }

  /** pbuf_remove_header on the first pbuf. */
  function TrimFirst(m: Store, p: nat, k: nat): Store
    requires p in m && k <= |m[p].data|
  {
    m[p := m[p].(data := m[p].data[k..], tot := (m[p].tot - k) % 0x1_0000)]
  }

  lemma TrimFirstEffect(m: Store, ids: seq<nat>, k: nat)
    requires Chain(m, ids) && InStore(m, ids) && TotExact(m, ids) && ids != [] && k <= |m[ids[0]].data|
    ensures var n := TrimFirst(m, ids[0], k);
      Chain(n, ids) && InStore(n, ids) && FlatFrom(n, ids, 0) == FlatFrom(m, ids, 0)[k..] && TotExact(n, ids)
  {
    var n := TrimFirst(m, ids[0], k);
    TrimFirstFlat(m, ids, k);
    ExactAt(m, ids, 0);
    forall j | 0 <= j < |ids|
      ensures TotAt(n, ids, j)
    {
      assert TotAt(m, ids, j);
      if j > 0 {
        FlatFrame(m, n, ids, j);
      }
    }
  }

  lemma TrimFirstFlat(m: Store, ids: seq<nat>, k: nat)
    requires Chain(m, ids) && InStore(m, ids) && ids != [] && k <= |m[ids[0]].data|
    ensures var n := TrimFirst(m, ids[0], k);
      Chain(n, ids) && InStore(n, ids) && FlatFrom(n, ids, 0) == FlatFrom(m, ids, 0)[k..]
  {
    var n := TrimFirst(m, ids[0], k);
    assert InStore(n, ids);
    ChainFrame(m, n, ids);
    FlatFrame(m, n, ids, 1);
    DropFromConcat(m[ids[0]].data, FlatFrom(m, ids, 1), k);
  }

  lemma DropFromConcat(a: seq<byte>, b: seq<byte>, k: nat)
    requires k <= |a|
    ensures (a + b)[k..] == a[k..] + b
  {
  }

  // ---- pbuf_alloc from the pool ----

  /** A chain being built next to the old store m0, with rem bytes still to be provided for. */
  ghost predicate Growing(m0: Store, m: Store, ids: seq<nat>, rem: nat) {
    && Chain(m, ids) && InStore(m, ids)
    && (forall q | q in m0 :: q in m && m[q] == m0[q] && q !in ids)
    && (forall q | q in m :: q in m0 || q in ids)
    && (forall j | 0 <= j < |ids| :: GrowingAt(m, ids, rem, j))
  }

  predicate GrowingAt(m: Store, ids: seq<nat>, rem: nat, j: nat)
    requires j < |ids| && forall x | 0 <= x < |ids| :: ids[x] in m
  {
    m[ids[j]].ref == 1 && !m[ids[j]].fin && m[ids[j]].tot == |FlatFrom(m, ids, j)| + rem
  }

  /** Every pbuf keeps within its pool element, and the first `full` of them use theirs up. */
  ghost predicate Portioned(m: Store, ids: seq<nat>, first: nat, size: nat, full: nat) {
    && InStore(m, ids)
    && forall j | 0 <= j < |ids| :: PortionAt(m, ids, first, size, full, j)
  }

  predicate PortionAt(m: Store, ids: seq<nat>, first: nat, size: nat, full: nat, j: nat)
    requires j < |ids| && ids[j] in m
  {
    var room := if j == 0 then first else size;
    |m[ids[j]].data| <= room && (j < full ==> |m[ids[j]].data| == room)
  }

  /** A chain under construction: where it started, what is wanted, and its pbufs so far. */
  datatype Building = Building(m0: Store, e0: multiset<nat>, length: nat, first: nat, size: nat, ids: seq<nat>) {
    ghost predicate Holds(m: Store, ext: multiset<nat>, rem: nat) {
      && Growing(m0, m, ids, rem) && ext == e0 + Inherited(Head(ids)) && (ids == [] ==> m == m0)
      && |FlatFrom(m, ids, 0)| + rem == length
      && Portioned(m, ids, first, size, if rem > 0 || ids == [] then |ids| else |ids| - 1)
    }
  }

  /** The bytes that n pool elements hold. */
  function Room(n: nat, first: nat, size: nat): nat {
    if n == 0 then 0 else if n == 1 then first else Room(n - 1, first, size) + size
  }

  /** One more pbuf q of k bytes, as many as are wanted and fit into its element. */
  lemma Built(b: Building, m: Store, e: multiset<nat>, n: Store, e': multiset<nat>, rem: nat, q: nat, k: nat)
    requires b.Holds(m, e, rem) && (b.ids == [] || rem > 0) && k <= rem
    requires var room := if b.ids == [] then b.first else b.size; k <= room && (k < rem ==> k == room)
    requires Growing(b.m0, n, b.ids + [q], rem - k) && q in n && |n[q].data| == k
    requires forall x | x in b.ids :: x in n && x in m && n[x].data == m[x].data
    requires |FlatFrom(n, b.ids + [q], 0)| == |FlatFrom(m, b.ids, 0)| + k
    requires e' == if b.ids == [] then e + multiset{q} else e
    ensures b.(ids := b.ids + [q]).Holds(n, e', rem - k)
  {
    PortionedSnoc(m, n, b.ids, q, b.first, b.size, if rem > k then |b.ids| + 1 else |b.ids|);
    assert Head(b.ids + [q]) == if b.ids == [] then Some(q) else Head(b.ids);
  }

  lemma FullRoom(m: Store, ids: seq<nat>, first: nat, size: nat)
    requires Portioned(m, ids, first, size, |ids|)
    ensures |FlatFrom(m, ids, 0)| == Room(|ids|, first, size)
  {
    FullRoomFrom(m, ids, first, size, 0);
  }

  lemma {:induction false} FullRoomFrom(m: Store, ids: seq<nat>, first: nat, size: nat, i: nat)
    requires Portioned(m, ids, first, size, |ids|) && i <= |ids|
    ensures |FlatFrom(m, ids, i)| == Room(|ids|, first, size) - Room(i, first, size)
    decreases |ids| - i
  {
    if i < |ids| {
      FullRoomFrom(m, ids, first, size, i + 1);
      assert PortionAt(m, ids, first, size, |ids|, i);
    }
  }

  /** One more pbuf, which uses up its element unless it is the last. */
  lemma PortionedSnoc(m: Store, n: Store, ids: seq<nat>, q: nat, first: nat, size: nat, full: nat)
    requires Portioned(m, ids, first, size, |ids|) && q in n && full <= |ids| + 1
    requires forall x | x in ids :: x in n && x in m && n[x].data == m[x].data
    requires var room := if ids == [] then first else size;
      |n[q].data| <= room && (|ids| < full ==> |n[q].data| == room)
    ensures Portioned(n, ids + [q], first, size, full)
  {
    var c := ids + [q];
    forall j | 0 <= j < |c|
      ensures c[j] in n && PortionAt(n, c, first, size, full, j)
    {
      if j < |ids| {
        assert PortionAt(m, ids, first, size, |ids|, j) && c[j] == ids[j] && ids[j] in ids;
      }
    }
  }

  function NewPbuf(tot: u16, len: nat): Pbuf
    requires len < 0x1_0000
  {
    Pbuf(None, tot, 1, false, seq(len, _ => 0))
  }

  /** Append a fresh pbuf q of k bytes. */
  function Appended(m: Store, ids: seq<nat>, q: nat, rem: u16, k: nat): Store
    requires k < 0x1_0000 && (ids != [] ==> ids[|ids| - 1] in m)
  {
    var b := m[q := NewPbuf(rem, k)];
    if ids == [] then b else SetNext(b, ids[|ids| - 1], Some(q))
  }

  lemma AppendedChain(m: Store, ids: seq<nat>, q: nat, rem: u16, k: nat)
    requires Chain(m, ids) && InStore(m, ids) && q !in m && k < 0x1_0000
    ensures var n := Appended(m, ids, q, rem, k); Chain(n, ids + [q]) && InStore(n, ids + [q])
  {
    var b := m[q := NewPbuf(rem, k)];
    assert q !in ids;
    assert LinkAt(b, [q], 0);
    if ids == [] {
      assert ids + [q] == [q];
    } else {
      ChainFrame(m, b, ids);
      ChainJoin(b, ids, [q]);
    }
    ChainInStore(Appended(m, ids, q, rem, k), ids + [q]);
  }

  lemma AppendedFlat(m: Store, ids: seq<nat>, q: nat, rem: u16, k: nat, j: nat)
    requires Chain(m, ids) && InStore(m, ids) && q !in m && k < 0x1_0000 && j <= |ids|
    ensures var n := Appended(m, ids, q, rem, k);
      InStore(n, ids + [q]) && FlatFrom(n, ids + [q], j) == FlatFrom(m, ids, j) + seq(k, _ => 0)
  {
    var n := Appended(m, ids, q, rem, k);
    assert InStore(n, ids) && InStore(n, [q]);
    FlatConcat(n, ids, [q], j);
    FlatFrame(m, n, ids, j);
    assert FlatFrom(n, [q], 1) == [];
  }

  lemma AppendedData(m: Store, ids: seq<nat>, q: nat, rem: u16, k: nat)
    requires InStore(m, ids) && q !in m && k < 0x1_0000
    ensures var n := Appended(m, ids, q, rem, k);
      && q in n && |n[q].data| == k && n.Keys == m.Keys + {q}
      && forall x | x in ids :: x in n && x in m && n[x].data == m[x].data
  {
  }

  lemma AppendedGrowing(m0: Store, m: Store, ids: seq<nat>, q: nat, rem: u16, k: nat)
    requires Growing(m0, m, ids, rem) && q !in m && k <= rem
    ensures Growing(m0, Appended(m, ids, q, rem, k), ids + [q], rem - k)
  {
    var n, c, left := Appended(m, ids, q, rem, k), ids + [q], rem - k;
    AppendedChain(m, ids, q, rem, k);
    assert forall j | 0 <= j < |ids| :: ids[j] in ids;
    forall j | 0 <= j < |c|
      ensures GrowingAt(n, c, left, j)
    {
      AppendedFlat(m, ids, q, rem, k, j);
      if j < |ids| {
        assert GrowingAt(m, ids, rem, j) && c[j] == ids[j];
      } else {
        assert FlatFrom(m, ids, j) == [];
      }
    }
  }

  lemma GrownExact(m0: Store, m: Store, ids: seq<nat>)
    requires Growing(m0, m, ids, 0) && ids != []
    ensures TotExact(m, ids) && m[ids[0]].tot == |FlatFrom(m, ids, 0)|
  {
    forall j | 0 <= j < |ids|
      ensures TotAt(m, ids, j)
    {
      assert GrowingAt(m, ids, 0, j);
    }
    assert GrowingAt(m, ids, 0, 0);
  }

  /** Freeing the partly built chain gives back the old store. */
  lemma GrowingUndone(m0: Store, m: Store, ids: seq<nat>, rem: nat)
    requires Growing(m0, m, ids, rem)
    ensures Freed(m, Head(ids)) == m0
  {
    forall j | 0 <= j < |ids|
      ensures m[ids[j]].ref == 1
    {
      assert GrowingAt(m, ids, rem, j);
    }
    AllSole(m, ids);
    FreedChain(m, ids);
    FreedKeys(m, Head(ids));
    assert ids[..|ids|] == ids;
    var f := Freed(m, Head(ids));
    forall q
      ensures q in f <==> q in m0
    {
      if q in m0 { assert q in m; }
      if q in f { assert q in m; }
    }
    assert f.Keys == m0.Keys;
  }
}
