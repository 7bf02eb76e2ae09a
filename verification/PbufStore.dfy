/**
 * The operations of core/pbuf.c that move references: free, ref, cat, chain, dechain, split, realloc, free_header,
 * alloc.
 */
module PbufStore {
  import opened Common
  import opened PbufModel
  import opened PbufShape
  import opened PbufBytes
  import opened PbufEffects

  datatype Err = ErrOk | ErrArg | ErrVal

  class Pool {
    const capacity: nat          // elements of the memp pool
    var nodes: Store             // the live pbufs
    ghost var ext: multiset<nat> // references held outside the store

    /** Reference counts are exact and nothing dangles. */
    ghost predicate Valid()
      reads this
    {
      Counted(nodes, ext)
    }

    constructor (n: nat)
      ensures Valid() && nodes == map[] && ext == multiset{} && capacity == n
    {
      capacity, nodes, ext := n, map[], multiset{};
    }

    /** pbuf_free's last reference: the pbuf goes back to its pool and passes its reference on to its successor. */
    method Release(q: nat, ghost k: nat) returns (next: Option<nat>)
      requires Valid() && q in ext && q in nodes && nodes[q].ref == 1
      modifies this
      ensures Valid() && (next.Some? ==> next.value in ext) && |nodes| < |old(nodes)|
      ensures Freeing(nodes, ext, next, k + 1) == old(Freeing(nodes, ext, Some(q), k))
    {
      ReleaseLast(nodes, ext, q);
      RemovalShrinks(nodes, q);
      FreeingRelease(nodes, ext, q, k);
      next := nodes[q].next;
      nodes, ext := nodes - {q}, ext - multiset{q} + Inherited(next);
    }

    /** pbuf_free on a pbuf that is still referenced to. */
    method Drop(q: nat, ghost k: nat)
      requires Valid() && q in ext && q in nodes && nodes[q].ref > 1
      modifies this
      ensures Valid() && |nodes| == |old(nodes)|
      ensures Freeing(nodes, ext, None, k) == old(Freeing(nodes, ext, Some(q), k))
    {
      DropReference(nodes, ext, q);
      FreeingDrop(nodes, ext, q, k);
      UpdateKeepsSize(nodes, q, nodes[q].(ref := nodes[q].ref - 1));
      nodes, ext := nodes[q := nodes[q].(ref := nodes[q].ref - 1)], ext - multiset{q};
    }

    /** One round of pbuf_free. */
    method FreeStep(q: nat, ghost k: nat, ghost goal: Outcome) returns (released: bool, next: Option<nat>)
      requires Valid() && q in ext && Freeing(nodes, ext, Some(q), k) == goal
      modifies this
      ensures Valid() && (next.Some? ==> next.value in ext)
      ensures Freeing(nodes, ext, next, if released then k + 1 else k) == goal
      ensures if released then |nodes| < |old(nodes)| else next == None && |nodes| == |old(nodes)|
    {
      assert CountAt(nodes, ext, q);
      released, next := nodes[q].ref - 1 == 0, None;
      if released {
        next := Release(q, k);
      } else {
        Drop(q, k);
      }
    }

    /** The u8_t count of released pbufs wraps. */
    method CountUp(count: u8, released: bool, ghost k: nat) returns (count': u8)
      requires count == k % 0x100
      ensures count' == (if released then k + 1 else k) % 0x100
    {
      count' := if released then (count + 1) % 0x100 else count;
    }

    /** pbuf_free: gives up one reference to p; the result is the u8_t count of released pbufs. */
    method Free(p: Option<nat>) returns (count: u8)
      requires Valid() && (p.Some? ==> p.value in ext)
      modifies this
      ensures Valid() && nodes == Freed(old(nodes), p) && ext == old(ext) - Inherited(p)
      ensures count == ReleaseCount(old(nodes), p) % 0x100
    {
      count := 0;
      var cur := p;
      ghost var k, goal := 0, Freeing(nodes, ext, p, 0);
      while cur.Some?
        invariant Valid() && (cur.Some? ==> cur.value in ext)
        invariant Freeing(nodes, ext, cur, k) == goal && count == k % 0x100
        decreases |nodes|, if cur.Some? then 1 else 0
      {
        var released;
        released, cur := FreeStep(cur.value, k, goal);
        count := CountUp(count, released, k);
        k := if released then k + 1 else k;
      }
      FreeingDone(nodes, ext, k);
    }

    /** pbuf_ref */
    method Ref(p: Option<nat>)
      requires Valid() && (p.Some? ==> p.value in nodes && nodes[p.value].ref < 0xff)
      modifies this
      ensures Valid() && ext == old(ext) + Inherited(p)
      ensures p.None? ==> nodes == old(nodes)
      ensures p.Some? ==> nodes == old(nodes)[p.value := old(nodes)[p.value].(ref := old(nodes)[p.value].ref + 1)]
    {
      if p.Some? {
        AddReference(nodes, ext, p.value);
        nodes := nodes[p.value := nodes[p.value].(ref := nodes[p.value].ref + 1)];
        ext := ext + multiset{p.value};
      }
    }

    /** pbuf_cat: the caller's reference to t goes into the chain. */
    method Cat(h: Option<nat>, t: Option<nat>, ghost hs: seq<nat>, ghost ts: seq<nat>)
      requires Valid()
      requires h.Some? && t.Some? ==>
        && Chain(nodes, hs) && Chain(nodes, ts) && h == Head(hs) && t == Head(ts) && t.value in ext
        && forall x | x in hs :: x !in ts
      modifies this
      ensures Valid()
      ensures h.None? || t.None? ==> nodes == old(nodes) && ext == old(ext)
      ensures h.Some? && t.Some? ==>
        && hs[|hs| - 1] in old(nodes) && ts[0] in old(nodes) && nodes == CatStore(old(nodes), hs, ts)
        && ext == old(ext) - multiset{t.value}
    {
      if h.None? || t.None? {
        return;
      }
      var p := BumpChain(h.value, t.value, 1, hs);
      ChainInStore(old(nodes), hs);
      ChainInStore(old(nodes), ts);
      SameLinksCounted(old(nodes), nodes, ext);
      assert LinkAt(old(nodes), hs, |hs| - 1);
      PbufModel.Link(nodes, ext, p, t.value);
      nodes := SetNext(nodes, p, t);
      ext := ext - multiset{t.value};
    }

    /** The walk of pbuf_cat (sign 1) and pbuf_split_64k (sign -1): t's tot_len goes into every pbuf of the chain hs. */
    method BumpChain(h: nat, t: nat, sign: int, ghost hs: seq<nat>) returns (p: nat)
      requires Chain(nodes, hs) && Head(hs) == Some(h) && t in nodes && t !in hs
      modifies this`nodes
      ensures p == hs[|hs| - 1] && nodes == Bumped(old(nodes), hs, sign * old(nodes)[t].tot)
    {
      ChainInStore(nodes, hs);
      p := h;
      ghost var i: nat, d := 0, sign * nodes[t].tot;
      BumpNothing(nodes, hs, d);
      while nodes[p].next.Some?
        invariant i < |hs| && p == hs[i] && p in nodes && t in nodes
        invariant nodes == Bumped(old(nodes), hs[..i], d)
        decreases |hs| - i
      {
        BumpStep(p, t, sign, hs, i, d, old(nodes));
        p := nodes[p].next.value;
        i := i + 1;
      }
      assert LinkAt(old(nodes), hs, i);
      BumpStep(p, t, sign, hs, i, d, old(nodes));
      assert hs[..i + 1] == hs;
    }

    method BumpStep(p: nat, t: nat, sign: int, ghost hs: seq<nat>, ghost i: nat, ghost d: int, ghost m: Store)
      requires Chain(m, hs) && InStore(m, hs) && i < |hs| && p == hs[i] && t in m && t !in hs && d == sign * m[t].tot
      requires nodes == Bumped(m, hs[..i], d)
      modifies this`nodes
      ensures nodes == Bumped(m, hs[..i + 1], d) && p in nodes && nodes[p].next == NextOf(hs, i)
    {
      BumpOne(m, hs, i, d);
      assert LinkAt(m, hs, i);
      nodes := nodes[p := nodes[p].(tot := (nodes[p].tot + sign * nodes[t].tot) % 0x1_0000)];
    }

    /**
     * pbuf_chain: like pbuf_cat, but the caller keeps its reference to t.  Without a head nothing is chained, yet t is
     * still counted up: one reference more than its holders know of.
     */
    method ChainOnto(h: Option<nat>, t: Option<nat>, ghost hs: seq<nat>, ghost ts: seq<nat>)
      requires Valid() && (t.Some? ==> t.value in ext && nodes[t.value].ref < 0xff)
      requires h.Some? && t.Some? ==>
        Chain(nodes, hs) && Chain(nodes, ts) && h == Head(hs) && t == Head(ts) && forall x | x in hs :: x !in ts
      modifies this
      ensures Valid()
      ensures t.None? ==> nodes == old(nodes) && ext == old(ext)
      ensures h.None? && t.Some? ==>
        && ext == old(ext) + multiset{t.value}
        && nodes == old(nodes)[t.value := old(nodes)[t.value].(ref := old(nodes)[t.value].ref + 1)]
      ensures h.Some? && t.Some? ==>
        && ext == old(ext)
        && ts[0] in old(nodes) && hs[|hs| - 1] in old(nodes) && ts[0] in CatStore(old(nodes), hs, ts)
        && var c := CatStore(old(nodes), hs, ts); nodes == c[t.value := c[t.value].(ref := c[t.value].ref + 1)]
    {
      if h.None? || t.None? {
        Cat(h, t, hs, ts);
        Ref(t);
        return;
      }
      ChainInStore(nodes, ts);
      ChainInStore(nodes, hs);
      Cat(h, t, hs, ts);
      assert t.value !in hs;
      assert nodes[t.value].ref == old(nodes)[t.value].ref;
      Ref(t);
      GiveBack(old(ext), t.value);
    }

    /** The pbufs released by pbuf_dechain(ids[0]): the leading ones of the tail that nobody else references. */
    ghost function Dropped(ids: seq<nat>): nat
      requires ids != [] && InStore(nodes, ids)
      reads this
    {
      Sole(nodes, ids[1..])
    }

    /**
     * pbuf_dechain.  The result is meant to be the remaining tail or NULL if it was de-allocated, but the released
     * pbufs are counted in a u8_t: a tail of which a positive multiple of 256 pbufs went away is returned as if it
     * were alive.
     */
    method Dechain(p: nat, ghost ids: seq<nat>) returns (tail: Option<nat>)
      requires Valid() && Chain(nodes, ids) && InStore(nodes, ids) && Head(ids) == Some(p)
      modifies this
      ensures Valid() && ext == old(ext)
      ensures |ids| == 1 ==> nodes == old(nodes) && tail == None
      ensures |ids| > 1 ==> nodes == Freed(DechainStore(old(nodes), p, ids[1]), Some(ids[1]))
      ensures |ids| > 1 ==> p in nodes && nodes[p] == DechainStore(old(nodes), p, ids[1])[p]
      ensures |ids| > 1 ==> forall q | q in old(nodes) :: q in nodes <==> q !in ids[1..][..old(Dropped(ids))]
      ensures |ids| > 1 ==> tail == if old(Dropped(ids)) % 0x100 > 0 then None else Some(ids[1])
      ensures |ids| > 1 ==>
        (tail.Some? && tail.value !in nodes <==> old(Dropped(ids)) > 0 && old(Dropped(ids)) % 0x100 == 0)
      ensures old(TotButSecond(nodes, ids)) ==> TotExact(nodes, [p])
      ensures InStore(nodes, [p]) && FlatFrom(nodes, [p], 0) == old(nodes)[p].data
      ensures |ids| > 1 ==> LivesOn(old(nodes), ids, 1 + old(Dropped(ids)), nodes)
      ensures |ids| > 1 && old(Dropped(ids)) == 0 ==>
        FlatFrom(nodes, [p], 0) + FlatFrom(nodes, ids[1..], 0) == FlatFrom(old(nodes), ids, 0)
    {
      tail := None;
      assert LinkAt(nodes, ids, 0);
      var q := nodes[p].next;
      if q.Some? {
        var gone := FreeBehind(p, q.value, ids);
        if gone == 0 {
          tail := q;
        }
        Dechained(old(nodes), ids);
        TailGone(old(nodes), ids);
      } else {
        assert ids == [p];
        assert FlatFrom(nodes, [p], 1) == [];
      }
    }

    /** p is decoupled from its successor q, and the tail given up. */
    method FreeBehind(p: nat, q: nat, ghost ids: seq<nat>) returns (gone: u8)
      requires Valid() && Chain(nodes, ids) && InStore(nodes, ids) && |ids| > 1 && p == ids[0] && q == ids[1]
      modifies this
      ensures Valid() && ext == old(ext) && nodes == Freed(DechainStore(old(nodes), p, q), Some(q))
      ensures gone == old(Dropped(ids)) % 0x100
    {
      assert LinkAt(nodes, ids, 0);
      DechainCounted(nodes, ext, p, q);
      DechainTail(nodes, ids);
      nodes := DechainStore(nodes, p, q);
      ext := ext + multiset{q};
      FreedChain(nodes, ids[1..]);
      gone := Free(Some(q));
      GiveAndTake(old(ext), q);
    }

    /** The first loop of pbuf_split_64k: how many pbufs fit below 64K, found by u16_t overflow. */
    method FindCut(p: nat, ghost ids: seq<nat>) returns (i: nat, r: Option<nat>, ghost k: nat)
      requires Chain(nodes, ids) && InStore(nodes, ids) && Head(ids) == Some(p)
      ensures 0 < k <= |ids| && i == ids[k - 1] && r == Head(ids[k..])
      ensures |FlatFrom(nodes, ids, 0)| - |FlatFrom(nodes, ids, k)| < 0x1_0000
      ensures k < |ids| ==> |FlatFrom(nodes, ids, 0)| - |FlatFrom(nodes, ids, k + 1)| >= 0x1_0000
    {
      assert LinkAt(nodes, ids, 0);
      var front: nat := |nodes[p].data|;
      i, r, k := p, nodes[p].next, 1;
      while r.Some? && (front + |nodes[r.value].data|) % 0x1_0000 >= front
        invariant 0 < k <= |ids| && i == ids[k - 1] && r == Head(ids[k..])
        invariant front == |FlatFrom(nodes, ids, 0)| - |FlatFrom(nodes, ids, k)| < 0x1_0000
        decreases |ids| - k
      {
        assert LinkAt(nodes, ids, k);
        OverflowTest(front, |nodes[r.value].data|);
        assert |FlatFrom(nodes, ids, k)| == |nodes[ids[k]].data| + |FlatFrom(nodes, ids, k + 1)|;
        front := (front + |nodes[r.value].data|) % 0x1_0000;
        i, r, k := r.value, nodes[r.value].next, k + 1;
      }
      if r.Some? {
        OverflowTest(front, |nodes[r.value].data|);
      }
    }

    /** pbuf_split_64k */
    method Split64k(p: Option<nat>, ghost ids: seq<nat>) returns (rest: Option<nat>, ghost k: nat)
      requires Valid() && Chain(nodes, ids) && InStore(nodes, ids) && Head(ids) == p
      modifies this
      ensures Valid() && ext == old(ext) + Inherited(rest)
      ensures k <= |ids| && rest == Head(ids[k..]) && (p.Some? ==> 0 < k)
      ensures p.Some? ==> |FlatFrom(old(nodes), ids, 0)| - |FlatFrom(old(nodes), ids, k)| < 0x1_0000
      ensures k < |ids| ==> |FlatFrom(old(nodes), ids, 0)| - |FlatFrom(old(nodes), ids, k + 1)| >= 0x1_0000
      ensures nodes == if k < |ids| then SplitStore(old(nodes), ids, k) else old(nodes)
      ensures k < |ids| ==>
        rest.Some? && nodes[rest.value].fin == (old(nodes)[p.value].fin || old(nodes)[rest.value].fin)
    {
      rest, k := None, |ids|;
      if p.Some? {
        var i, r;
        i, r, k := FindCut(p.value, ids);
        assert LinkAt(nodes, ids, k - 1);
        PbufModel.Unlink(nodes, ext, i);
        nodes := SetNext(nodes, i, None);
        if r.Some? {
          ext := ext + multiset{r.value};
          SubtractFromFront(p.value, r.value, ids, k, old(nodes));
          SplitKeeps(old(nodes), ids, k);
          rest := r;
        } else {
          assert nodes == old(nodes);
        }
      }
    }

    /** The front part gives up the tail's length, and its FIN flag is passed on. */
    method SubtractFromFront(p: nat, r: nat, ghost ids: seq<nat>, ghost k: nat, ghost m: Store)
      requires Valid() && Chain(m, ids) && InStore(m, ids) && 0 < k < |ids| && p == ids[0] && r == ids[k]
      requires nodes == SetNext(m, ids[k - 1], None)
      modifies this`nodes
      ensures Valid() && nodes == SplitStore(m, ids, k)
    {
      assert ids[..k - 1 + 1] == ids[..k] && InStore(nodes, ids[..k]);
      ChainPrefix(m, nodes, ids, k - 1);
      assert r !in ids[..k];
      var _ := BumpChain(p, r, -1, ids[..k]);
      SameLinksCounted(old(nodes), nodes, ext);
      if nodes[p].fin {
        ghost var n := nodes;
        nodes := nodes[r := nodes[r].(fin := true)];
        SameLinksCounted(n, nodes, ext);
      }
    }

    /** The walk of pbuf_realloc over the pbufs that remain in the chain. */
    method FindLast(p: nat, newLen: u16, shrink: int, ghost ids: seq<nat>) returns (q: nat, rem: nat, ghost i: nat)
      requires Chain(nodes, ids) && InStore(nodes, ids) && Head(ids) == Some(p)
      requires newLen < |FlatFrom(nodes, ids, 0)| && shrink == |FlatFrom(nodes, ids, 0)| - newLen
      modifies this`nodes
      ensures ReallocStop(old(nodes), ids, i, rem, newLen) && q == ids[i] && (rem == 0 ==> i == 0)
      ensures nodes == Bumped(old(nodes), ids[..i], -shrink)
    {
      q, rem, i := p, newLen, 0;
      BumpNothing(nodes, ids, -shrink);
      while rem > |nodes[q].data|
        invariant i < |ids| && q == ids[i] && q in nodes && (rem == 0 ==> i == 0)
        invariant nodes == Bumped(old(nodes), ids[..i], -shrink)
        invariant newLen == |FlatFrom(old(nodes), ids, 0)| - |FlatFrom(old(nodes), ids, i)| + rem
        decreases |ids| - i
      {
        BumpedLength(old(nodes), ids, i, -shrink);
        rem := rem - |nodes[q].data|;
        q := SkipStep(q, shrink, ids, i, old(nodes));
        i := i + 1;
      }
    }

    /** One pbuf that stays in the chain: its tot_len shrinks. */
    method SkipStep(q: nat, shrink: int, ghost ids: seq<nat>, ghost i: nat, ghost m: Store) returns (next: nat)
      requires Chain(m, ids) && InStore(m, ids) && i + 1 < |ids| && q == ids[i]
      requires nodes == Bumped(m, ids[..i], -shrink)
      modifies this`nodes
      ensures nodes == Bumped(m, ids[..i + 1], -shrink) && next == ids[i + 1] && next in nodes
    {
      assert LinkAt(m, ids, i);
      next := nodes[q].next.value;
      ShortenTot(q, shrink, ids, i, m);
    }

    method ShortenTot(q: nat, shrink: int, ghost ids: seq<nat>, ghost i: nat, ghost m: Store)
      requires i < |ids| && q == ids[i] && q in m && q !in ids[..i] && nodes == Bumped(m, ids[..i], -shrink)
      modifies this`nodes
      ensures nodes == Bumped(m, ids[..i + 1], -shrink)
    {
      BumpOne(m, ids, i, -shrink);
      nodes := nodes[q := nodes[q].(tot := (nodes[q].tot - shrink) % 0x1_0000)];
    }

    /** The new last pbuf is found and cut, and the tail is unlinked. */
    method CutAt(p: nat, newLen: u16, shrink: int, ghost ids: seq<nat>)
      returns (tail: Option<nat>, ghost i: nat, ghost rem: nat)
      requires Chain(nodes, ids) && InStore(nodes, ids) && Head(ids) == Some(p)
      requires newLen < |FlatFrom(nodes, ids, 0)| && shrink == |FlatFrom(nodes, ids, 0)| - newLen
      modifies this`nodes
      ensures ReallocStop(old(nodes), ids, i, rem, newLen) && tail == NextOf(ids, i) && (rem == 0 ==> i == 0)
      ensures nodes == ReallocStore(old(nodes), ids, i, rem, shrink)
    {
      var q, keep;
      q, keep, i := FindLast(p, newLen, shrink, ids);
      rem := keep;
      assert LinkAt(old(nodes), ids, i);
      assert q !in ids[..i];
      tail := nodes[q].next;
      nodes := nodes[q := nodes[q].(next := None, tot := keep, data := nodes[q].data[..keep])];
    }

    /**
     * pbuf_realloc: take the first newLen bytes.  (The link to the tail is cleared before, not after, the tail is
     * freed; pbuf_free never looks at the pbuf in front.)
     */
    method Realloc(p: nat, newLen: u16, ghost ids: seq<nat>) returns (ghost k: nat)
      requires Valid() && Chain(nodes, ids) && InStore(nodes, ids) && Head(ids) == Some(p) && TotExact(nodes, ids)
      modifies this
      ensures Valid() && ext == old(ext) && 0 < k <= |ids|
      ensures Chain(nodes, ids[..k]) && InStore(nodes, ids[..k]) && TotExact(nodes, ids[..k])
      ensures FlatFrom(nodes, ids[..k], 0)
        == FlatFrom(old(nodes), ids, 0)[..Min(newLen, |FlatFrom(old(nodes), ids, 0)|)]
      ensures SameMarks(old(nodes), nodes, ids[..k])
      ensures newLen >= |FlatFrom(old(nodes), ids, 0)| ==> k == |ids| && nodes == old(nodes)
      ensures newLen < |FlatFrom(old(nodes), ids, 0)| ==> k == 1 || |nodes[ids[k - 1]].data| > 0
      ensures SameOutside(old(nodes), nodes, ids)
    {
      ExactAt(nodes, ids, 0);
      assert ids[..|ids|] == ids;
      k := |ids|;
      if newLen < nodes[p].tot {
        k := Shorten(p, newLen, nodes[p].tot - newLen, ids);
      }
    }

    /** pbuf_realloc when the new length is smaller. */
    method Shorten(p: nat, newLen: u16, shrink: int, ghost ids: seq<nat>) returns (ghost k: nat)
      requires Valid() && Chain(nodes, ids) && InStore(nodes, ids) && Head(ids) == Some(p) && TotExact(nodes, ids)
      requires newLen < |FlatFrom(nodes, ids, 0)| && shrink == |FlatFrom(nodes, ids, 0)| - newLen
      modifies this
      ensures Valid() && ext == old(ext) && 0 < k <= |ids|
      ensures Chain(nodes, ids[..k]) && InStore(nodes, ids[..k]) && TotExact(nodes, ids[..k])
      ensures FlatFrom(nodes, ids[..k], 0) == FlatFrom(old(nodes), ids, 0)[..newLen]
      ensures SameMarks(old(nodes), nodes, ids[..k]) && (k == 1 || |nodes[ids[k - 1]].data| > 0)
      ensures SameOutside(old(nodes), nodes, ids)
    {
      var tail;
      ghost var i, rem;
      tail, i, rem := CutAt(p, newLen, shrink, ids);
      DropTail(tail, newLen, ids, i, rem, old(nodes));
      k := i + 1;
      assert ids[..k][i] == ids[i];
    }

    /** The tail, which pbuf i of the old chain has just been cut off from, is freed. */
    method DropTail(tail: Option<nat>, newLen: u16, ghost ids: seq<nat>, ghost i: nat, ghost rem: nat, ghost m: Store)
      requires Counted(m, ext) && Chain(m, ids) && TotExact(m, ids) && ReallocStop(m, ids, i, rem, newLen)
      requires tail == NextOf(ids, i) && nodes == ReallocStore(m, ids, i, rem, |FlatFrom(m, ids, 0)| - newLen)
      modifies this
      ensures Valid() && ext == old(ext)
      ensures Chain(nodes, ids[..i + 1]) && InStore(nodes, ids[..i + 1]) && TotExact(nodes, ids[..i + 1])
      ensures FlatFrom(nodes, ids[..i + 1], 0) == FlatFrom(m, ids, 0)[..newLen]
      ensures SameMarks(m, nodes, ids[..i + 1]) && ids[i] in nodes && |nodes[ids[i]].data| == rem
      ensures SameOutside(m, nodes, ids)
    {
      ghost var shrink := |FlatFrom(m, ids, 0)| - newLen;
      ReallocEffect(m, ids, i, rem, newLen);
      ReallocCounted(m, ext, ids, i, rem, shrink);
      ReallocTail(m, ids, i, rem, shrink);
      FreeTail(tail, ids[..i + 1], ids[i + 1..]);
      TailFreed(m, ids, i, rem, shrink, nodes);
    }

    /** Free the chain b, which the caller holds; the chain a next to it stays as it is. */
    method FreeTail(t: Option<nat>, ghost a: seq<nat>, ghost b: seq<nat>)
      requires Counted(nodes, ext + Inherited(t)) && Chain(nodes, b) && Head(b) == t
      requires Chain(nodes, a) && InStore(nodes, a) && TotExact(nodes, a) && forall x | x in a :: x !in b
      modifies this
      ensures Valid() && ext == old(ext)
      ensures Chain(nodes, a) && InStore(nodes, a) && TotExact(nodes, a)
      ensures FlatFrom(nodes, a, 0) == FlatFrom(old(nodes), a, 0)
      ensures SameOutside(old(nodes), nodes, b)
    {
      FreedChain(nodes, b);
      ext := ext + Inherited(t);
      var _ := Free(t);
      if t.Some? { GiveAndTake(old(ext), t.value); }
      assert ext == old(ext);
      Untouched(old(nodes), nodes, a);
    }

    /** Detach and free the first pbuf; the caller's reference moves on to the next one. */
    method PopFirst(p: nat, ghost ids: seq<nat>) returns (next: Option<nat>)
      requires Valid() && Chain(nodes, ids) && InStore(nodes, ids) && TotExact(nodes, ids) && Head(ids) == Some(p)
      requires p in ext
      modifies this
      ensures Valid() && ext == old(ext) - multiset{p} + Inherited(next) && next == Head(ids[1..])
      ensures Chain(nodes, ids[1..]) && InStore(nodes, ids[1..]) && TotExact(nodes, ids[1..])
      ensures FlatFrom(old(nodes), ids, 0) == old(nodes)[p].data + FlatFrom(nodes, ids[1..], 0)
      ensures SameOutside(old(nodes), nodes, [p])
    {
      assert LinkAt(nodes, ids, 0);
      next := nodes[p].next;
      Detach(p);
      FreeSingle(p);
      Reorder(old(ext), Inherited(next), p);
      DropFirst(old(nodes), nodes, ids);
    }

    /** p->next is cleared; its reference is in the caller's hands. */
    method Detach(p: nat)
      requires Valid() && p in nodes
      modifies this
      ensures Valid() && nodes == SetNext(old(nodes), p, None) && ext == old(ext) + Inherited(old(nodes)[p].next)
    {
      PbufModel.Unlink(nodes, ext, p);
      nodes, ext := SetNext(nodes, p, None), ext + Inherited(nodes[p].next);
    }

    /** pbuf_free on a pbuf without successor concerns nobody else. */
    method FreeSingle(p: nat)
      requires Valid() && p in ext && p in nodes && nodes[p].next == None
      modifies this
      ensures Valid() && ext == old(ext) - multiset{p} && SameOutside(old(nodes), nodes, [p])
    {
      assert LinkAt(nodes, [p], 0);
      FreedChain(nodes, [p]);
      var _ := Free(Some(p));
    }

    /** One round of pbuf_free_header: free the first pbuf or hide the start of its payload. */
    method HeaderStep(p: nat, left: nat, ghost m: Store, ghost ids: seq<nat>, ghost size: nat, ghost j: nat)
      returns (p': Option<nat>, left': nat, ghost j': nat)
      requires Valid() && p in ext && Chain(m, ids) && HeaderState(m, nodes, ids, size, left, j)
      requires 0 < left && Head(ids[j..]) == Some(p)
      modifies this
      ensures Valid() && ext == old(ext) - multiset{p} + Inherited(p')
      ensures HeaderState(m, nodes, ids, size, left', j') && p' == Head(ids[j'..])
      ensures left' == 0 || j < j'
    {
      NextUntouched(m, nodes, ids, size, left, j);
      if left >= |nodes[p].data| {
        left', j' := left - |nodes[p].data|, j + 1;
        p' := PopFirst(p, ids[j..]);
        HeaderDropped(m, old(nodes), nodes, ids, size, left, j, m[p].data);
      } else {
        HeaderCut(m, nodes, ids, size, left, j);
        nodes := TrimFirst(nodes, p, left);
        SameLinksCounted(old(nodes), nodes, ext);
        SelfExchange(ext, Some(p));
        p', left', j' := Some(p), 0, j;
      }
    }

    /** pbuf_free_header: drop the first `size` bytes, and the j pbufs that end within them. */
    method FreeHeader(q: Option<nat>, size: u16, ghost ids: seq<nat>) returns (p: Option<nat>, ghost j: nat)
      requires Valid() && Chain(nodes, ids) && InStore(nodes, ids) && TotExact(nodes, ids) && Head(ids) == q
      requires q.Some? ==> q.value in ext
      modifies this
      ensures Valid() && ext == old(ext) - Inherited(q) + Inherited(p)
      ensures DropsTo(old(nodes), ids, size, j) && p == Head(ids[j..])
      ensures Chain(nodes, ids[j..]) && InStore(nodes, ids[j..]) && TotExact(nodes, ids[j..])
      ensures FlatFrom(nodes, ids[j..], 0)
        == FlatFrom(old(nodes), ids, 0)[Min(size, |FlatFrom(old(nodes), ids, 0)|)..]
      ensures SameOutside(old(nodes), nodes, ids)
    {
      p, j := q, 0;
      var left: nat := size;
      SelfExchange(ext, q);
      HeaderStart(nodes, ids, size);
      assert ids[0..] == ids;
      while left != 0 && p.Some?
        invariant j <= |ids| && p == Head(ids[j..])
        invariant Valid() && ext == old(ext) - Inherited(q) + Inherited(p)
        invariant HeaderState(old(nodes), nodes, ids, size, left, j)
        decreases left != 0, |ids| - j
      {
        ghost var f := p.value;
        p, left, j := HeaderStep(p.value, left, old(nodes), ids, size, j);
        Exchange(old(ext) - Inherited(q), f, p);
      }
      HeaderEnd(old(nodes), nodes, ids, size, left, j);
    }

    /** pbuf_copy_partial: the bytes delivered to the application buffer. */
    method CopyPartial(buf: Option<nat>, len: u16, offset: u16, ghost ids: seq<nat>) returns (out: seq<byte>)
      requires Chain(nodes, ids) && InStore(nodes, ids) && Head(ids) == buf
      ensures var s := FlatFrom(nodes, ids, 0); out == s[Min(offset, |s|)..Min(offset + len, |s|)]
    {
      out := [];
      var p, l: nat, o: nat := buf, len, offset;
      ghost var i: nat := 0;
      while l != 0 && p.Some?
        invariant i <= |ids| && p == Head(ids[i..])
        invariant out + Slice(FlatFrom(nodes, ids, i), o, l) == Slice(FlatFrom(nodes, ids, 0), offset, len)
        decreases |ids| - i
      {
        assert LinkAt(nodes, ids, i);
        CopyStepSlice(out, nodes[p.value].data, FlatFrom(nodes, ids, i + 1), o, l);
        var (chunk, o', l') := CopyStep(nodes[p.value].data, o, l);
        out, o, l := out + chunk, o', l';
        p, i := nodes[p.value].next, i + 1;
      }
    }

    /** pbuf_take: false is ERR_ARG or ERR_MEM. */
    method Take(buf: Option<nat>, data: seq<byte>, ghost ids: seq<nat>) returns (ok: bool)
      requires Valid() && Chain(nodes, ids) && InStore(nodes, ids) && Head(ids) == buf && TotExact(nodes, ids)
      requires |data| < 0x1_0000
      modifies this`nodes
      ensures Valid() && SameShape(old(nodes), nodes) && TotExact(nodes, ids) && SameOutside(old(nodes), nodes, ids)
      ensures ok <==> buf.Some? && |data| <= |FlatFrom(old(nodes), ids, 0)|
      ensures FlatFrom(nodes, ids, 0)
        == if ok then data + FlatFrom(old(nodes), ids, 0)[|data|..] else FlatFrom(old(nodes), ids, 0)
    {
      if buf.None? {
        return false;
      }
      ExactAt(nodes, ids, 0);
      if nodes[buf.value].tot < |data| {
        return false;
      }
      TakeAll(buf.value, data, ids);
      SameShapeCounted(old(nodes), nodes);
      SameShapeTot(old(nodes), nodes, ids);
      ok := true;
    }

    /** The copy loop of pbuf_take. */
    method TakeAll(buf: nat, data: seq<byte>, ghost ids: seq<nat>)
      requires Chain(nodes, ids) && InStore(nodes, ids) && Head(ids) == Some(buf) && |data| <= |FlatFrom(nodes, ids, 0)|
      modifies this`nodes
      ensures SameShape(old(nodes), nodes) && InStore(nodes, ids) && SameOutside(old(nodes), nodes, ids)
      ensures FlatFrom(nodes, ids, 0) == data + FlatFrom(old(nodes), ids, 0)[|data|..]
    {
      var p, copied: nat := Some(buf), 0;
      ghost var i: nat, all := 0, FlatFrom(nodes, ids, 0);
      assert data[..0] + all[0..] == all;
      while |data| - copied != 0
        invariant copied <= |data| && i <= |ids| && p == Head(ids[i..])
        invariant SameShape(old(nodes), nodes) && InStore(nodes, ids) && SameOutside(old(nodes), nodes, ids)
        invariant FlatFrom(nodes, ids, 0) == data[..copied] + all[copied..]
        invariant copied < |data| ==> |FlatFrom(old(nodes), ids, i)| == |all| - copied
        decreases |ids| - i
      {
        p, copied := TakeStep(p.value, data, copied, ids, i, old(nodes), all);
        i := i + 1;
      }
      assert data[..copied] == data;
    }

    /** One round of pbuf_take: fill the payload of pbuf i from data. */
    method TakeStep(p: nat, data: seq<byte>, copied: nat, ghost ids: seq<nat>, ghost i: nat, ghost m: Store,
                    ghost all: seq<byte>)
      returns (next: Option<nat>, copied': nat)
      requires Chain(m, ids) && InStore(m, ids) && InStore(nodes, ids) && SameShape(m, nodes) && i < |ids|
      requires ids[i] == p
      requires copied < |data| <= |all| && FlatFrom(nodes, ids, 0) == data[..copied] + all[copied..]
      requires |FlatFrom(m, ids, i)| == |all| - copied && SameOutside(m, nodes, ids)
      modifies this`nodes
      ensures SameOutside(m, nodes, ids)
      ensures copied <= copied' <= |data| && next == Head(ids[i + 1..]) && SameShape(m, nodes) && InStore(nodes, ids)
      ensures FlatFrom(nodes, ids, 0) == data[..copied'] + all[copied'..]
      ensures copied' < |data| ==> |FlatFrom(m, ids, i + 1)| == |all| - copied'
    {
      assert LinkAt(m, ids, i);
      var k := if |data| - copied > |nodes[p].data| then |nodes[p].data| else |data| - copied;
      Taken(m, nodes, ids, i, data, copied, k, all);
      next, copied' := nodes[p].next, copied + k;
      nodes := WriteNode(nodes, p, 0, data[copied..copied + k]);
    }

    lemma SameShapeCounted(m: Store, n: Store)
      requires Counted(m, ext) && SameShape(m, n)
      ensures Counted(n, ext)
    {
      SameLinksCounted(m, n, ext);
    }

    /** Take data into a chain, then read a part of it back: exactly that part. */
    method TakeThenCopyPartial(buf: nat, data: seq<byte>, len: u16, offset: u16, ghost ids: seq<nat>)
      returns (out: seq<byte>)
      requires Valid() && Chain(nodes, ids) && InStore(nodes, ids) && Head(ids) == Some(buf) && TotExact(nodes, ids)
      requires offset + len <= |data| <= |FlatFrom(nodes, ids, 0)|
      modifies this`nodes
      ensures Valid() && out == data[offset..offset + len]
    {
      SuffixLength(nodes, ids, 0, 0);
      var _ := Take(Some(buf), data, ids);
      SameShapeChain(old(nodes), nodes, ids);
      out := CopyPartial(Some(buf), len, offset, ids);
    }

    /** The MEMCPY of one round of pbuf_copy: as much as both current pbufs allow. */
    method CopyChunk(pt: nat, ot: nat, pf: nat, of: nat, ghost m: Store, ghost tos: seq<nat>, ghost froms: seq<nat>,
                     ghost i: nat, ghost j: nat)
      returns (k: nat)
      requires Chain(m, tos) && Chain(m, froms) && Copying(m, tos, froms, nodes, i, ot, j, of)
      requires i < |tos| && j < |froms| && pt == tos[i] && pf == froms[j] && forall x | x in tos :: x !in froms
      modifies this`nodes
      ensures Copying(m, tos, froms, nodes, i, ot + k, j, of + k)
      ensures ot + k == |m[tos[i]].data| || of + k == |m[froms[j]].data|
    {
      CopyingReads(m, tos, froms, nodes, i, ot, j, of);
      var a, b := |nodes[pt].data| - ot, |nodes[pf].data| - of;
      k := if a >= b then b else a;
      CopyingWrite(m, tos, froms, nodes, i, ot, j, of, k);
      nodes := WriteNode(nodes, pt, ot, nodes[pf].data[of..of + k]);
    }

    /** A source pbuf that is used up makes way for the next one. */
    method NextFrom(pf: nat, of: nat, ghost m: Store, ghost tos: seq<nat>, ghost froms: seq<nat>, ghost i: nat,
                    ghost ot: nat, ghost j: nat)
      returns (pf': Option<nat>, of': nat, ghost j': nat)
      requires Chain(m, froms) && Copying(m, tos, froms, nodes, i, ot, j, of) && j < |froms| && pf == froms[j]
      requires forall x | x in tos :: x !in froms
      ensures Copying(m, tos, froms, nodes, i, ot, j', of') && pf' == Head(froms[j'..])
      ensures j' == if of == |m[froms[j]].data| then j + 1 else j
      ensures NoEmpty(m, froms) && j' < |froms| ==> of' < |m[froms[j']].data|
    {
      assert LinkAt(m, froms, j) && froms[j] in froms;
      pf', of', j' := Some(pf), of, j;
      if of >= |nodes[pf].data| {
        CopyingNextFrom(m, tos, froms, nodes, i, ot, j);
        pf', of', j' := nodes[pf].next, 0, j + 1;
      }
    }

    /** A target pbuf that is full makes way for the next one. */
    method NextTo(pt: nat, ot: nat, ghost m: Store, ghost tos: seq<nat>, ghost froms: seq<nat>, ghost i: nat,
                  ghost j: nat, ghost of: nat)
      returns (pt': Option<nat>, ot': nat, ghost i': nat)
      requires Chain(m, tos) && Copying(m, tos, froms, nodes, i, ot, j, of) && i < |tos| && pt == tos[i]
      ensures Copying(m, tos, froms, nodes, i', ot', j, of) && pt' == Head(tos[i'..])
      ensures i' == if ot == |m[tos[i]].data| then i + 1 else i
    {
      assert LinkAt(m, tos, i);
      pt', ot', i' := Some(pt), ot, i;
      if ot == |nodes[pt].data| {
        CopyingNextTo(m, tos, froms, nodes, i, j, of);
        pt', ot', i' := nodes[pt].next, 0, i + 1;
      }
    }

    /** One round of pbuf_copy. */
    method CopyRound(pt: nat, ot: nat, pf: nat, of: nat, ghost m: Store, ghost tos: seq<nat>, ghost froms: seq<nat>,
                     ghost i: nat, ghost j: nat)
      returns (pt': Option<nat>, ot': nat, pf': Option<nat>, of': nat, ghost i': nat, ghost j': nat)
      requires Chain(m, tos) && Chain(m, froms) && Copying(m, tos, froms, nodes, i, ot, j, of)
      requires i < |tos| && j < |froms| && pt == tos[i] && pf == froms[j] && forall x | x in tos :: x !in froms
      modifies this`nodes
      ensures Copying(m, tos, froms, nodes, i', ot', j', of') && pt' == Head(tos[i'..]) && pf' == Head(froms[j'..])
      ensures i' + j' > i + j && i' <= |tos| && j' <= |froms|
      ensures NoEmpty(m, froms) && j' < |froms| ==> of' < |m[froms[j']].data|
    {
      var k := CopyChunk(pt, ot, pf, of, m, tos, froms, i, j);
      pf', of', j' := NextFrom(pf, of + k, m, tos, froms, i, ot + k, j);
      pt', ot', i' := NextTo(pt, ot + k, m, tos, froms, i, j', of');
    }

    /** pbuf_copy.  Between any two fragmentations without empty pbufs it succeeds and copies the flat bytes. */
    method Copy(to: Option<nat>, from: Option<nat>, ghost tos: seq<nat>, ghost froms: seq<nat>) returns (err: Err)
      requires Valid() && Chain(nodes, tos) && Chain(nodes, froms) && Head(tos) == to && Head(froms) == from
      requires TotExact(nodes, tos) && TotExact(nodes, froms) && forall x | x in tos :: x !in froms
      modifies this`nodes
      ensures Valid() && SameShape(old(nodes), nodes) && TotExact(nodes, tos) && SameOutside(old(nodes), nodes, tos)
      ensures to.None? || from.None? || |FlatFrom(old(nodes), tos, 0)| < |FlatFrom(old(nodes), froms, 0)| ==>
        err == ErrArg && nodes == old(nodes)
      ensures to.Some? && from.Some? && |FlatFrom(old(nodes), froms, 0)| <= |FlatFrom(old(nodes), tos, 0)| ==>
        (NoEmpty(old(nodes), tos) && NoEmpty(old(nodes), froms) ==> err == ErrOk)
      ensures err == ErrOk ==>
        var f, t := FlatFrom(old(nodes), froms, 0), FlatFrom(old(nodes), tos, 0);
        |f| <= |t| && FlatFrom(nodes, tos, 0) == f + t[|f|..]
    {
      if to.None? || from.None? {
        return ErrArg;
      }
      ExactAt(nodes, tos, 0);
      ExactAt(nodes, froms, 0);
      if nodes[to.value].tot < nodes[from.value].tot {
        return ErrArg;
      }
      err := CopyLoop(to.value, from.value, tos, froms);
      SameShapeCounted(old(nodes), nodes);
      SameShapeTot(old(nodes), nodes, tos);
    }

    method CopyLoop(to: nat, from: nat, ghost tos: seq<nat>, ghost froms: seq<nat>) returns (err: Err)
      requires Chain(nodes, tos) && Chain(nodes, froms) && Head(tos) == Some(to) && Head(froms) == Some(from)
      requires TotExact(nodes, tos) && TotExact(nodes, froms) && forall x | x in tos :: x !in froms
      requires |FlatFrom(nodes, froms, 0)| <= |FlatFrom(nodes, tos, 0)|
      modifies this`nodes
      ensures SameShape(old(nodes), nodes) && InStore(nodes, tos) && SameOutside(old(nodes), nodes, tos)
      ensures NoEmpty(old(nodes), tos) && NoEmpty(old(nodes), froms) ==> err == ErrOk
      ensures err == ErrOk ==> Copied(old(nodes), tos, froms, nodes)
    {
      ghost var m := nodes;
      var pt, ot: nat, pf, of: nat := Some(to), 0, Some(from), 0;
      ghost var i: nat, j: nat := 0, 0;
      CopyingStart(m, tos, froms);
      while pf.Some?
        invariant Copying(m, tos, froms, nodes, i, ot, j, of) && pt == Head(tos[i..]) && pf == Head(froms[j..])
        invariant j < |froms| ==> i < |tos|
        decreases |tos| + |froms| - i - j
      {
        pt, ot, pf, of, i, j := CopyRound(pt.value, ot, pf.value, of, m, tos, froms, i, j);
        err := Checks(pt, pf, m, tos, froms, i, ot, j, of);
        if err != ErrOk {
          return;
        }
      }
      CopyingDone(m, tos, froms, nodes, i, ot);
      err := ErrOk;
    }

    /** The LWIP_ERROR checks at the end of each round. */
    method Checks(pt: Option<nat>, pf: Option<nat>, ghost m: Store, ghost tos: seq<nat>, ghost froms: seq<nat>,
                  ghost i: nat, ghost ot: nat, ghost j: nat, ghost of: nat) returns (err: Err)
      requires Chain(m, tos) && Chain(m, froms) && TotExact(m, tos) && TotExact(m, froms)
      requires Copying(m, tos, froms, nodes, i, ot, j, of) && pt == Head(tos[i..]) && pf == Head(froms[j..])
      requires NoEmpty(m, froms) && j < |froms| ==> of < |m[froms[j]].data|
      requires forall x | x in tos :: x !in froms
      ensures err == ErrOk ==> (j < |froms| ==> i < |tos|)
      ensures NoEmpty(m, tos) && NoEmpty(m, froms) ==> err == ErrOk
    {
      if i == |tos| && j < |froms| && NoEmpty(m, froms) {
        TargetNotExhausted(m, tos, froms, nodes, j, of);
      }
      if pt.None? && pf.Some? {
        return ErrArg;
      }
      if pf.Some? {
        assert LinkAt(m, froms, j) && froms[j] in froms;
        if NoEmpty(m, froms) { QueueTest(m, froms, j); }
        if |nodes[pf.value].data| == nodes[pf.value].tot && nodes[pf.value].next.Some? {
          return ErrVal;
        }
      }
      if pt.Some? {
        assert LinkAt(m, tos, i);
        if NoEmpty(m, tos) { QueueTest(m, tos, i); }
        if |nodes[pt.value].data| == nodes[pt.value].tot && nodes[pt.value].next.Some? {
          return ErrVal;
        }
      }
      return ErrOk;
    }

    /** memp_malloc: any free element of the pool. */
    method MempMalloc() returns (q: Option<nat>)
      ensures q.Some? ==> q.value < capacity && q.value !in nodes
      ensures q.None? ==> forall i | 0 <= i < capacity :: i in nodes
    {
      var i: nat := 0;
      while i < capacity
        invariant i <= capacity && forall x | 0 <= x < i :: x in nodes
      {
        if i !in nodes {
          return Some(i);
        }
        i := i + 1;
      }
      return None;
    }

    /** One round of pbuf_alloc: a pool element, if there is one, becomes the next pbuf with as many bytes as fit. */
    method TakeElement(p: Option<nat>, last: Option<nat>, rem: u16, room: nat, ghost b: Building)
      returns (q: Option<nat>, k: nat)
      requires Valid() && b.Holds(nodes, ext, rem) && (b.ids == [] || rem > 0)
      requires p == Head(b.ids) && last == (if b.ids == [] then None else Some(b.ids[|b.ids| - 1]))
      requires 0 < room && room == if b.ids == [] then b.first else b.size
      modifies this
      ensures Valid() && k <= rem && (rem > 0 ==> 0 < k)
      ensures q.None? ==> nodes == old(nodes) && ext == old(ext) && forall i | 0 <= i < capacity :: i in nodes
      ensures q.Some? ==> b.(ids := b.ids + [q.value]).Holds(nodes, ext, rem - k)
    {
      k := if rem < room then rem else room;
      q := MempMalloc();
      if q.Some? {
        AppendPbuf(p, last, q.value, rem, k, b.m0, b.ids);
        Built(b, old(nodes), old(ext), nodes, ext, rem, q.value, k);
      }
    }

    /** One more pbuf for the chain under construction. */
    method AppendPbuf(p: Option<nat>, last: Option<nat>, q: nat, rem: u16, k: nat, ghost m0: Store, ghost ids: seq<nat>)
      requires Valid() && Growing(m0, nodes, ids, rem) && q !in nodes && k <= rem
      requires p == Head(ids) && last == (if ids == [] then None else Some(ids[|ids| - 1]))
      modifies this
      ensures Valid() && Growing(m0, nodes, ids + [q], rem - k)
      ensures |FlatFrom(nodes, ids + [q], 0)| == |FlatFrom(old(nodes), ids, 0)| + k
      ensures ext == if ids == [] then old(ext) + multiset{q} else old(ext)
      ensures forall x | x in ids :: x in nodes && x in old(nodes) && nodes[x].data == old(nodes)[x].data
      ensures q in nodes && |nodes[q].data| == k
    {
      AppendedGrowing(m0, nodes, ids, q, rem, k);
      AppendedFlat(nodes, ids, q, rem, k, 0);
      AppendedData(nodes, ids, q, rem, k);
      AddPbuf(q, rem, k);
      if last.Some? {
        assert LinkAt(old(nodes), ids, |ids| - 1);
        LinkBehind(last.value, q);
        GiveAndTake(old(ext), q);
      }
    }

    /** A new pbuf, not yet in any chain. */
    method AddPbuf(q: nat, tot: u16, k: nat)
      requires Valid() && q !in nodes && k < 0x1_0000
      modifies this
      ensures Valid() && nodes == old(nodes)[q := NewPbuf(tot, k)] && ext == old(ext) + multiset{q}
    {
      PbufModel.Allocate(nodes, ext, q, NewPbuf(tot, k));
      nodes, ext := nodes[q := NewPbuf(tot, k)], ext + multiset{q};
    }

    /** The new pbuf becomes the successor of the last one, which uses up the reference to it. */
    method LinkBehind(last: nat, q: nat)
      requires Valid() && last in nodes && nodes[last].next == None && q in ext
      modifies this
      ensures Valid() && nodes == SetNext(old(nodes), last, Some(q)) && ext == old(ext) - multiset{q}
    {
      PbufModel.Link(nodes, ext, last, q);
      nodes, ext := SetNext(nodes, last, Some(q)), ext - multiset{q};
    }

    /** The chain allocated so far goes back to the pool. */
    method GiveUp(p: Option<nat>, ghost rem: nat, ghost b: Building)
      requires Valid() && b.Holds(nodes, ext, rem) && (b.ids == [] || rem > 0) && p == Head(b.ids)
      requires forall i | 0 <= i < capacity :: i in nodes
      modifies this
      ensures Valid() && nodes == b.m0 && ext == b.e0
      ensures forall i | 0 <= i < capacity :: i in nodes || i in b.ids
      ensures b.ids == [] || Room(|b.ids|, b.first, b.size) < b.length
    {
      FullRoom(nodes, b.ids, b.first, b.size);
      if p.Some? {
        GrowingUndone(b.m0, nodes, b.ids, rem);
        var _ := Free(p);
        GiveAndTake(b.e0, p.value);
      }
    }

    /**
     * pbuf_alloc(PBUF_POOL): a chain of pool elements, `first` payload bytes in the first one (after the header
     * space) and `size` in the others; when the pool runs dry everything is given back.
     */
    method AllocPool(length: u16, first: nat, size: nat)
      returns (p: Option<nat>, ghost ids: seq<nat>, ghost tried: seq<nat>)
      requires Valid() && 0 < first && 0 < size
      modifies this
      ensures Valid() && p == Head(ids)
      ensures p.None? ==> nodes == old(nodes) && ext == old(ext)
      ensures p.None? ==> forall i | 0 <= i < capacity :: i in nodes || i in tried
      ensures p.None? ==> tried == [] || Room(|tried|, first, size) < length
      ensures p.Some? ==> ext == old(ext) + multiset{p.value} && Growing(old(nodes), nodes, ids, 0)
      ensures p.Some? ==> TotExact(nodes, ids) && |FlatFrom(nodes, ids, 0)| == length
      ensures p.Some? ==> Portioned(nodes, ids, first, size, |ids| - 1)
    {
      p, ids, tried := None, [], [];
      var last, rem: u16, room := None, length, first;
      ghost var b := Building(nodes, ext, length, first, size, []);
      while p.None? || rem > 0
        invariant Valid() && b == Building(old(nodes), old(ext), length, first, size, ids)
        invariant b.Holds(nodes, ext, rem) && p == Head(ids)
        invariant last == if ids == [] then None else Some(ids[|ids| - 1])
        invariant room == if ids == [] then first else size
        decreases if p.None? then 1 else 0, rem
      {
        var q, k := TakeElement(p, last, rem, room, b);
        if q.None? {
          GiveUp(p, rem, b);
          return None, [], ids;
        }
        ids := ids + [q.value];
        b := b.(ids := ids);
        p := if p.None? then q else p;
        last, rem, room := q, rem - k, size;
      }
      GrownExact(old(nodes), nodes, ids);
    }

    lemma GiveBack(e: multiset<nat>, n: nat)
      requires n in e
      ensures e - multiset{n} + multiset{n} == e
    {
    }
  }

  /** A case in which pbuf_dechain returns a pointer to a released pbuf: n pbufs in a row, n = 257, 513, ... */
  method DechainRow(n: nat) returns (pool: Pool, tail: Option<nat>)
    requires n > 1 && (n - 1) % 0x100 == 0
    ensures fresh(pool) && pool.Valid() && tail == Some(1) && 1 !in pool.nodes
  {
    pool := new Pool(n);
    RowCounted(n);
    RowChain(n);
    pool.nodes := Row(n, n);
    pool.ext := multiset{0};
    tail := pool.Dechain(0, UpTo(n));
  }

  /** The target starts with the source bytes and is otherwise unchanged. */
  ghost predicate Copied(m: Store, tos: seq<nat>, froms: seq<nat>, n: Store) {
    && InStore(m, tos) && InStore(m, froms) && InStore(n, tos)
    && var f, t := FlatFrom(m, froms, 0), FlatFrom(m, tos, 0);
    |f| <= |t| && FlatFrom(n, tos, 0) == f + t[|f|..]
  }

  lemma Reorder(e: multiset<nat>, x: multiset<nat>, p: nat)
    requires p in e
    ensures e + x - multiset{p} == e - multiset{p} + x
  {
  }

  lemma SelfExchange(e: multiset<nat>, q: Option<nat>)
    requires q.Some? ==> q.value in e
    ensures e == e - Inherited(q) + Inherited(q)
  {
  }

  lemma Exchange(e: multiset<nat>, f: nat, p: Option<nat>)
    ensures e + multiset{f} - multiset{f} + Inherited(p) == e + Inherited(p)
  {
  }

  lemma Untouched(m: Store, n: Store, a: seq<nat>)
    requires Chain(m, a) && InStore(m, a) && TotExact(m, a) && forall x | x in a :: x in n && n[x] == m[x]
    ensures Chain(n, a) && InStore(n, a) && TotExact(n, a) && FlatFrom(n, a, 0) == FlatFrom(m, a, 0)
  {
    assert forall j | 0 <= j < |a| :: a[j] in a;
    assert InStore(n, a);
    ChainFrame(m, n, a);
    FlatFrame(m, n, a, 0);
    forall j | 0 <= j < |a|
      ensures TotAt(n, a, j)
    {
      assert TotAt(m, a, j);
      FlatFrame(m, n, a, j);
    }
  }

  /** A u16_t sum is below one of its terms exactly when it overflowed. */
  lemma OverflowTest(a: u16, b: u16)
    ensures (a + b) % 0x1_0000 >= a <==> a + b < 0x1_0000
    ensures a + b < 0x1_0000 ==> (a + b) % 0x1_0000 == a + b
  {
  }

  lemma BumpNothing(m: Store, ids: seq<nat>, d: int)
    ensures Bumped(m, ids[..0], d) == m
  {
  }
}
