/**
 * What mem_malloc and mem_trim do for a request of so many bytes, in terms of these bytes alone: which block is taken,
 * when they fail, and how much more than the request a block may hold.
 */
module MemSizes {
  import opened Common
  import opened MemModel
  import opened MemRuns

  lemma PayloadAligned(c: Config, bs: seq<Block>, i: nat)
    requires ValidConfig(c) && Tiled(c, bs) && i < |bs|
    ensures 0 <= Payload(c, bs, i) <= c.memSize && Aligned(c, Payload(c, bs, i))
  {
    OrderedAll(c, bs);
    var e := EndOf(c, bs, i);
    AlignedDifference(c, e, bs[i].start);
    AlignedDifference(c, e - bs[i].start, c.hdr);
  }

  /** A payload is large enough for the rounded size exactly if it is large enough for the bytes needed. */
  lemma Holds(c: Config, bs: seq<Block>, i: nat, want: u16)
    requires ValidConfig(c) && Tiled(c, bs) && i < |bs|
    ensures Need(c, want) <= Payload(c, bs, i) <==> !Refused(c, want) && Rounded(c, want) <= Payload(c, bs, i)
  {
    PayloadAligned(c, bs, i);
    RoundedSound(c, want);
  }

  // ---- mem_malloc ----

  /** Block i is free and holds the request. */
  predicate Suits(c: Config, bs: seq<Block>, i: nat, want: nat)
    requires i < |bs|
  {
    !bs[i].used && Need(c, want) <= Payload(c, bs, i)
  }

  /** mem_malloc fails exactly if no free block holds the request. */
  lemma MallocFailsIff(c: Config, bs: seq<Block>, want: u16)
    requires ValidConfig(c) && WellFormed(c, bs) && want > 0
    ensures MallocBlocks(c, bs, want).1 == None <==> forall i | 0 <= i < |bs| :: !Suits(c, bs, i, want)
  {
    var k := FirstFit(c, bs, Rounded(c, want), 0);
    forall i | 0 <= i < |bs|
      ensures Suits(c, bs, i, want) <==> !Refused(c, want) && Fits(c, bs, i, Rounded(c, want))
    {
      Holds(c, bs, i, want);
    }
    assert k < |bs| ==> Fits(c, bs, k, Rounded(c, want));
  }

  /** It takes the lowest free block that holds the request. */
  lemma MallocTakesFirst(c: Config, bs: seq<Block>, want: u16)
    requires ValidConfig(c) && WellFormed(c, bs) && MallocBlocks(c, bs, want).1.Some?
    ensures exists k ::
      && 0 <= k < |bs| && Suits(c, bs, k, want) && (forall i | 0 <= i < k :: !Suits(c, bs, i, want))
      && MallocBlocks(c, bs, want).1 == Some(bs[k].start + c.hdr)
  {
    var k := FirstFit(c, bs, Rounded(c, want), 0);
    forall i | 0 <= i < |bs|
      ensures Suits(c, bs, i, want) <==> Fits(c, bs, i, Rounded(c, want))
    {
      Holds(c, bs, i, want);
    }
    assert Suits(c, bs, k, want);
  }

  /**
   * What is handed out of a block of m bytes: all of it if another block would not fit behind the aligned request, else
   * less than an alignment more than was needed.
   */
  predicate Portion(c: Config, want: nat, m: int, n: int) {
    && Need(c, want) <= n <= m
    && (if n == m then m < Need(c, want) + c.align + c.hdr + c.minSize else n < Need(c, want) + c.align)
  }

  lemma MallocPortion(c: Config, bs: seq<Block>, want: u16, n: int)
    requires ValidConfig(c) && WellFormed(c, bs) && MallocBlocks(c, bs, want).1.Some?
    requires LiveWith(c, MallocBlocks(c, bs, want).0, MallocBlocks(c, bs, want).1.value, n)
    ensures exists k ::
      && 0 <= k < |bs| && bs[k].start + c.hdr == MallocBlocks(c, bs, want).1.value
      && Portion(c, want, Payload(c, bs, k), n)
  {
    var (ns, r) := MallocBlocks(c, bs, want);
    var k := FirstFit(c, bs, Rounded(c, want), 0);
    RoundedSound(c, want);
    MallocKeepsWellFormed(c, bs, want);
    TakenPayload(c, bs, k, Rounded(c, want));
    IndexOfStart(c, ns, k);
    LiveIsLiveWith(c, ns, r.value);
    assert bs[k].start + c.hdr == r.value && Portion(c, want, Payload(c, bs, k), n);
  }

  lemma TakenPayload(c: Config, bs: seq<Block>, k: nat, size: nat)
    requires k < |bs| && Fits(c, bs, k, size)
    ensures var ns, m := Take(c, bs, k, size), Payload(c, bs, k);
      && k < |ns| && ns[k] == Block(bs[k].start, true)
      && Payload(c, ns, k) == if m >= size + c.hdr + c.minSize then size else m
  {
  }

  // ---- mem_trim ----

  /** A live block can be trimmed exactly if it holds the new size; so to its own size always. */
  lemma TrimSucceedsIff(c: Config, bs: seq<Block>, p: int, want: u16, m: int)
    requires ValidConfig(c) && WellFormed(c, bs) && LiveWith(c, bs, p, m)
    ensures Trimmable(c, bs, p, want) <==> Need(c, want) <= m
    ensures want <= m ==> Trimmable(c, bs, p, want)
  {
    LiveIsLiveWith(c, bs, p);
    var k := IndexOf(bs, p - c.hdr);
    Holds(c, bs, k, want);
    var e := EndOf(c, bs, k);
  }

  /**
   * What is left of a trimmed block of m bytes: less than an alignment more than needed, except where the bytes cut off
   * lie in front of a used block and are too few for a block of their own.
   */
  lemma TrimPortion(c: Config, bs: seq<Block>, p: int, want: u16, m: int, n: int)
    requires ValidConfig(c) && WellFormed(c, bs) && LiveWith(c, bs, p, m) && Need(c, want) <= m
    requires LiveWith(c, TrimBlocks(c, bs, p, want), p, n)
    ensures Portion(c, want, m, n)
    ensures FreeBehind(c, bs, p) ==> n < Need(c, want) + c.align
  {
    TrimSucceedsIff(c, bs, p, want, m);
    LiveIsLiveWith(c, bs, p);
    var k, size := IndexOf(bs, p - c.hdr), Rounded(c, want);
    var ns := TrimBlocks(c, bs, p, want);
    RoundedSound(c, want);
    TrimKeepsWellFormed(c, bs, p, want);
    ShrunkPayload(c, bs, k, size);
    IndexOfStart(c, ns, k);
    LiveIsLiveWith(c, ns, p);
  }

  /** The block behind that of p is free. */
  predicate FreeBehind(c: Config, bs: seq<Block>, p: int) {
    var k := IndexOf(bs, p - c.hdr);
    k + 1 < |bs| && !bs[k + 1].used
  }

  lemma ShrunkPayload(c: Config, bs: seq<Block>, k: nat, size: nat)
    requires k < |bs| && bs[k].used && size <= Payload(c, bs, k)
    ensures var ns, m := Shrink(c, bs, k, size), Payload(c, bs, k);
      && k < |ns| && ns[k] == bs[k]
      && Payload(c, ns, k) ==
        if (k + 1 < |bs| && !bs[k + 1].used) || m >= size + c.hdr + c.minSize then size else m
  {
  }

  // ---- the statistics ----

  /** Bytes (headers included) of the free blocks from index i on. */
  function FreeFrom(c: Config, bs: seq<Block>, i: nat): int
    requires i <= |bs|
    decreases |bs| - i
  {
    if i == |bs| then 0
    else (if bs[i].used then 0 else EndOf(c, bs, i) - bs[i].start) + FreeFrom(c, bs, i + 1)
  }

  /** The used statistic and the free bytes always add up to the heap. */
  lemma UsedAndFree(c: Config, bs: seq<Block>)
    requires 0 < c.align && Tiled(c, bs)
    ensures UsedBytes(c, bs) + FreeFrom(c, bs, 0) == c.memSize
  {
    UsedAndFreeFrom(c, bs, 0);
  }

  lemma {:induction false} UsedAndFreeFrom(c: Config, bs: seq<Block>, i: nat)
    requires 0 < c.align && Tiled(c, bs) && i < |bs|
    ensures UsedFrom(c, bs, i) + FreeFrom(c, bs, i) == c.memSize - bs[i].start
    decreases |bs| - i
  {
    if i + 1 < |bs| {
      UsedAndFreeFrom(c, bs, i + 1);
    } else {
      assert UsedFrom(c, bs, i + 1) == 0 && FreeFrom(c, bs, i + 1) == 0;
    }
  }
}
