/**
 * The block list of the lwIP heap (core/mem.c) as a value, with the effect of mem_malloc,
 * mem_free and mem_trim on it.  MemHeap proves the in-place code against these functions.
 */
module MemModel {
  import opened Common

  /** MEM_ALIGNMENT, MEM_SIZE_ALIGNED, MIN_SIZE_ALIGNED and SIZEOF_STRUCT_MEM. */
  datatype Config = Config(align: nat, memSize: nat, minSize: nat, hdr: nat)

  predicate ValidConfig(c: Config) {
    && 0 < c.align
    && Aligned(c, c.memSize) && Aligned(c, c.minSize) && Aligned(c, c.hdr)
    && 6 <= c.hdr && 0 < c.minSize
    && c.hdr + c.minSize <= c.memSize
    && c.memSize + c.align <= 0x1_0000
  }

  /** x is a multiple of MEM_ALIGNMENT (see AlignedIsRemainderZero). */
  predicate Aligned(c: Config, x: nat)
    requires 0 < c.align
    decreases x
  {
    x == 0 || (c.align <= x && Aligned(c, x - c.align))
  }

  lemma {:induction false} AlignedIsRemainderZero(c: Config, x: nat)
    requires 0 < c.align
    ensures Aligned(c, x) <==> x % c.align == 0
    decreases x
  {
    if x < c.align {
      SmallRemainder(x, c.align);
    } else {
      AlignedIsRemainderZero(c, x - c.align);
      RemainderStep(x, c.align);
    }
  }

  lemma SmallRemainder(x: nat, a: nat)
    requires x < a
    ensures x % a == x
  {
  }

  lemma RemainderStep(x: nat, a: nat)
    requires 0 < a <= x
    ensures x % a == (x - a) % a
  {
    var q, r := (x - a) / a, (x - a) % a;
    assert x == (q + 1) * a + r;
    UniqueRemainder(x, a, q + 1, r);
  }

  lemma UniqueRemainder(x: int, a: int, q: int, r: int)
    requires 0 < a && x == q * a + r && 0 <= r < a
    ensures x % a == r && x / a == q
  {
    var d := q - x / a;
    assert d * a == x % a - r;
    SmallMultiple(d, a);
  }

  lemma SmallMultiple(d: int, a: int)
    requires -a < d * a < a
    ensures d == 0
  {
  }

  lemma {:induction false} AlignedSum(c: Config, x: nat, y: nat)
    requires 0 < c.align && Aligned(c, x) && Aligned(c, y)
    ensures Aligned(c, x + y)
    decreases x
  {
    if x != 0 {
      AlignedSum(c, x - c.align, y);
      assert x - c.align + y == x + y - c.align;
    }
  }

  lemma {:induction false} AlignedDifference(c: Config, x: nat, y: nat)
    requires 0 < c.align && Aligned(c, x) && Aligned(c, y) && y <= x
    ensures Aligned(c, x - y)
    decreases y
  {
    if y != 0 {
      AlignedDifference(c, x - c.align, y - c.align);
    }
  }

  /** A heap element: the offset of its struct mem and its used flag. */
  datatype Block = Block(start: nat, used: bool)

  /** The `next` offset of block i: the start of the following struct mem or the end of the heap. */
  function EndOf(c: Config, bs: seq<Block>, i: nat): nat
    requires i < |bs|
  {
    if i + 1 < |bs| then bs[i + 1].start else c.memSize
  }

  function PrevOf(bs: seq<Block>, i: nat): nat
    requires i < |bs|
  {
    if i == 0 then 0 else bs[i - 1].start
  }

  /** The user data size of block i. */
  function Payload(c: Config, bs: seq<Block>, i: nat): int
    requires i < |bs|
  {
    EndOf(c, bs, i) - bs[i].start - c.hdr
  }

  /** The blocks tile 0..memSize at aligned offsets and every payload has at least the minimum size. */
  ghost predicate Tiled(c: Config, bs: seq<Block>)
    requires 0 < c.align
  {
    && 0 < |bs| && bs[0].start == 0
    && (forall i | 0 <= i < |bs| :: Aligned(c, bs[i].start))
    && (forall i {:trigger EndOf(c, bs, i)} | 0 <= i < |bs| :: bs[i].start + c.hdr + c.minSize <= EndOf(c, bs, i))
  }

  predicate Separated(bs: seq<Block>, i: nat)
    requires 0 < i < |bs|
  {
    bs[i - 1].used || bs[i].used
  }

  ghost predicate NoTwoFree(bs: seq<Block>) {
    forall i | 0 < i < |bs| :: Separated(bs, i)
  }

  ghost predicate WellFormed(c: Config, bs: seq<Block>)
    requires 0 < c.align
  {
    Tiled(c, bs) && NoTwoFree(bs)
  }

  lemma {:induction false} Ordered(c: Config, bs: seq<Block>, i: nat, j: nat)
    requires 0 < c.align && Tiled(c, bs) && i < j < |bs|
    ensures EndOf(c, bs, i) <= bs[j].start
    decreases j
  {
    if i + 1 < j {
      Ordered(c, bs, i, j - 1);
      assert bs[j - 1].start + c.hdr + c.minSize <= EndOf(c, bs, j - 1);
    }
  }

  /** All order facts at once. */
  lemma OrderedAll(c: Config, bs: seq<Block>)
    requires 0 < c.align && Tiled(c, bs)
    ensures forall i, j {:trigger EndOf(c, bs, i), bs[j]} | 0 <= i < j < |bs| :: EndOf(c, bs, i) <= bs[j].start
    ensures forall i {:trigger EndOf(c, bs, i)} | 0 <= i < |bs| ::
      bs[i].start + c.hdr + c.minSize <= EndOf(c, bs, i) <= c.memSize
  {
    forall i, j | 0 <= i < j < |bs|
      ensures EndOf(c, bs, i) <= bs[j].start
    {
      Ordered(c, bs, i, j);
    }
    forall i | 0 <= i < |bs|
      ensures EndOf(c, bs, i) <= c.memSize
    {
      if i + 1 < |bs| {
        Ordered(c, bs, i, |bs| - 1);
        assert bs[|bs| - 1].start + c.hdr + c.minSize <= EndOf(c, bs, |bs| - 1);
      }
    }
  }

  // ---- searching ----

  /** Index of the first free block at or after i, or |bs|. */
  function FirstFree(bs: seq<Block>, i: nat): (r: nat)
    requires i <= |bs|
    ensures i <= r <= |bs|
    ensures forall j | i <= j < r :: bs[j].used
    ensures r < |bs| ==> !bs[r].used
    decreases |bs| - i
  {
    if i == |bs| || !bs[i].used then i else FirstFree(bs, i + 1)
  }

  /** The offset that lfree stands for: the lowest free struct mem, or ram_end. */
  function LowestFree(c: Config, bs: seq<Block>): nat {
    var r := FirstFree(bs, 0);
    if r < |bs| then bs[r].start else c.memSize
  }

  predicate Fits(c: Config, bs: seq<Block>, i: nat, size: nat)
    requires i < |bs|
  {
    !bs[i].used && size <= Payload(c, bs, i)
  }

  /** Index of the lowest-addressed free block with room for size bytes, or |bs|. */
  function FirstFit(c: Config, bs: seq<Block>, size: nat, i: nat): (r: nat)
    requires i <= |bs|
    ensures i <= r <= |bs|
    ensures forall j | i <= j < r :: !Fits(c, bs, j, size)
    ensures r < |bs| ==> Fits(c, bs, r, size)
    decreases |bs| - i
  {
    if i == |bs| || Fits(c, bs, i, size) then i else FirstFit(c, bs, size, i + 1)
  }

  lemma FirstFitIs(c: Config, bs: seq<Block>, size: nat, k: nat)
    requires k <= |bs|
    requires forall j | 0 <= j < k :: !Fits(c, bs, j, size)
    requires k < |bs| ==> Fits(c, bs, k, size)
    ensures FirstFit(c, bs, size, 0) == k
  {
    var r := FirstFit(c, bs, size, 0);
    assert k < |bs| ==> Fits(c, bs, k, size);
  }

  // ---- the sizes asked for ----

  /** LWIP_MEM_ALIGN_SIZE before the cast to mem_size_t (see AlignUpIsRounding). */
  function AlignUp(c: Config, x: nat): nat
    requires 0 < c.align
    decreases x
  {
    if x == 0 then 0 else if x <= c.align then c.align else c.align + AlignUp(c, x - c.align)
  }

  lemma {:induction false} AlignUpIsRounding(c: Config, x: nat)
    requires 0 < c.align
    ensures AlignUp(c, x) == (x + c.align - 1) / c.align * c.align
    decreases x
  {
    var a := c.align;
    if x == 0 {
      UniqueRemainder(a - 1, a, 0, a - 1);
    } else if x <= a {
      UniqueRemainder(x + a - 1, a, 1, x - 1);
    } else {
      AlignUpIsRounding(c, x - a);
      var q, r := (x - 1) / a, (x - 1) % a;
      assert x + a - 1 == (q + 1) * a + r;
      UniqueRemainder(x + a - 1, a, q + 1, r);
    }
  }

  /**
   * The block payload mem_malloc and mem_trim aim at for a u16 request: rounded up in u16, then raised to the
   * minimum.
   */
  function Rounded(c: Config, want: u16): nat
    requires 0 < c.align
  {
    var s := AlignUp(c, want) % 0x1_0000;
    if s < c.minSize then c.minSize else s
  }

  predicate Refused(c: Config, want: u16)
    requires 0 < c.align
  {
    Rounded(c, want) > c.memSize || Rounded(c, want) < want
  }

  lemma {:induction false} AlignUpBounds(c: Config, x: nat)
    requires 0 < c.align
    ensures x <= AlignUp(c, x) < x + c.align && Aligned(c, AlignUp(c, x))
    decreases x
  {
    if x > c.align {
      AlignUpBounds(c, x - c.align);
      AlignedSum(c, c.align, AlignUp(c, x - c.align));
    }
  }

  /** The bytes a block for this request must hold. */
  function Need(c: Config, want: nat): nat { if want < c.minSize then c.minSize else want }

  /** No aligned size that holds x is smaller than the round-up. */
  lemma {:induction false} AlignUpLeast(c: Config, x: nat, n: nat)
    requires 0 < c.align && Aligned(c, n) && x <= n
    ensures AlignUp(c, x) <= n
    decreases x
  {
    if x > c.align {
      AlignUpLeast(c, x - c.align, n - c.align);
    }
  }

  /**
   * A request is refused exactly when it exceeds the heap: the u16 wrap never lets a large one through as a small one.
   * An accepted one is rounded to the least aligned size that holds it and the minimum.
   */
  lemma RoundedSound(c: Config, want: u16)
    requires ValidConfig(c)
    ensures Refused(c, want) <==> want > c.memSize
    ensures !Refused(c, want) ==>
      && want <= Rounded(c, want) <= c.memSize && c.minSize <= Rounded(c, want)
      && Aligned(c, Rounded(c, want)) && Rounded(c, want) < Need(c, want) + c.align
    ensures !Refused(c, want) ==> forall n: nat | Aligned(c, n) && Need(c, want) <= n :: Rounded(c, want) <= n
  {
    AlignUpBounds(c, want);
    if want <= c.memSize {
      AlignUpLeast(c, want, c.memSize);
      RoundedLeast(c, want);
    }
  }

  lemma RoundedLeast(c: Config, want: u16)
    requires ValidConfig(c) && AlignUp(c, want) <= c.memSize
    ensures forall n: nat | Aligned(c, n) && Need(c, want) <= n :: Rounded(c, want) <= n
  {
    forall n: nat | Aligned(c, n) && Need(c, want) <= n
      ensures Rounded(c, want) <= n
    {
      AlignUpLeast(c, want, n);
    }
  }

  // ---- the three operations on the block list ----

  function Without(bs: seq<Block>, j: nat): seq<Block>
    requires j < |bs|
  {
    bs[..j] + bs[j + 1..]
  }

  /** Insert a free block at offset `at` right after block k. */
  function Insert(bs: seq<Block>, k: nat, at: nat): seq<Block>
    requires k < |bs|
  {
    bs[..k + 1] + [Block(at, false)] + bs[k + 1..]
  }

  function SetUsed(bs: seq<Block>, k: nat, used: bool): seq<Block>
    requires k < |bs|
  {
    bs[k := Block(bs[k].start, used)]
  }

  /** mem_malloc on the block it chose: split off the remainder when another minimal block fits in it. */
  function Take(c: Config, bs: seq<Block>, k: nat, size: nat): seq<Block>
    requires k < |bs|
  {
    if Payload(c, bs, k) >= size + c.hdr + c.minSize
    then Insert(SetUsed(bs, k, true), k, bs[k].start + c.hdr + size)
    else SetUsed(bs, k, true)
  }

  /** plug_holes around block k. */
  function Plug(bs: seq<Block>, k: nat): seq<Block>
    requires k < |bs|
  {
    var fwd := if k + 1 < |bs| && !bs[k + 1].used then Without(bs, k + 1) else bs;
    if 0 < k && !fwd[k - 1].used then Without(fwd, k) else fwd
  }

  function Release(bs: seq<Block>, k: nat): seq<Block>
    requires k < |bs|
  {
    Plug(SetUsed(bs, k, false), k)
  }

  function Shrink(c: Config, bs: seq<Block>, k: nat, size: nat): seq<Block>
    requires k < |bs|
  {
    if size == Payload(c, bs, k) then bs
    else if k + 1 < |bs| && !bs[k + 1].used then bs[k + 1 := Block(bs[k].start + c.hdr + size, false)]
    else if size + c.hdr + c.minSize <= Payload(c, bs, k) then Insert(bs, k, bs[k].start + c.hdr + size)
    else bs
  }

  // ---- well-formedness is kept ----

  lemma SetUsedTiled(c: Config, bs: seq<Block>, k: nat, used: bool)
    requires 0 < c.align && Tiled(c, bs) && k < |bs|
    ensures Tiled(c, SetUsed(bs, k, used))
    ensures forall i {:trigger EndOf(c, SetUsed(bs, k, used), i)} | 0 <= i < |bs| ::
      EndOf(c, SetUsed(bs, k, used), i) == EndOf(c, bs, i)
  {
    assert forall i {:trigger EndOf(c, SetUsed(bs, k, used), i)} | 0 <= i < |bs| ::
      EndOf(c, SetUsed(bs, k, used), i) == EndOf(c, bs, i);
  }

  lemma SetUsedTrueWellFormed(c: Config, bs: seq<Block>, k: nat)
    requires 0 < c.align && WellFormed(c, bs) && k < |bs|
    ensures WellFormed(c, SetUsed(bs, k, true))
  {
    SetUsedTiled(c, bs, k, true);
    forall i | 0 < i < |bs|
      ensures Separated(SetUsed(bs, k, true), i)
    {
      assert Separated(bs, i);
    }
  }

  lemma InsertTiled(c: Config, bs: seq<Block>, k: nat, at: nat)
    requires 0 < c.align && Tiled(c, bs) && k < |bs| && Aligned(c, at)
    requires bs[k].start + c.hdr + c.minSize <= at && at + c.hdr + c.minSize <= EndOf(c, bs, k)
    ensures Tiled(c, Insert(bs, k, at))
    ensures EndOf(c, Insert(bs, k, at), k) == at && EndOf(c, Insert(bs, k, at), k + 1) == EndOf(c, bs, k)
  {
    var n := Insert(bs, k, at);
    forall i | 0 <= i < |n|
      ensures Aligned(c, n[i].start) && n[i].start + c.hdr + c.minSize <= EndOf(c, n, i)
    {
      if i > k + 1 {
        assert n[i] == bs[i - 1] && EndOf(c, n, i) == EndOf(c, bs, i - 1);
      } else if i < k {
        assert n[i] == bs[i] && EndOf(c, n, i) == EndOf(c, bs, i);
      }
    }
  }

  lemma WithoutTiled(c: Config, bs: seq<Block>, j: nat)
    requires 0 < c.align && Tiled(c, bs) && 0 < j < |bs|
    ensures Tiled(c, Without(bs, j))
    ensures EndOf(c, Without(bs, j), j - 1) == EndOf(c, bs, j)
  {
    var n := Without(bs, j);
    forall i | 0 <= i < |n|
      ensures Aligned(c, n[i].start) && n[i].start + c.hdr + c.minSize <= EndOf(c, n, i)
    {
      if i >= j {
        assert n[i] == bs[i + 1] && EndOf(c, n, i) == EndOf(c, bs, i + 1);
      } else if i == j - 1 {
        assert EndOf(c, n, i) == EndOf(c, bs, j);
        assert EndOf(c, bs, i) == bs[j].start;
      } else {
        assert n[i] == bs[i] && EndOf(c, n, i) == EndOf(c, bs, i);
      }
    }
  }

  lemma InsertWellFormed(c: Config, bs: seq<Block>, k: nat, at: nat)
    requires 0 < c.align && WellFormed(c, bs) && k < |bs| && Aligned(c, at)
    requires bs[k].used && (k + 1 < |bs| ==> bs[k + 1].used)
    requires bs[k].start + c.hdr + c.minSize <= at && at + c.hdr + c.minSize <= EndOf(c, bs, k)
    ensures WellFormed(c, Insert(bs, k, at))
  {
    InsertTiled(c, bs, k, at);
    var n := Insert(bs, k, at);
    forall i | 0 < i < |n|
      ensures Separated(n, i)
    {
      if i > k + 2 {
        assert n[i] == bs[i - 1] && n[i - 1] == bs[i - 2] && Separated(bs, i - 1);
      } else if i <= k {
        assert Separated(bs, i);
      }
    }
  }

  lemma AlignedAfter(c: Config, bs: seq<Block>, k: nat, size: nat)
    requires ValidConfig(c) && Tiled(c, bs) && k < |bs| && Aligned(c, size)
    ensures Aligned(c, bs[k].start + c.hdr) && Aligned(c, bs[k].start + c.hdr + size)
  {
    AlignedSum(c, bs[k].start, c.hdr);
    AlignedSum(c, bs[k].start + c.hdr, size);
  }

  lemma TakeWellFormed(c: Config, bs: seq<Block>, k: nat, size: nat)
    requires ValidConfig(c) && WellFormed(c, bs) && k < |bs| && Fits(c, bs, k, size)
    requires Aligned(c, size) && c.minSize <= size
    ensures WellFormed(c, Take(c, bs, k, size))
  {
    var at := bs[k].start + c.hdr + size;
    SetUsedTrueWellFormed(c, bs, k);
    TakeIs(c, bs, k, size, at);
    if at + c.hdr + c.minSize <= EndOf(c, bs, k) {
      AlignedAfter(c, bs, k, size);
      assert k + 1 < |bs| ==> Separated(bs, k + 1);
      SplitTakenWellFormed(c, bs, k, at);
    }
  }

  lemma TakeIs(c: Config, bs: seq<Block>, k: nat, size: nat, at: nat)
    requires k < |bs| && at == bs[k].start + c.hdr + size
    ensures Take(c, bs, k, size) ==
      if at + c.hdr + c.minSize <= EndOf(c, bs, k) then Insert(SetUsed(bs, k, true), k, at) else SetUsed(bs, k, true)
  {
  }

  lemma SplitTakenWellFormed(c: Config, bs: seq<Block>, k: nat, at: nat)
    requires 0 < c.align && k < |bs| && WellFormed(c, SetUsed(bs, k, true)) && Aligned(c, at)
    requires k + 1 < |bs| ==> bs[k + 1].used
    requires bs[k].start + c.hdr + c.minSize <= at && at + c.hdr + c.minSize <= EndOf(c, bs, k)
    ensures WellFormed(c, Insert(SetUsed(bs, k, true), k, at))
  {
    var n := SetUsed(bs, k, true);
    assert EndOf(c, n, k) == EndOf(c, bs, k);
    InsertWellFormed(c, n, k, at);
  }

  /** Dropping block j keeps every separation at an index other than x. */
  lemma WithoutSeparated(bs: seq<Block>, j: nat, x: nat)
    requires 0 < j < |bs| && x < j
    requires forall i | 0 < i < |bs| && i != x && i != j && i != j + 1 :: Separated(bs, i)
    requires j + 1 < |bs| ==> bs[j + 1].used
    ensures forall i | 0 < i < |bs| - 1 && i != x :: Separated(Without(bs, j), i)
  {
    var n := Without(bs, j);
    forall i | 0 < i < |n| && i != x
      ensures Separated(n, i)
    {
      if i > j {
        assert n[i - 1] == bs[i] && n[i] == bs[i + 1] && Separated(bs, i + 1);
      } else if i < j {
        assert n[i - 1] == bs[i - 1] && n[i] == bs[i] && Separated(bs, i);
      } else {
        assert n[i] == bs[i + 1];
      }
    }
  }

  /** Before plug_holes: the freed block k may have free neighbours, nothing else is out of order. */
  ghost predicate Pluggable(c: Config, bs: seq<Block>, k: nat)
    requires 0 < c.align
  {
    && k < |bs| && Tiled(c, bs) && !bs[k].used
    && (forall i | 0 < i < |bs| && i != k && i != k + 1 :: Separated(bs, i))
  }

  lemma PlugForward(c: Config, bs: seq<Block>, k: nat)
    requires 0 < c.align && Pluggable(c, bs, k) && k + 1 < |bs| && !bs[k + 1].used
    requires k + 2 < |bs| ==> bs[k + 2].used
    ensures Pluggable(c, Without(bs, k + 1), k)
    ensures k + 1 < |bs| - 1 ==> Without(bs, k + 1)[k + 1].used
  {
    WithoutTiled(c, bs, k + 1);
    WithoutSeparated(bs, k + 1, k);
  }

  lemma PlugBackward(c: Config, bs: seq<Block>, k: nat)
    requires 0 < c.align && Pluggable(c, bs, k) && 0 < k && !bs[k - 1].used
    requires k + 1 < |bs| ==> bs[k + 1].used
    ensures WellFormed(c, Without(bs, k))
  {
    WithoutTiled(c, bs, k);
    WithoutSeparated(bs, k, 0);
  }

  lemma PluggedWellFormed(c: Config, bs: seq<Block>, k: nat)
    requires 0 < c.align && Pluggable(c, bs, k)
    requires k + 1 < |bs| ==> bs[k + 1].used
    requires 0 < k ==> bs[k - 1].used
    ensures WellFormed(c, bs)
  {
    assert k + 1 < |bs| ==> Separated(bs, k + 1);
    assert 0 < k ==> Separated(bs, k);
  }

  lemma FreedPluggable(c: Config, bs: seq<Block>, k: nat)
    requires 0 < c.align && WellFormed(c, bs) && k < |bs| && bs[k].used
    ensures Pluggable(c, SetUsed(bs, k, false), k)
    ensures k + 2 < |bs| && !bs[k + 1].used ==> bs[k + 2].used
  {
    SetUsedTiled(c, bs, k, false);
    assert k + 2 < |bs| ==> Separated(bs, k + 2);
    forall i | 0 < i < |bs| && i != k && i != k + 1
      ensures Separated(SetUsed(bs, k, false), i)
    {
      assert Separated(bs, i);
    }
  }

  lemma ReleaseWellFormed(c: Config, bs: seq<Block>, k: nat)
    requires 0 < c.align && WellFormed(c, bs) && k < |bs| && bs[k].used
    ensures WellFormed(c, Release(bs, k))
  {
    var a := SetUsed(bs, k, false);
    FreedPluggable(c, bs, k);
    var f := if k + 1 < |a| && !a[k + 1].used then Without(a, k + 1) else a;
    if k + 1 < |a| && !a[k + 1].used {
      PlugForward(c, a, k);
    }
    if 0 < k && !f[k - 1].used {
      PlugBackward(c, f, k);
      assert Release(bs, k) == Without(f, k);
    } else {
      PluggedWellFormed(c, f, k);
      assert Release(bs, k) == f;
    }
  }

  lemma MoveWellFormed(c: Config, bs: seq<Block>, k: nat, at: nat)
    requires 0 < c.align && WellFormed(c, bs) && k + 1 < |bs| && Aligned(c, at) && !bs[k + 1].used
    requires bs[k].start + c.hdr + c.minSize <= at <= bs[k + 1].start
    ensures WellFormed(c, bs[k + 1 := Block(at, false)])
  {
    var n := bs[k + 1 := Block(at, false)];
    forall i {:trigger EndOf(c, n, i)} | 0 <= i < |n|
      ensures n[i].start + c.hdr + c.minSize <= EndOf(c, n, i)
    {
      assert i != k ==> EndOf(c, n, i) == EndOf(c, bs, i);
    }
    forall i | 0 < i < |n|
      ensures Separated(n, i)
    {
      assert Separated(bs, i);
    }
  }

  lemma ShrinkWellFormed(c: Config, bs: seq<Block>, k: nat, size: nat)
    requires ValidConfig(c) && WellFormed(c, bs) && k < |bs| && bs[k].used
    requires Aligned(c, size) && c.minSize <= size <= Payload(c, bs, k)
    ensures WellFormed(c, Shrink(c, bs, k, size))
  {
    if size != Payload(c, bs, k) {
      var at := bs[k].start + c.hdr + size;
      AlignedAfter(c, bs, k, size);
      CutWellFormed(c, bs, k, at);
      ShrinkIs(c, bs, k, size, at);
    }
  }

  /** The two ways mem_trim can give back the end of block k, by the offset where it is cut. */
  lemma ShrinkIs(c: Config, bs: seq<Block>, k: nat, size: nat, at: nat)
    requires k < |bs| && size != Payload(c, bs, k) && at == bs[k].start + c.hdr + size
    ensures Shrink(c, bs, k, size) ==
      if k + 1 < |bs| && !bs[k + 1].used then bs[k + 1 := Block(at, false)]
      else if at + c.hdr + c.minSize <= EndOf(c, bs, k) then Insert(bs, k, at)
      else bs
  {
  }

  /** Ending block k at offset `at`, if there is somewhere for the rest to go. */
  lemma CutWellFormed(c: Config, bs: seq<Block>, k: nat, at: nat)
    requires ValidConfig(c) && WellFormed(c, bs) && k < |bs| && bs[k].used && Aligned(c, at)
    requires bs[k].start + c.hdr + c.minSize <= at < EndOf(c, bs, k)
    ensures k + 1 < |bs| && !bs[k + 1].used ==> WellFormed(c, bs[k + 1 := Block(at, false)])
    ensures (k + 1 < |bs| ==> bs[k + 1].used) && at + c.hdr + c.minSize <= EndOf(c, bs, k) ==>
      WellFormed(c, Insert(bs, k, at))
  {
    if k + 1 < |bs| && !bs[k + 1].used {
      MoveWellFormed(c, bs, k, at);
    } else if at + c.hdr + c.minSize <= EndOf(c, bs, k) {
      InsertWellFormed(c, bs, k, at);
    }
  }

  // ---- naming blocks by offset ----

  /** Index of the block whose struct mem is at offset p, or |bs|. */
  function IndexOf(bs: seq<Block>, p: int): (r: nat)
    ensures r <= |bs| && (r < |bs| ==> bs[r].start == p)
    ensures r == |bs| ==> forall i | 0 <= i < |bs| :: bs[i].start != p
  {
    if bs == [] then 0 else if bs[0].start == p then 0 else 1 + IndexOf(bs[1..], p)
  }

  lemma IndexOfStart(c: Config, bs: seq<Block>, k: nat)
    requires ValidConfig(c) && Tiled(c, bs) && k < |bs|
    ensures IndexOf(bs, bs[k].start) == k
  {
    var r := IndexOf(bs, bs[k].start);
    OrderedAll(c, bs);
    var e, f := EndOf(c, bs, r), EndOf(c, bs, k);
  }

  /** p is the data pointer (offset) of a block that is in use. */
  predicate Live(c: Config, bs: seq<Block>, p: int) {
    var k := IndexOf(bs, p - c.hdr);
    k < |bs| && bs[k].used
  }

  /** mem_malloc for a request: the new list and the data pointer handed out. */
  function MallocBlocks(c: Config, bs: seq<Block>, want: u16): (seq<Block>, Option<nat>)
    requires 0 < c.align
  {
    var k := FirstFit(c, bs, Rounded(c, want), 0);
    if want == 0 || Refused(c, want) || k == |bs| then (bs, None)
    else (Take(c, bs, k, Rounded(c, want)), Some(bs[k].start + c.hdr))
  }

  function FreeBlocks(c: Config, bs: seq<Block>, p: int): seq<Block> {
    if Live(c, bs, p) then Release(bs, IndexOf(bs, p - c.hdr)) else bs
  }

  /** mem_trim shrinks a live block unless the new size is refused or larger than the block. */
  predicate Trimmable(c: Config, bs: seq<Block>, p: int, want: u16)
    requires 0 < c.align
  {
    Live(c, bs, p) && !Refused(c, want) && Rounded(c, want) <= Payload(c, bs, IndexOf(bs, p - c.hdr))
  }

  function TrimBlocks(c: Config, bs: seq<Block>, p: int, want: u16): seq<Block>
    requires 0 < c.align
  {
    if Trimmable(c, bs, p, want) then Shrink(c, bs, IndexOf(bs, p - c.hdr), Rounded(c, want)) else bs
  }

  /**
   * mem_trim reaches the branch that splits off a block, where it asserts that mem->next is not the end of the
   * heap.
   */
  predicate SplitsOnTrim(c: Config, bs: seq<Block>, p: int, want: u16)
    requires 0 < c.align
  {
    var k := IndexOf(bs, p - c.hdr);
    && Trimmable(c, bs, p, want) && Rounded(c, want) != Payload(c, bs, k)
    && (k + 1 < |bs| ==> bs[k + 1].used) && Rounded(c, want) + c.hdr + c.minSize <= Payload(c, bs, k)
  }

  predicate TrimAssertionFails(c: Config, bs: seq<Block>, p: int, want: u16)
    requires 0 < c.align
  {
    SplitsOnTrim(c, bs, p, want) && EndOf(c, bs, IndexOf(bs, p - c.hdr)) == c.memSize
  }

  lemma MallocKeepsWellFormed(c: Config, bs: seq<Block>, want: u16)
    requires ValidConfig(c) && WellFormed(c, bs)
    ensures WellFormed(c, MallocBlocks(c, bs, want).0)
  {
    RoundedSound(c, want);
    var k := FirstFit(c, bs, Rounded(c, want), 0);
    if want != 0 && !Refused(c, want) && k < |bs| {
      TakeWellFormed(c, bs, k, Rounded(c, want));
    }
  }

  lemma FreeKeepsWellFormed(c: Config, bs: seq<Block>, p: int)
    requires ValidConfig(c) && WellFormed(c, bs)
    ensures WellFormed(c, FreeBlocks(c, bs, p))
  {
    if Live(c, bs, p) {
      ReleaseWellFormed(c, bs, IndexOf(bs, p - c.hdr));
    }
  }

  lemma TrimKeepsWellFormed(c: Config, bs: seq<Block>, p: int, want: u16)
    requires ValidConfig(c) && WellFormed(c, bs)
    ensures WellFormed(c, TrimBlocks(c, bs, p, want))
  {
    RoundedSound(c, want);
    if Trimmable(c, bs, p, want) {
      ShrinkWellFormed(c, bs, IndexOf(bs, p - c.hdr), Rounded(c, want));
    }
  }

  // ---- the lowest-free pointer ----

  ghost predicate AtOrBelowFree(bs: seq<Block>, l: nat) {
    forall i | 0 <= i < |bs| && !bs[i].used :: l <= bs[i].start
  }

  /** lfree is a struct mem of the list (or ram_end) at or below every free block. */
  ghost predicate LfreeBelow(c: Config, bs: seq<Block>, l: nat) {
    AtOrBelowFree(bs, l) && (l == c.memSize || exists i :: 0 <= i < |bs| && bs[i].start == l)
  }

  /** lfree is the lowest free block, or ram_end when nothing is free. */
  ghost predicate LfreeExact(c: Config, bs: seq<Block>, l: nat) {
    AtOrBelowFree(bs, l) && (l == c.memSize || exists i :: 0 <= i < |bs| && bs[i].start == l && !bs[i].used)
  }

  lemma ExactIsLowest(c: Config, bs: seq<Block>, l: nat)
    requires ValidConfig(c) && Tiled(c, bs) && LfreeExact(c, bs, l)
    ensures l == LowestFree(c, bs)
  {
    OrderedAll(c, bs);
    var r := FirstFree(bs, 0);
    if r < |bs| {
      assert bs[r].start < EndOf(c, bs, r) <= c.memSize;
      var i :| 0 <= i < |bs| && bs[i].start == l && !bs[i].used;
    }
  }

  /** Marking block k free and lowering lfree to it if it lies below. */
  lemma FreedLfree(c: Config, bs: seq<Block>, k: nat, l: nat)
    requires ValidConfig(c) && Tiled(c, bs) && k < |bs| && LfreeBelow(c, bs, l)
    ensures var n, m := SetUsed(bs, k, false), if bs[k].start < l then bs[k].start else l;
      && LfreeBelow(c, n, m) && (m == l || LfreeExact(c, n, m))
      && (LfreeExact(c, bs, l) ==> LfreeExact(c, n, m))
  {
    var n := SetUsed(bs, k, false);
    assert n[k].start == bs[k].start;
    assert forall i | 0 <= i < |bs| :: n[i].start == bs[i].start;
  }

  /** Merging two free neighbours never moves lfree, so both lfree tests of plug_holes are redundant. */
  lemma MergedLfree(c: Config, bs: seq<Block>, j: nat, l: nat)
    requires ValidConfig(c) && Tiled(c, bs) && 0 < j < |bs| && !bs[j - 1].used && !bs[j].used
    requires LfreeBelow(c, bs, l)
    ensures l != bs[j].start && LfreeBelow(c, Without(bs, j), l)
    ensures LfreeExact(c, bs, l) ==> LfreeExact(c, Without(bs, j), l)
  {
    var n := Without(bs, j);
    Ordered(c, bs, j - 1, j);
    assert bs[j - 1].start + c.hdr + c.minSize <= EndOf(c, bs, j - 1);
    forall i | 0 <= i < |n| && !n[i].used
      ensures l <= n[i].start
    {
      assert n[i] == bs[if i < j then i else i + 1];
    }
    if l != c.memSize {
      var i :| 0 <= i < |bs| && bs[i].start == l && (LfreeExact(c, bs, l) ==> !bs[i].used);
      assert n[if i < j then i else i - 1] == bs[i];
    }
  }

  /** Inserting a free block behind block k and lowering lfree to it if it lies below. */
  lemma InsertedLfree(c: Config, bs: seq<Block>, k: nat, at: nat, l: nat)
    requires k < |bs| && LfreeBelow(c, bs, l)
    ensures var n, m := Insert(bs, k, at), if at < l then at else l;
      && LfreeBelow(c, n, m) && (m == l || LfreeExact(c, n, m))
      && (LfreeExact(c, bs, l) ==> LfreeExact(c, n, m))
  {
    var n := Insert(bs, k, at);
    assert n[k + 1] == Block(at, false);
    forall i | 0 <= i < |n|
      ensures n[i] == if i <= k then bs[i] else if i == k + 1 then Block(at, false) else bs[i - 1]
    {
    }
    if l != c.memSize && l <= at {
      var i :| 0 <= i < |bs| && bs[i].start == l && (LfreeExact(c, bs, l) ==> !bs[i].used);
      assert n[if i <= k then i else i + 1] == bs[i];
    }
  }

  /** Moving the free block behind block k down to offset `at`. */
  lemma MovedLfree(c: Config, bs: seq<Block>, k: nat, at: nat, l: nat)
    requires ValidConfig(c) && Tiled(c, bs) && k + 1 < |bs| && !bs[k + 1].used && LfreeBelow(c, bs, l)
    requires bs[k].start < at < bs[k + 1].start
    ensures var n, m := bs[k + 1 := Block(at, false)], if l == bs[k + 1].start then at else l;
      LfreeBelow(c, n, m) && (LfreeExact(c, bs, l) ==> LfreeExact(c, n, m)) && (m == l || LfreeExact(c, n, m))
  {
    OrderedAll(c, bs);
    var n := bs[k + 1 := Block(at, false)];
    assert EndOf(c, bs, k + 1) <= c.memSize;
    assert n[k + 1] == Block(at, false);
    if l != c.memSize {
      var i :| 0 <= i < |bs| && bs[i].start == l && (LfreeExact(c, bs, l) ==> !bs[i].used);
      assert i < k ==> EndOf(c, bs, i) <= bs[k].start;
      assert i != k + 1 ==> n[i] == bs[i];
    }
    forall j | 0 <= j < |n| && !n[j].used
      ensures (if l == bs[k + 1].start then at else l) <= n[j].start
    {
      assert j > k + 1 ==> EndOf(c, bs, k + 1) <= bs[j].start;
    }
  }

  /**
   * The block mem_malloc takes lies at or above lfree, and the pointer is already right unless it took lfree itself.
   */
  lemma TakenLfree(c: Config, bs: seq<Block>, k: nat, size: nat, l: nat)
    requires ValidConfig(c) && Tiled(c, bs) && k < |bs| && !bs[k].used && LfreeExact(c, bs, l)
    ensures l <= bs[k].start
    ensures LfreeBelow(c, Take(c, bs, k, size), l)
    ensures l != bs[k].start ==> LfreeExact(c, Take(c, bs, k, size), l)
  {
    var s := SetUsed(bs, k, true);
    OrderedAll(c, bs);
    assert bs[k].start < EndOf(c, bs, k) <= c.memSize;
    var i :| 0 <= i < |bs| && bs[i].start == l && !bs[i].used;
    assert s[i].start == l && (i != k ==> s[i] == bs[i]);
    InsertedLfree(c, s, k, bs[k].start + c.hdr + size, l);
  }

  // ---- the `used` statistic ----

  /** Bytes (headers included) of the used blocks from index i on. */
  function UsedFrom(c: Config, bs: seq<Block>, i: nat): int
    requires i <= |bs|
    decreases |bs| - i
  {
    if i == |bs| then 0
    else (if bs[i].used then EndOf(c, bs, i) - bs[i].start else 0) + UsedFrom(c, bs, i + 1)
  }

  function UsedBytes(c: Config, bs: seq<Block>): int { UsedFrom(c, bs, 0) }

  lemma {:induction false} UsedPrefix(c: Config, a: seq<Block>, b: seq<Block>, k: nat)
    requires k < |a| && k < |b| && a[k].start == b[k].start
    requires forall i | 0 <= i < k :: a[i] == b[i]
    ensures UsedBytes(c, a) - UsedFrom(c, a, k) == UsedBytes(c, b) - UsedFrom(c, b, k)
  {
    if k > 0 {
      UsedPrefix(c, a, b, k - 1);
    }
  }

  lemma {:induction false} UsedSuffix(c: Config, a: seq<Block>, i: nat, b: seq<Block>, j: nat)
    requires i <= |a| && j <= |b| && |a| - i == |b| - j
    requires forall x {:trigger a[x]} | i <= x < |a| :: a[x] == b[x - i + j]
    ensures UsedFrom(c, a, i) == UsedFrom(c, b, j)
    decreases |a| - i
  {
    if i < |a| {
      UsedSuffix(c, a, i + 1, b, j + 1);
    }
  }

  lemma SetUsedUsedBytes(c: Config, bs: seq<Block>, k: nat, used: bool)
    requires k < |bs|
    ensures UsedBytes(c, SetUsed(bs, k, used)) == UsedBytes(c, bs)
      + (if used then EndOf(c, bs, k) - bs[k].start else 0) - (if bs[k].used then EndOf(c, bs, k) - bs[k].start else 0)
  {
    var n := SetUsed(bs, k, used);
    UsedPrefix(c, bs, n, k);
    UsedSuffix(c, bs, k + 1, n, k + 1);
    assert EndOf(c, n, k) == EndOf(c, bs, k);
  }

  lemma MergedUsedBytes(c: Config, bs: seq<Block>, j: nat)
    requires 0 < j < |bs| && !bs[j - 1].used && !bs[j].used
    ensures UsedBytes(c, Without(bs, j)) == UsedBytes(c, bs)
  {
    var n := Without(bs, j);
    UsedPrefix(c, bs, n, j - 1);
    UsedSuffix(c, bs, j + 1, n, j);
    assert UsedFrom(c, bs, j) == UsedFrom(c, bs, j + 1);
  }

  lemma InsertedUsedBytes(c: Config, bs: seq<Block>, k: nat, at: nat)
    requires k < |bs| && bs[k].used
    ensures UsedBytes(c, Insert(bs, k, at)) == UsedBytes(c, bs) - (EndOf(c, bs, k) - at)
  {
    var n := Insert(bs, k, at);
    UsedPrefix(c, bs, n, k);
    assert forall x {:trigger bs[x]} | k + 1 <= x < |bs| :: bs[x] == n[x + 1];
    UsedSuffix(c, bs, k + 1, n, k + 2);
    assert UsedFrom(c, n, k + 1) == UsedFrom(c, n, k + 2);
  }

  lemma MovedUsedBytes(c: Config, bs: seq<Block>, k: nat, at: nat)
    requires k + 1 < |bs| && bs[k].used && !bs[k + 1].used
    ensures UsedBytes(c, bs[k + 1 := Block(at, false)]) == UsedBytes(c, bs) - (bs[k + 1].start - at)
  {
    var n := bs[k + 1 := Block(at, false)];
    UsedPrefix(c, bs, n, k);
    UsedSuffix(c, bs, k + 2, n, k + 2);
    assert UsedFrom(c, n, k + 1) == UsedFrom(c, n, k + 2) && UsedFrom(c, bs, k + 1) == UsedFrom(c, bs, k + 2);
  }
}
