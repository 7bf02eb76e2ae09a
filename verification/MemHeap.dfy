/**
 * The lwIP heap (core/mem.c): headers and data in one byte array, the cached lowest-free pointer, the
 * statistics, and mem_malloc with frees from another context interleaved at its unprotect points.
 */
module MemHeap {
  import opened Common
  import opened MemModel
  import opened MemBytes

  /** What another context may do while mem_malloc has dropped its protection. */
  datatype EnvOp = EnvFree(p: nat) | EnvTrim(p: nat, want: u16)

  /** An operation of another context; it never touches the block the running mem_malloc has already taken. */
  function ApplyEnv(c: Config, bs: seq<Block>, op: EnvOp, mine: Option<nat>): seq<Block>
    requires 0 < c.align
  {
    if mine == Some(op.p) then bs
    else match op
      case EnvFree(p) => FreeBlocks(c, bs, p)
      case EnvTrim(p, want) => TrimBlocks(c, bs, p, want)
  }

  function ApplyAll(c: Config, bs: seq<Block>, ops: seq<EnvOp>, mine: Option<nat>): seq<Block>
    requires 0 < c.align
  {
    if ops == [] then bs
    else ApplyEnv(c, ApplyAll(c, bs, ops[..|ops| - 1], mine), ops[|ops| - 1], mine)
  }

  lemma ApplyOneMore(c: Config, bs: seq<Block>, ops: seq<EnvOp>, op: EnvOp, mine: Option<nat>)
    requires 0 < c.align
    ensures ApplyAll(c, bs, ops + [op], mine) == ApplyEnv(c, ApplyAll(c, bs, ops, mine), op, mine)
  {
    assert (ops + [op])[..|ops|] == ops;
  }

  lemma {:induction false} ApplyConcat(c: Config, bs: seq<Block>, a: seq<EnvOp>, b: seq<EnvOp>, mine: Option<nat>)
    requires 0 < c.align
    ensures ApplyAll(c, bs, a + b, mine) == ApplyAll(c, ApplyAll(c, bs, a, mine), b, mine)
  {
    if b == [] {
      assert a + b == a;
    } else {
      var n := |b| - 1;
      ApplyConcat(c, bs, a, b[..n], mine);
      assert a + b == (a + b[..n]) + [b[n]];
      ApplyOneMore(c, bs, a + b[..n], b[n], mine);
    }
  }

  function Flatten(env: seq<seq<EnvOp>>): seq<EnvOp> {
    if env == [] then [] else env[0] + Flatten(env[1..])
  }

  /**
   * How an operation on live blocks may move lfree from l to m: it stays at or below every free block, it stays
   * exact if it was, and it becomes exact whenever it moves.
   */
  ghost predicate LfreeStep(c: Config, bs: seq<Block>, l: nat, ns: seq<Block>, m: nat) {
    && LfreeBelow(c, ns, m) && (m == l || LfreeExact(c, ns, m))
    && (LfreeExact(c, bs, l) ==> LfreeExact(c, ns, m))
  }

  /** plug_holes redirecting lfree from an absorbed struct mem to the one that absorbed it. */
  function Retarget(lfree: nat, from: nat, to: nat): nat { if lfree == from then to else lfree }

  /**
   * From list bs and bytes s, other contexts ran `ops`, the first operations of the schedule env, leaving ns and t;
   * `rest` is still to come.
   */
  ghost predicate Ran(c: Config, mine: Option<nat>, bs: seq<Block>, s: seq<byte>, env: seq<seq<EnvOp>>,
                      ops: seq<EnvOp>, ns: seq<Block>, t: seq<byte>, rest: seq<seq<EnvOp>>) {
    && 0 < c.align && ns == ApplyAll(c, bs, ops, mine) && Flatten(env) == ops + Flatten(rest) && |rest| <= |env|
    && Keeps(c, bs, s, ns, t, None)
  }

  lemma RanNothing(c: Config, mine: Option<nat>, bs: seq<Block>, s: seq<byte>, env: seq<seq<EnvOp>>)
    requires ValidConfig(c) && Tiled(c, bs) && c.memSize <= |s|
    ensures Ran(c, mine, bs, s, env, [], bs, s, env)
  {
    KeepsSelf(c, bs, s);
  }

  lemma RanTrans(c: Config, mine: Option<nat>, b0: seq<Block>, s0: seq<byte>, e0: seq<seq<EnvOp>>, o1: seq<EnvOp>,
                 b1: seq<Block>, s1: seq<byte>, e1: seq<seq<EnvOp>>, o2: seq<EnvOp>,
                 b2: seq<Block>, s2: seq<byte>, e2: seq<seq<EnvOp>>)
    requires Ran(c, mine, b0, s0, e0, o1, b1, s1, e1) && Ran(c, mine, b1, s1, e1, o2, b2, s2, e2)
    ensures Ran(c, mine, b0, s0, e0, o1 + o2, b2, s2, e2)
  {
    ApplyConcat(c, b0, o1, o2, mine);
    Regroup(Flatten(e0), o1, Flatten(e1), o2, Flatten(e2));
    KeepsTrans(c, b0, s0, b1, s1, b2, s2, None, None);
  }

  lemma Regroup(f0: seq<EnvOp>, o1: seq<EnvOp>, f1: seq<EnvOp>, o2: seq<EnvOp>, f2: seq<EnvOp>)
    requires f0 == o1 + f1 && f1 == o2 + f2
    ensures f0 == (o1 + o2) + f2
  {
  }

  /** From list mid, first fit for `size` gave the struct mem at ptr; then other contexts ran `post`, leaving ns. */
  ghost predicate Allocated(c: Config, mid: seq<Block>, size: nat, ptr: Option<nat>, post: seq<EnvOp>, ns: seq<Block>) {
    var k := FirstFit(c, mid, size, 0);
    && 0 < c.align
    && (k == |mid| ==> ptr == None && ns == mid && post == [])
    && (k < |mid| ==> ptr == Some(mid[k].start)
                      && ns == ApplyAll(c, Take(c, mid, k, size), post, Some(mid[k].start + c.hdr)))
  }

  lemma AllocatedIntro(c: Config, mid: seq<Block>, size: nat, ptr: Option<nat>, post: seq<EnvOp>, ns: seq<Block>,
                       k: nat)
    requires 0 < c.align && k == FirstFit(c, mid, size, 0)
    requires k == |mid| ==> ptr == None && ns == mid && post == []
    requires k < |mid| ==> ptr == Some(mid[k].start)
                           && ns == ApplyAll(c, Take(c, mid, k, size), post, Some(mid[k].start + c.hdr))
    ensures Allocated(c, mid, size, ptr, post, ns)
  {
  }

  /** An uninterrupted mem_malloc after `pre` and before `post` takes list bs to ns and returns r. */
  ghost predicate Linearized(c: Config, bs: seq<Block>, pre: seq<EnvOp>, want: u16, r: Option<nat>, post: seq<EnvOp>,
                             ns: seq<Block>) {
    && 0 < c.align
    && var m := MallocBlocks(c, ApplyAll(c, bs, pre, None), want);
    r == m.1 && ns == ApplyAll(c, m.0, post, r)
  }

  lemma AllocatedLinearized(c: Config, bs: seq<Block>, pre: seq<EnvOp>, want: u16, ptr: Option<nat>, post: seq<EnvOp>,
                            ns: seq<Block>)
    requires 0 < c.align && want != 0 && !Refused(c, want)
    requires Allocated(c, ApplyAll(c, bs, pre, None), Rounded(c, want), ptr, post, ns)
    ensures Linearized(c, bs, pre, want, if ptr.Some? then Some(ptr.value + c.hdr) else None, post, ns)
  {
    AllocatedIsMalloc(c, ApplyAll(c, bs, pre, None), want, ptr, post, ns);
  }

  lemma AllocatedIsMalloc(c: Config, mid: seq<Block>, want: u16, ptr: Option<nat>, post: seq<EnvOp>, ns: seq<Block>)
    requires 0 < c.align && want != 0 && !Refused(c, want) && Allocated(c, mid, Rounded(c, want), ptr, post, ns)
    ensures var (after, r) := MallocBlocks(c, mid, want);
      r == (if ptr.Some? then Some(ptr.value + c.hdr) else None) && ns == ApplyAll(c, after, post, r)
  {
  }

  lemma RefusedLinearized(c: Config, bs: seq<Block>, want: u16)
    requires 0 < c.align && (want == 0 || Refused(c, want))
    ensures Linearized(c, bs, [], want, None, [], bs)
  {
  }

  /** A live pointer passes the alignment and range checks of mem_free. */
  lemma LivePassesChecks(c: Config, bs: seq<Block>, p: int)
    requires ValidConfig(c) && Tiled(c, bs) && IndexOf(bs, p - c.hdr) < |bs|
    ensures c.hdr <= p && p + c.minSize <= c.memSize && Aligned(c, p)
  {
    var k := IndexOf(bs, p - c.hdr);
    Apart(c, bs, k, k);
    AlignedAfter(c, bs, k, 0);
    assert bs[k].start + c.hdr + c.minSize <= EndOf(c, bs, k);
  }

  /** The bytes written by mem_init hold the list of one free block. */
  lemma FreshHeap(c: Config, s: seq<byte>)
    requires ValidConfig(c) && c.memSize + c.hdr <= |s|
    requires U16At(s, 0) == c.memSize && U16At(s, 2) == 0 && s[4] == 0
    requires U16At(s, c.memSize) == c.memSize && U16At(s, c.memSize + 2) == c.memSize && s[c.memSize + 4] == 1
    ensures var bs := [Block(0, false)];
      WellFormed(c, bs) && Rep(c, s, bs) && UsedBytes(c, bs) == 0 && LfreeExact(c, bs, 0)
  {
    var bs := [Block(0, false)];
    assert EndOf(c, bs, 0) == c.memSize;
    assert HdrOk(c, s, bs, 0);
  }

  class Heap {
    const c: Config
    const ram: array<byte>
    var lfree: nat       // offset of the struct mem lfree points to
    var used: int        // lwip_stats.mem.used
    var err: nat         // lwip_stats.mem.err
    var illegal: nat     // lwip_stats.mem.illegal
    var freeCount: nat   // mem_free_count
    ghost var blocks: seq<Block>

    /** Everything but the position of lfree. */
    ghost predicate Shape()
      reads `blocks, `used, ram
    {
      && ValidConfig(c) && WellFormed(c, blocks) && Rep(c, ram[..], blocks)
      && used == UsedBytes(c, blocks)
    }

    /** The heap invariant between operations. */
    ghost predicate Valid()
      reads `blocks, `used, `lfree, ram
    {
      Shape() && LfreeExact(c, blocks, lfree)
    }

    /** mem_init */
    constructor (cfg: Config)
      requires ValidConfig(cfg)
      ensures Valid() && fresh(ram) && c == cfg
      ensures blocks == [Block(0, false)] && lfree == 0 && used == 0
    {
      c := cfg;
      ram := new byte[cfg.memSize + 2 * cfg.hdr](_ => 0);
      lfree, used, err, illegal, freeCount := 0, 0, 0, 0, 0;
      blocks := [Block(0, false)];
      new;
      Format();
      FreshHeap(c, ram[..]);
    }

    /** The headers at both ends of the heap. */
    method Format()
      requires ValidConfig(c) && c.memSize + c.hdr <= ram.Length
      modifies ram
      ensures U16At(ram[..], 0) == c.memSize && U16At(ram[..], 2) == 0 && ram[4] == 0
      ensures U16At(ram[..], c.memSize) == c.memSize && U16At(ram[..], c.memSize + 2) == c.memSize
      ensures ram[c.memSize + 4] == 1
    {
      Write16(0, c.memSize);
      Write16(2, 0);
      ram[4] := 0;
      Write16(c.memSize, c.memSize);
      Write16(c.memSize + 2, c.memSize);
      ram[c.memSize + 4] := 1;
    }

    function NextAt(p: nat): nat
      requires p + 5 <= ram.Length
      reads ram
    {
      U16At(ram[..], p)
    }

    function PrevAt(p: nat): nat
      requires p + 5 <= ram.Length
      reads ram
    {
      U16At(ram[..], p + 2)
    }

    predicate UsedAt(p: nat)
      requires p + 5 <= ram.Length
      reads ram
    {
      ram[p + 4] != 0
    }

    method Write16(p: nat, v: u16)
      requires p + 2 <= ram.Length
      modifies ram
      ensures ram[..] == Put16(old(ram[..]), p, v)
    {
      ram[p] := v % 256;
      ram[p + 1] := v / 256;
    }

    /** Make lo and end neighbours. */
    method Unlink(lo: nat, end: nat)
      requires 6 <= c.hdr && lo + c.hdr <= end <= c.memSize < 0x1_0000 && c.memSize + c.hdr <= ram.Length
      modifies ram
      ensures Merged(c, old(ram[..]), ram[..], lo, end)
    {
      Write16(lo, end);
      if end != c.memSize {
        Write16(end + 2, lo);
      }
    }

    /** Write a free struct mem at `at` between p and end. */
    method Link(p: nat, at: nat, end: nat)
      requires 6 <= c.hdr && p + c.hdr <= at && at + c.hdr <= end <= c.memSize < 0x1_0000
      requires c.memSize + c.hdr <= ram.Length
      modifies ram
      ensures Split(c, old(ram[..]), ram[..], p, at, end)
    {
      ram[at + 4] := 0;
      Write16(at, end);
      Write16(at + 2, p);
      Write16(p, at);
      if end != c.memSize {
        Write16(end + 2, at);
      }
    }

    /** Write the used flag of block k. */
    method Mark(p: nat, u: bool, ghost k: nat)
      requires ValidConfig(c) && Tiled(c, blocks) && Rep(c, ram[..], blocks)
      requires k < |blocks| && blocks[k].start == p
      modifies this`blocks, ram
      ensures blocks == SetUsed(old(blocks), k, u) && Tiled(c, blocks) && Rep(c, ram[..], blocks)
      ensures Keeps(c, old(blocks), old(ram[..]), blocks, ram[..], if u then Some(p) else None)
    {
      Apart(c, blocks, k, k);
      ram[p + 4] := UsedByte(u);
      SetUsedTiled(c, blocks, k, u);
      MarkRep(c, old(ram[..]), blocks, k, u, ram[..]);
      MarkKeeps(c, old(ram[..]), blocks, k, u, ram[..]);
      blocks := SetUsed(blocks, k, u);
    }

    /** What a live or free struct mem of the list reads like. */
    lemma ReadHdr(k: nat)
      requires ValidConfig(c) && Tiled(c, blocks) && Rep(c, ram[..], blocks) && k < |blocks|
      ensures blocks[k].start + 5 <= ram.Length
      ensures NextAt(blocks[k].start) == EndOf(c, blocks, k) && PrevAt(blocks[k].start) == PrevOf(blocks, k)
      ensures UsedAt(blocks[k].start) == blocks[k].used
      ensures blocks[k].start + c.hdr + c.minSize <= EndOf(c, blocks, k) <= c.memSize
    {
      Apart(c, blocks, k, k);
      assert HdrOk(c, ram[..], blocks, k);
    }

    /** One half of plug_holes: absorb the free block at index j into its free predecessor at lo. */
    method Absorb(lo: nat, end: nat, ghost j: nat)
      requires ValidConfig(c) && Tiled(c, blocks) && Rep(c, ram[..], blocks) && used == UsedBytes(c, blocks)
      requires 0 < j < |blocks| && !blocks[j - 1].used && !blocks[j].used
      requires lo == blocks[j - 1].start && end == EndOf(c, blocks, j)
      requires LfreeBelow(c, blocks, lfree)
      modifies this`blocks, ram
      ensures blocks == Without(old(blocks), j) && Tiled(c, blocks) && Rep(c, ram[..], blocks)
      ensures used == UsedBytes(c, blocks) && LfreeBelow(c, blocks, lfree)
      ensures LfreeExact(c, old(blocks), lfree) ==> LfreeExact(c, blocks, lfree)
      ensures Keeps(c, old(blocks), old(ram[..]), blocks, ram[..], None)
    {
      Apart(c, blocks, j - 1, j);
      Apart(c, blocks, j, j);
      Unlink(lo, end);
      MergeRep(c, old(ram[..]), blocks, j, ram[..]);
      MergeKeeps(c, old(ram[..]), blocks, j, ram[..]);
      WithoutTiled(c, blocks, j);
      MergedUsedBytes(c, blocks, j);
      MergedLfree(c, blocks, j, lfree);
      blocks := Without(blocks, j);
    }

    /** plug_holes' test of the following struct mem. */
    predicate NextIsFree(mem: nat)
      requires 6 <= c.hdr && c.memSize + c.hdr <= ram.Length && mem + 5 <= ram.Length && NextAt(mem) <= c.memSize
      reads ram
    {
      mem != NextAt(mem) && !UsedAt(NextAt(mem)) && NextAt(mem) != c.memSize
    }

    lemma NextIsFreeMeans(k: nat)
      requires ValidConfig(c) && Tiled(c, blocks) && Rep(c, ram[..], blocks) && k < |blocks|
      ensures blocks[k].start + 5 <= ram.Length && NextAt(blocks[k].start) == EndOf(c, blocks, k) <= c.memSize
      ensures NextIsFree(blocks[k].start) <==> k + 1 < |blocks| && !blocks[k + 1].used
      ensures k + 1 < |blocks| ==>
        EndOf(c, blocks, k) + 5 <= ram.Length && NextAt(EndOf(c, blocks, k)) == EndOf(c, blocks, k + 1)
    {
      ReadHdr(k);
      if k + 1 < |blocks| { ReadHdr(k + 1); }
    }

    /** plug_holes' test of the preceding struct mem. */
    predicate PrevIsFree(mem: nat)
      requires 6 <= c.hdr && c.memSize + c.hdr <= ram.Length && mem + 5 <= ram.Length && PrevAt(mem) <= c.memSize
      reads ram
    {
      PrevAt(mem) != mem && !UsedAt(PrevAt(mem))
    }

    lemma PrevIsFreeMeans(k: nat)
      requires ValidConfig(c) && Tiled(c, blocks) && Rep(c, ram[..], blocks) && k < |blocks|
      ensures blocks[k].start + 5 <= ram.Length && PrevAt(blocks[k].start) == PrevOf(blocks, k) <= c.memSize
      ensures PrevIsFree(blocks[k].start) <==> 0 < k && !blocks[k - 1].used
      ensures NextAt(blocks[k].start) == EndOf(c, blocks, k)
    {
      ReadHdr(k);
      if k > 0 { ReadHdr(k - 1); }
    }

    /** plug_holes, forward half. */
    method PlugNext(mem: nat, ghost k: nat)
      requires ValidConfig(c) && Pluggable(c, blocks, k) && Rep(c, ram[..], blocks) && used == UsedBytes(c, blocks)
      requires mem == blocks[k].start && LfreeBelow(c, blocks, lfree)
      requires k + 2 < |blocks| && !blocks[k + 1].used ==> blocks[k + 2].used
      modifies this`blocks, this`lfree, ram
      ensures blocks ==
        if k + 1 < |old(blocks)| && !old(blocks)[k + 1].used then Without(old(blocks), k + 1) else old(blocks)
      ensures Pluggable(c, blocks, k) && (k + 1 < |blocks| ==> blocks[k + 1].used)
      ensures Rep(c, ram[..], blocks) && used == UsedBytes(c, blocks)
      ensures lfree == old(lfree) && LfreeBelow(c, blocks, lfree)
      ensures LfreeExact(c, old(blocks), lfree) ==> LfreeExact(c, blocks, lfree)
      ensures Keeps(c, old(blocks), old(ram[..]), blocks, ram[..], None)
    {
      NextIsFreeMeans(k);
      if NextIsFree(mem) {
        var nmem := NextAt(mem);
        MergedLfree(c, blocks, k + 1, lfree);
        lfree := Retarget(lfree, nmem, mem);
        PlugForward(c, blocks, k);
        Absorb(mem, NextAt(nmem), k + 1);
      } else {
        KeepsSelf(c, blocks, ram[..]);
      }
    }

    /** plug_holes, backward half. */
    method PlugPrev(mem: nat, ghost k: nat)
      requires ValidConfig(c) && Pluggable(c, blocks, k) && Rep(c, ram[..], blocks) && used == UsedBytes(c, blocks)
      requires mem == blocks[k].start && LfreeBelow(c, blocks, lfree)
      requires k + 1 < |blocks| ==> blocks[k + 1].used
      modifies this`blocks, this`lfree, ram
      ensures blocks == if 0 < k && !old(blocks)[k - 1].used then Without(old(blocks), k) else old(blocks)
      ensures WellFormed(c, blocks) && Rep(c, ram[..], blocks) && used == UsedBytes(c, blocks)
      ensures lfree == old(lfree) && LfreeBelow(c, blocks, lfree)
      ensures LfreeExact(c, old(blocks), lfree) ==> LfreeExact(c, blocks, lfree)
      ensures Keeps(c, old(blocks), old(ram[..]), blocks, ram[..], None)
    {
      PrevIsFreeMeans(k);
      if PrevIsFree(mem) {
        var pmem := PrevAt(mem);
        MergedLfree(c, blocks, k, lfree);
        lfree := Retarget(lfree, mem, pmem);
        PlugBackward(c, blocks, k);
        Absorb(pmem, NextAt(mem), k);
      } else {
        KeepsSelf(c, blocks, ram[..]);
        PluggedWellFormed(c, blocks, k);
      }
    }

    /** plug_holes */
    method PlugHoles(mem: nat, ghost k: nat)
      requires ValidConfig(c) && Pluggable(c, blocks, k) && Rep(c, ram[..], blocks) && used == UsedBytes(c, blocks)
      requires mem == blocks[k].start && LfreeBelow(c, blocks, lfree)
      requires k + 2 < |blocks| && !blocks[k + 1].used ==> blocks[k + 2].used
      modifies this`blocks, this`lfree, ram
      ensures blocks == Plug(old(blocks), k) && Shape()
      ensures lfree == old(lfree) && LfreeBelow(c, blocks, lfree)
      ensures LfreeExact(c, old(blocks), lfree) ==> LfreeExact(c, blocks, lfree)
      ensures Keeps(c, old(blocks), old(ram[..]), blocks, ram[..], None)
    {
      PlugNext(mem, k);
      ghost var fwd, mid := blocks, ram[..];
      PlugPrev(mem, k);
      KeepsTrans(c, old(blocks), old(ram[..]), fwd, mid, blocks, ram[..], None, None);
    }

    /** mem_link_valid */
    predicate LinkValid(mem: nat)
      requires 6 <= c.hdr && c.memSize + c.hdr <= ram.Length && mem <= c.memSize
      reads ram
    {
      var next, prev := NextAt(mem), PrevAt(mem);
      && next <= c.memSize && prev <= c.memSize
      && (prev == mem || NextAt(prev) == mem)
      && (next == c.memSize || PrevAt(next) == mem)
    }

    /** No struct mem of the list is ever reported as badly linked. */
    lemma BlocksLinkValid(k: nat)
      requires ValidConfig(c) && Tiled(c, blocks) && Rep(c, ram[..], blocks) && k < |blocks|
      ensures blocks[k].start <= c.memSize && LinkValid(blocks[k].start)
    {
      ReadHdr(k);
      if k > 0 { ReadHdr(k - 1); }
      if k + 1 < |blocks| { ReadHdr(k + 1); }
    }

    /** The accepted path of mem_free: mark block k unused, lower lfree, account and coalesce. */
    method Reclaim(mem: nat, ghost k: nat)
      requires Shape() && LfreeBelow(c, blocks, lfree)
      requires k < |blocks| && blocks[k].used && blocks[k].start == mem
      modifies this`blocks, this`lfree, this`used, ram
      ensures Shape() && blocks == Release(old(blocks), k)
      ensures LfreeStep(c, old(blocks), old(lfree), blocks, lfree)
      ensures Keeps(c, old(blocks), old(ram[..]), blocks, ram[..], None)
    {
      FreedPluggable(c, blocks, k);
      FreedLfree(c, blocks, k, lfree);
      SetUsedUsedBytes(c, blocks, k, false);
      Mark(mem, false, k);
      if mem < lfree {
        lfree := mem;
      }
      ReadHdr(k);
      used := used - (NextAt(mem) - mem);
      ghost var marked, mid := blocks, ram[..];
      PlugHoles(mem, k);
      KeepsTrans(c, old(blocks), old(ram[..]), marked, mid, blocks, ram[..], None, None);
    }

    /** The pointers mem_free is defined for: NULL, any it can refuse by itself, and the struct mems of the list. */
    ghost predicate Freeable(rmem: Option<nat>)
      requires 0 < c.align
      reads `blocks
    {
      rmem.Some? && Aligned(c, rmem.value) && c.hdr <= rmem.value && rmem.value + c.minSize <= c.memSize
      ==> IndexOf(blocks, rmem.value - c.hdr) < |blocks|
    }

    /** The alignment, range, double-free and link checks of mem_free, in its order. */
    predicate PassesChecks(p: nat)
      requires 0 < c.align && 6 <= c.hdr && c.memSize + c.hdr <= ram.Length
      reads ram
    {
      && Aligned(c, p)
      && c.hdr <= p && p + c.minSize <= c.memSize
      && UsedAt(p - c.hdr) && LinkValid(p - c.hdr)
    }

    /** The checks refuse every pointer that is not live, and never a live one. */
    method Check(rmem: Option<nat>) returns (ok: bool)
      requires Shape() && Freeable(rmem)
      ensures ok <==> rmem.Some? && Live(c, blocks, rmem.value)
      ensures ok ==> c.hdr <= rmem.value
    {
      if rmem.None? {
        return false;
      }
      ghost var k := IndexOf(blocks, rmem.value - c.hdr);
      if k < |blocks| {
        LivePassesChecks(c, blocks, rmem.value);
        BlocksLinkValid(k);
        ReadHdr(k);
      }
      return PassesChecks(rmem.value);
    }

    /** mem_free */
    method Free(rmem: Option<nat>)
      requires Shape() && LfreeBelow(c, blocks, lfree) && Freeable(rmem)
      modifies this`blocks, this`lfree, this`used, this`illegal, this`freeCount, ram
      ensures Shape() && Keeps(c, old(blocks), old(ram[..]), blocks, ram[..], None)
      ensures blocks == if rmem.Some? then FreeBlocks(c, old(blocks), rmem.value) else old(blocks)
      ensures LfreeStep(c, old(blocks), old(lfree), blocks, lfree)
      ensures rmem.Some? && Live(c, old(blocks), rmem.value) ==> illegal == old(illegal) && freeCount == 1
      ensures !(rmem.Some? && Live(c, old(blocks), rmem.value)) ==>
        && illegal == old(illegal) + (if rmem.Some? then 1 else 0)
        && freeCount == old(freeCount) && ram[..] == old(ram[..])
    {
      var ok := Check(rmem);
      if ok {
        Reclaim(rmem.value - c.hdr, IndexOf(blocks, rmem.value - c.hdr));
        freeCount := 1;
      } else {
        KeepsSelf(c, blocks, ram[..]);
        illegal := illegal + if rmem.Some? then 1 else 0;
      }
    }

    /** mem_trim when the following block is free: that block is moved down to `at`. */
    method TrimMove(ptr: nat, at: nat, ghost k: nat)
      requires Shape() && LfreeBelow(c, blocks, lfree)
      requires k + 1 < |blocks| && blocks[k].used && !blocks[k + 1].used && blocks[k].start == ptr
      requires Aligned(c, at) && ptr + c.hdr + c.minSize <= at < blocks[k + 1].start
      modifies this`blocks, this`lfree, this`used, ram
      ensures Shape() && blocks == old(blocks)[k + 1 := Block(at, false)]
      ensures LfreeStep(c, old(blocks), old(lfree), blocks, lfree)
      ensures Keeps(c, old(blocks), old(ram[..]), blocks, ram[..], None)
    {
      ReadHdr(k);
      ReadHdr(k + 1);
      var mem2 := NextAt(ptr);
      var next := NextAt(mem2);
      MovedLfree(c, blocks, k, at, lfree);
      if lfree == mem2 {
        lfree := at;
      }
      Link(ptr, at, next);
      MoveRep(c, old(ram[..]), blocks, k, at, ram[..]);
      MoveKeeps(c, old(ram[..]), blocks, k, at, ram[..]);
      MovedUsedBytes(c, blocks, k, at);
      MoveWellFormed(c, blocks, k, at);
      blocks := blocks[k + 1 := Block(at, false)];
      used := used - (mem2 - at);
    }

    /** mem_trim when the following block is used and the cut-off part can hold a block of its own. */
    method TrimSplit(ptr: nat, at: nat, ghost k: nat) returns (assertion: bool)
      requires Shape() && LfreeBelow(c, blocks, lfree)
      requires k < |blocks| && blocks[k].used && (k + 1 < |blocks| ==> blocks[k + 1].used) && blocks[k].start == ptr
      requires Aligned(c, at) && ptr + c.hdr + c.minSize <= at && at + c.hdr + c.minSize <= EndOf(c, blocks, k)
      modifies this`blocks, this`lfree, this`used, ram
      ensures Shape() && blocks == Insert(old(blocks), k, at)
      ensures assertion <==> EndOf(c, old(blocks), k) != c.memSize
      ensures LfreeStep(c, old(blocks), old(lfree), blocks, lfree)
      ensures Keeps(c, old(blocks), old(ram[..]), blocks, ram[..], None)
    {
      ReadHdr(k);
      var next := NextAt(ptr);
      assertion := next != c.memSize;
      InsertedLfree(c, blocks, k, at, lfree);
      if at < lfree {
        lfree := at;
      }
      Link(ptr, at, next);
      SplitRep(c, old(ram[..]), blocks, k, at, ram[..]);
      SplitKeeps(c, old(ram[..]), blocks, k, at, ram[..]);
      InsertedUsedBytes(c, blocks, k, at);
      InsertWellFormed(c, blocks, k, at);
      blocks := Insert(blocks, k, at);
      used := used - (next - at);
    }

    /** The protected part of mem_trim: cut block k down to `size` bytes. */
    method Cut(ptr: nat, size: nat, ghost k: nat) returns (assertion: bool)
      requires Shape() && LfreeBelow(c, blocks, lfree)
      requires k < |blocks| && blocks[k].used && blocks[k].start == ptr
      requires Aligned(c, size) && c.minSize <= size < Payload(c, blocks, k)
      modifies this`blocks, this`lfree, this`used, ram
      ensures Shape() && blocks == Shrink(c, old(blocks), k, size)
      ensures !assertion <==>
        && (k + 1 < |old(blocks)| ==> old(blocks)[k + 1].used) && size + c.hdr + c.minSize <= Payload(c, old(blocks), k)
        && EndOf(c, old(blocks), k) == c.memSize
      ensures LfreeStep(c, old(blocks), old(lfree), blocks, lfree)
      ensures Keeps(c, old(blocks), old(ram[..]), blocks, ram[..], None)
    {
      NextIsFreeMeans(k);
      assertion := true;
      AlignedAfter(c, blocks, k, size);
      var mem2 := NextAt(ptr);
      if !UsedAt(mem2) {
        TrimMove(ptr, ptr + c.hdr + size, k);
      } else if size + c.hdr + c.minSize <= mem2 - ptr - c.hdr {
        assertion := TrimSplit(ptr, ptr + c.hdr + size, k);
      } else {
        KeepsSelf(c, blocks, ram[..]);
      }
    }

    /**
     * mem_trim.  The pointer is live or outside the heap (which is refused and counted).  `assertion` is the outcome
     * of the LWIP_ASSERT in front of the split, after which the code goes on.
     */
    method Trim(rmem: int, want: u16) returns (r: Option<int>, assertion: bool)
      requires Shape() && LfreeBelow(c, blocks, lfree)
      requires 0 <= rmem < c.memSize ==> Live(c, blocks, rmem)
      modifies this`blocks, this`lfree, this`used, this`illegal, this`freeCount, ram
      ensures Shape() && blocks == TrimBlocks(c, old(blocks), rmem, want)
      ensures LfreeStep(c, old(blocks), old(lfree), blocks, lfree)
      ensures Keeps(c, old(blocks), old(ram[..]), blocks, ram[..], None)
      ensures r ==
        if Refused(c, want) || (0 <= rmem < c.memSize && !Trimmable(c, old(blocks), rmem, want)) then None
        else Some(rmem)
      ensures assertion <==> !TrimAssertionFails(c, old(blocks), rmem, want)
      ensures illegal == old(illegal) + if !Refused(c, want) && !(0 <= rmem < c.memSize) then 1 else 0
      ensures freeCount == old(freeCount) || freeCount == 1
      ensures blocks != old(blocks) || ram[..] != old(ram[..]) || lfree != old(lfree) ==> freeCount == 1
    {
      RoundedSound(c, want);
      KeepsSelf(c, blocks, ram[..]);
      if Refused(c, want) {
        return None, true;
      }
      var size := Rounded(c, want);
      ghost var k := IndexOf(blocks, rmem - c.hdr);
      if k < |blocks| { ReadHdr(k); }
      if rmem < 0 || rmem >= c.memSize {
        illegal := illegal + 1;
        return Some(rmem), true;
      }
      var ptr := rmem - c.hdr;
      var have := NextAt(ptr) - ptr - c.hdr;
      if size > have {
        return None, true;
      }
      if size == have {
        return Some(rmem), true;
      }
      assertion := Cut(ptr, size, k);
      freeCount := 1;
      r := Some(rmem);
    }

    /** What other contexts do at one unprotect point of mem_malloc. */
    method Interfere(ops: seq<EnvOp>, mine: Option<nat>)
      requires Shape() && LfreeBelow(c, blocks, lfree)
      modifies this`blocks, this`lfree, this`used, this`illegal, this`freeCount, ram
      ensures Shape() && blocks == ApplyAll(c, old(blocks), ops, mine)
      ensures LfreeStep(c, old(blocks), old(lfree), blocks, lfree)
      ensures Keeps(c, old(blocks), old(ram[..]), blocks, ram[..], None)
      ensures illegal == old(illegal)
      ensures freeCount == old(freeCount) || freeCount == 1
      ensures freeCount == 0 ==> blocks == old(blocks) && ram[..] == old(ram[..]) && lfree == old(lfree)
    {
      KeepsSelf(c, blocks, ram[..]);
      for n := 0 to |ops|
        invariant Shape() && blocks == ApplyAll(c, old(blocks), ops[..n], mine)
        invariant LfreeStep(c, old(blocks), old(lfree), blocks, lfree)
        invariant Keeps(c, old(blocks), old(ram[..]), blocks, ram[..], None)
        invariant illegal == old(illegal)
        invariant freeCount == old(freeCount) || freeCount == 1
        invariant freeCount == 0 ==> blocks == old(blocks) && ram[..] == old(ram[..]) && lfree == old(lfree)
      {
        InterfereNext(ops, n, mine, old(blocks), old(ram[..]));
      }
      assert ops[..|ops|] == ops;
    }

    /** InterfereOnce as one more operation after the first n, which started from list b0 and bytes s0. */
    method InterfereNext(ops: seq<EnvOp>, n: nat, mine: Option<nat>, ghost b0: seq<Block>, ghost s0: seq<byte>)
      requires Shape() && LfreeBelow(c, blocks, lfree) && n < |ops|
      requires blocks == ApplyAll(c, b0, ops[..n], mine) && Keeps(c, b0, s0, blocks, ram[..], None)
      modifies this`blocks, this`lfree, this`used, this`illegal, this`freeCount, ram
      ensures Shape() && blocks == ApplyAll(c, b0, ops[..n + 1], mine) && Keeps(c, b0, s0, blocks, ram[..], None)
      ensures LfreeStep(c, old(blocks), old(lfree), blocks, lfree)
      ensures illegal == old(illegal)
      ensures freeCount == old(freeCount) || freeCount == 1
      ensures blocks != old(blocks) || ram[..] != old(ram[..]) || lfree != old(lfree) ==> freeCount == 1
    {
      InterfereOnce(ops[n], mine);
      KeepsTrans(c, b0, s0, old(blocks), old(ram[..]), blocks, ram[..], None, None);
      assert ops[..n + 1] == ops[..n] + [ops[n]];
      ApplyOneMore(c, b0, ops[..n], ops[n], mine);
    }

    method InterfereOnce(op: EnvOp, mine: Option<nat>)
      requires Shape() && LfreeBelow(c, blocks, lfree)
      modifies this`blocks, this`lfree, this`used, this`illegal, this`freeCount, ram
      ensures Shape() && blocks == ApplyEnv(c, old(blocks), op, mine)
      ensures LfreeStep(c, old(blocks), old(lfree), blocks, lfree)
      ensures Keeps(c, old(blocks), old(ram[..]), blocks, ram[..], None)
      ensures illegal == old(illegal)
      ensures freeCount == old(freeCount) || freeCount == 1
      ensures blocks != old(blocks) || ram[..] != old(ram[..]) || lfree != old(lfree) ==> freeCount == 1
    {
      var live := IsLive(op.p);
      if mine != Some(op.p) && live {
        match op {
          case EnvFree(p) => Free(Some(p));
          case EnvTrim(p, want) => var _, _ := Trim(p, want);
        }
      } else {
        KeepsSelf(c, blocks, ram[..]);
      }
    }

    /** Whether p is a pointer some context owns; contexts only free and trim pointers they own. */
    method IsLive(p: nat) returns (live: bool)
      requires Shape()
      ensures live <==> Live(c, blocks, p)
      ensures live ==> c.hdr <= p < c.memSize
    {
      var cur := 0;
      ghost var i := 0;
      while cur != c.memSize
        invariant 0 <= i <= |blocks| && cur == if i < |blocks| then blocks[i].start else c.memSize
        invariant forall j | 0 <= j < i :: blocks[j].start + c.hdr != p
        decreases |blocks| - i
      {
        if i < |blocks| {
          ReadHdr(i);
          IndexOfStart(c, blocks, i);
        }
        if cur + c.hdr == p {
          return UsedAt(cur);
        }
        cur := NextAt(cur);
        i := i + 1;
      }
      if i < |blocks| { ReadHdr(i); }
      return false;
    }

    /** The index of lfree; everything below it is used. */
    lemma LfreeIndex() returns (f: nat)
      requires Shape() && LfreeBelow(c, blocks, lfree)
      ensures f <= |blocks| && lfree == if f < |blocks| then blocks[f].start else c.memSize
      ensures forall j | 0 <= j < f :: blocks[j].used
    {
      OrderedAll(c, blocks);
      if lfree == c.memSize {
        f := |blocks|;
        forall j | 0 <= j < f
          ensures blocks[j].used
        {
          var e := EndOf(c, blocks, j);
        }
      } else {
        f :| 0 <= f < |blocks| && blocks[f].start == lfree;
        forall j | 0 <= j < f
          ensures blocks[j].used
        {
          var e := EndOf(c, blocks, j);
        }
      }
    }

    /** Blocks that start too close to the end of the heap cannot hold size bytes. */
    lemma NoneFitsFrom(i: nat, size: nat)
      requires Shape() && i <= |blocks|
      requires i < |blocks| ==> blocks[i].start >= c.memSize - size
      ensures forall j | i <= j < |blocks| :: !Fits(c, blocks, j, size)
    {
      forall j | i <= j < |blocks|
        ensures !Fits(c, blocks, j, size)
      {
        Apart(c, blocks, i, j);
        Apart(c, blocks, j, j);
      }
    }

    /**
     * LWIP_MEM_ALLOC_UNPROTECT / PROTECT: other contexts run the next batch; the result says whether the scan must
     * restart.
     */
    method Yield(env: seq<seq<EnvOp>>, mine: Option<nat>)
      returns (disturbed: bool, rest: seq<seq<EnvOp>>, ghost ops: seq<EnvOp>)
      requires Shape() && LfreeBelow(c, blocks, lfree)
      modifies this`blocks, this`lfree, this`used, this`illegal, this`freeCount, ram
      ensures Shape() && Ran(c, mine, old(blocks), old(ram[..]), env, ops, blocks, ram[..], rest)
      ensures LfreeStep(c, old(blocks), old(lfree), blocks, lfree)
      ensures disturbed ==> |rest| < |env|
      ensures !disturbed ==> blocks == old(blocks) && ram[..] == old(ram[..]) && lfree == old(lfree)
      ensures illegal == old(illegal)
    {
      freeCount := 0;
      if env == [] {
        KeepsSelf(c, blocks, ram[..]);
        disturbed, rest, ops := false, [], [];
      } else {
        Interfere(env[0], mine);
        disturbed, rest, ops := freeCount != 0, env[1..], env[0];
      }
    }

    /** The size test of mem_malloc on the struct mem at cur, and the struct mem after it. */
    method Inspect(cur: nat, size: nat, ghost k: nat) returns (fits: bool, next: nat)
      requires ValidConfig(c) && Tiled(c, blocks) && Rep(c, ram[..], blocks) && k < |blocks| && blocks[k].start == cur
      ensures fits <==> Fits(c, blocks, k, size)
      ensures next == EndOf(c, blocks, k)
    {
      ReadHdr(k);
      next := NextAt(cur);
      fits := !UsedAt(cur) && next - (cur + c.hdr) >= size;
    }

    /** One round of the scan: let others run, then look at block k unless they disturbed the list. */
    method ScanStep(cur: nat, size: nat, env: seq<seq<EnvOp>>, ghost k: nat)
      returns (again: bool, fits: bool, next: nat, rest: seq<seq<EnvOp>>, ghost ops: seq<EnvOp>)
      requires Valid() && k < |blocks| && blocks[k].start == cur
      modifies this`blocks, this`lfree, this`used, this`illegal, this`freeCount, ram
      ensures Valid() && Ran(c, None, old(blocks), old(ram[..]), env, ops, blocks, ram[..], rest)
      ensures again ==> |rest| < |env|
      ensures !again ==> blocks == old(blocks) && ram[..] == old(ram[..]) && next == EndOf(c, blocks, k)
      ensures !again ==> (fits <==> Fits(c, blocks, k, size))
      ensures illegal == old(illegal)
    {
      fits, next := false, 0;
      again, rest, ops := Yield(env, None);
      if !again {
        fits, next := Inspect(cur, size, k);
      }
    }

    /** ScanStep as one more round after others ran `done` from list b0 and bytes s0. */
    method ScanRound(cur: nat, size: nat, env: seq<seq<EnvOp>>, ghost k: nat,
                     ghost e0: seq<seq<EnvOp>>, ghost done: seq<EnvOp>, ghost b0: seq<Block>, ghost s0: seq<byte>)
      returns (again: bool, fits: bool, next: nat, rest: seq<seq<EnvOp>>, ghost ops: seq<EnvOp>)
      requires Valid() && k < |blocks| && blocks[k].start == cur && Ran(c, None, b0, s0, e0, done, blocks, ram[..], env)
      modifies this`blocks, this`lfree, this`used, this`illegal, this`freeCount, ram
      ensures Valid() && Ran(c, None, b0, s0, e0, ops, blocks, ram[..], rest)
      ensures again ==> |rest| < |env|
      ensures !again ==> blocks == old(blocks) && ram[..] == old(ram[..]) && next == EndOf(c, blocks, k)
      ensures !again ==> (fits <==> Fits(c, blocks, k, size))
      ensures illegal == old(illegal)
    {
      again, fits, next, rest, ops := ScanStep(cur, size, env, k);
      RanTrans(c, None, b0, s0, e0, done, old(blocks), old(ram[..]), env, ops, blocks, ram[..], rest);
      ops := done + ops;
    }

    /** One scan of the list from lfree, given up when another context has freed or trimmed in between. */
    method ScanOnce(size: nat, env: seq<seq<EnvOp>>)
      returns (ptr: Option<nat>, again: bool, rest: seq<seq<EnvOp>>, ghost ops: seq<EnvOp>, ghost k: nat)
      requires Valid() && size <= c.memSize
      modifies this`blocks, this`lfree, this`used, this`illegal, this`freeCount, ram
      ensures Valid() && Ran(c, None, old(blocks), old(ram[..]), env, ops, blocks, ram[..], rest)
      ensures again ==> |rest| < |env|
      ensures !again ==> k == FirstFit(c, blocks, size, 0)
      ensures !again ==> ptr == if k < |blocks| then Some(blocks[k].start) else None
      ensures illegal == old(illegal)
    {
      ptr, again, rest, ops := None, false, env, [];
      RanNothing(c, None, blocks, ram[..], env);
      var cur := lfree;
      k := LfreeIndex();
      while cur < c.memSize - size
        invariant Valid() && k <= |blocks| && cur == if k < |blocks| then blocks[k].start else c.memSize
        invariant forall j | 0 <= j < k :: !Fits(c, blocks, j, size)
        invariant !again && blocks == old(blocks) && ram[..] == old(ram[..]) && illegal == old(illegal)
        invariant Ran(c, None, old(blocks), old(ram[..]), env, ops, blocks, ram[..], rest)
        decreases |blocks| - k
      {
        var fits, next;
        again, fits, next, rest, ops := ScanRound(cur, size, rest, k, env, ops, old(blocks), old(ram[..]));
        if again {
          return;
        }
        if fits {
          ptr := Some(cur);
          FirstFitIs(c, blocks, size, k);
          return;
        }
        cur, k := next, k + 1;
      }
      ScanFails(k, size);
      k := |blocks|;
    }

    /** The scan has come too close to the end of the heap. */
    lemma ScanFails(i: nat, size: nat)
      requires Shape() && i <= |blocks| && forall j | 0 <= j < i :: !Fits(c, blocks, j, size)
      requires i < |blocks| ==> blocks[i].start >= c.memSize - size
      ensures FirstFit(c, blocks, size, 0) == |blocks|
    {
      NoneFitsFrom(i, size);
      FirstFitIs(c, blocks, size, |blocks|);
    }

    /** The scan of mem_malloc, restarted until it ran undisturbed. */
    method FindFit(size: nat, env: seq<seq<EnvOp>>)
      returns (ptr: Option<nat>, rest: seq<seq<EnvOp>>, ghost ops: seq<EnvOp>, ghost k: nat)
      requires Valid() && size <= c.memSize
      modifies this`blocks, this`lfree, this`used, this`illegal, this`freeCount, ram
      ensures Valid() && Ran(c, None, old(blocks), old(ram[..]), env, ops, blocks, ram[..], rest)
      ensures k == FirstFit(c, blocks, size, 0) && ptr == if k < |blocks| then Some(blocks[k].start) else None
      ensures illegal == old(illegal)
    {
      var again := true;
      ptr, rest, ops, k := None, env, [], 0;
      RanNothing(c, None, blocks, ram[..], env);
      while again
        invariant Valid() && Ran(c, None, old(blocks), old(ram[..]), env, ops, blocks, ram[..], rest)
        invariant !again ==>
          k == FirstFit(c, blocks, size, 0) && ptr == if k < |blocks| then Some(blocks[k].start) else None
        invariant illegal == old(illegal)
        decreases again, |rest|
      {
        ghost var b, m, was, more := blocks, ram[..], rest, [];
        ptr, again, rest, more, k := ScanOnce(size, rest);
        RanTrans(c, None, old(blocks), old(ram[..]), env, ops, b, m, was, more, blocks, ram[..], rest);
        ops := ops + more;
      }
    }

    /** mem_malloc on the block it found: mark it used, split off what is left over, account. */
    method TakeBlock(ptr: nat, size: nat, ghost k: nat)
      requires Valid() && k < |blocks| && blocks[k].start == ptr && Fits(c, blocks, k, size)
      requires Aligned(c, size) && c.minSize <= size
      modifies this`blocks, this`used, ram
      ensures Shape() && blocks == Take(c, old(blocks), k, size)
      ensures LfreeBelow(c, blocks, lfree) && (lfree == ptr || LfreeExact(c, blocks, lfree))
      ensures Keeps(c, old(blocks), old(ram[..]), blocks, ram[..], Some(ptr))
    {
      ReadHdr(k);
      TakenLfree(c, blocks, k, size, lfree);
      TakeWellFormed(c, blocks, k, size);
      SetUsedUsedBytes(c, blocks, k, true);
      var next := NextAt(ptr);
      Mark(ptr, true, k);
      if next - (ptr + c.hdr) >= size + c.hdr + c.minSize {
        SplitTaken(ptr, ptr + c.hdr + size, next, k);
        used := used + size + c.hdr;
      } else {
        used := used + (next - ptr);
      }
    }

    /** Write the free remainder behind the block just taken. */
    method SplitTaken(ptr: nat, at: nat, next: nat, ghost k: nat)
      requires ValidConfig(c) && Tiled(c, blocks) && Rep(c, ram[..], blocks)
      requires k < |blocks| && blocks[k].used && blocks[k].start == ptr && next == EndOf(c, blocks, k)
      requires ptr + c.hdr + c.minSize <= at && at + c.hdr + c.minSize <= next
      modifies this`blocks, ram
      ensures blocks == Insert(old(blocks), k, at) && Rep(c, ram[..], blocks)
      ensures UsedBytes(c, blocks) == UsedBytes(c, old(blocks)) - (next - at)
      ensures forall b, s | Keeps(c, b, s, old(blocks), old(ram[..]), Some(ptr)) ::
        Keeps(c, b, s, blocks, ram[..], Some(ptr))
    {
      Apart(c, blocks, k, k);
      Link(ptr, at, next);
      SplitRep(c, old(ram[..]), blocks, k, at, ram[..]);
      SplitKeeps(c, old(ram[..]), blocks, k, at, ram[..]);
      InsertedUsedBytes(c, blocks, k, at);
      blocks := Insert(blocks, k, at);
      forall b, s | Keeps(c, b, s, old(blocks), old(ram[..]), Some(ptr))
        ensures Keeps(c, b, s, blocks, ram[..], Some(ptr))
      {
        KeepsTrans(c, b, s, old(blocks), old(ram[..]), blocks, ram[..], Some(ptr), None);
      }
    }

    /** One round of the lfree update: let others run, then step from block i to the next one. */
    method SeekStep(cur: nat, env: seq<seq<EnvOp>>, mine: Option<nat>, ghost i: nat)
      returns (again: bool, next: nat, stop: bool, rest: seq<seq<EnvOp>>, ghost ops: seq<EnvOp>)
      requires Shape() && LfreeBelow(c, blocks, lfree) && i < |blocks| && cur == blocks[i].start
      modifies this`blocks, this`lfree, this`used, this`illegal, this`freeCount, ram
      ensures Shape() && Ran(c, mine, old(blocks), old(ram[..]), env, ops, blocks, ram[..], rest)
      ensures LfreeStep(c, old(blocks), old(lfree), blocks, lfree)
      ensures again ==> |rest| < |env|
      ensures !again ==> blocks == old(blocks) && ram[..] == old(ram[..]) && lfree == old(lfree)
      ensures !again ==> next == EndOf(c, blocks, i) && (stop <==> i + 1 == |blocks| || !blocks[i + 1].used)
      ensures illegal == old(illegal)
    {
      next, stop := 0, true;
      again, rest, ops := Yield(env, mine);
      if !again {
        next := Following(cur, i);
        stop := StopsAt(next, i + 1);
      }
    }

    /** The walk has come to block i at cur, or to ram_end; everything below is used, and it stops if this is free. */
    ghost predicate Walked(cur: nat, i: nat, stop: bool)
      reads `blocks
    {
      && i <= |blocks| && cur == (if i < |blocks| then blocks[i].start else c.memSize)
      && (stop <==> i == |blocks| || !blocks[i].used)
      && forall j | 0 <= j < i :: blocks[j].used
    }

    /** SeekStep as one more round after others ran `done` from list b0 and bytes s0. */
    method SeekRound(cur: nat, env: seq<seq<EnvOp>>, mine: Option<nat>, ghost i: nat,
                     ghost e0: seq<seq<EnvOp>>, ghost done: seq<EnvOp>, ghost b0: seq<Block>, ghost s0: seq<byte>)
      returns (again: bool, next: nat, stop: bool, rest: seq<seq<EnvOp>>, ghost ops: seq<EnvOp>)
      requires Shape() && LfreeBelow(c, blocks, lfree) && Walked(cur, i, false)
      requires Ran(c, mine, b0, s0, e0, done, blocks, ram[..], env)
      modifies this`blocks, this`lfree, this`used, this`illegal, this`freeCount, ram
      ensures Shape() && Ran(c, mine, b0, s0, e0, ops, blocks, ram[..], rest)
      ensures LfreeStep(c, old(blocks), old(lfree), blocks, lfree)
      ensures again ==> |rest| < |env|
      ensures !again ==> blocks == old(blocks) && ram[..] == old(ram[..]) && lfree == old(lfree)
      ensures !again ==> i < |blocks| && Walked(next, i + 1, stop)
      ensures illegal == old(illegal)
    {
      again, next, stop, rest, ops := SeekStep(cur, env, mine, i);
      RanTrans(c, mine, b0, s0, e0, done, old(blocks), old(ram[..]), env, ops, blocks, ram[..], rest);
      ops := done + ops;
    }

    /** One walk of the lfree update: from lfree to the next free block, given up when disturbed. */
    method SeekFree(env: seq<seq<EnvOp>>, mine: Option<nat>)
      returns (again: bool, rest: seq<seq<EnvOp>>, ghost ops: seq<EnvOp>)
      requires Shape() && LfreeBelow(c, blocks, lfree)
      modifies this`blocks, this`lfree, this`used, this`illegal, this`freeCount, ram
      ensures Shape() && Ran(c, mine, old(blocks), old(ram[..]), env, ops, blocks, ram[..], rest)
      ensures again ==> |rest| < |env| && LfreeStep(c, old(blocks), old(lfree), blocks, lfree)
      ensures !again ==> LfreeExact(c, blocks, lfree)
      ensures illegal == old(illegal)
    {
      ghost var i: nat := LfreeIndex();
      var cur;
      again, cur, rest, ops, i := SeekFrom(lfree, env, mine, i);
      if !again {
        SetLfree(cur, i);
      }
    }

    /** The walk from block i at cur, below which everything is used, to the first free one. */
    method SeekFrom(start: nat, env: seq<seq<EnvOp>>, mine: Option<nat>, ghost k: nat)
      returns (again: bool, cur: nat, rest: seq<seq<EnvOp>>, ghost ops: seq<EnvOp>, ghost i: nat)
      requires Shape() && LfreeBelow(c, blocks, lfree)
      requires k <= |blocks| && start == if k < |blocks| then blocks[k].start else c.memSize
      requires forall j | 0 <= j < k :: blocks[j].used
      modifies this`blocks, this`lfree, this`used, this`illegal, this`freeCount, ram
      ensures Shape() && Ran(c, mine, old(blocks), old(ram[..]), env, ops, blocks, ram[..], rest)
      ensures illegal == old(illegal)
      ensures again ==> |rest| < |env| && LfreeStep(c, old(blocks), old(lfree), blocks, lfree)
      ensures !again ==> blocks == old(blocks) && ram[..] == old(ram[..]) && lfree == old(lfree)
      ensures !again ==> Walked(cur, i, true)
    {
      again, cur, rest, ops, i := false, start, env, [], k;
      RanNothing(c, mine, blocks, ram[..], env);
      var stop := StopsAt(cur, i);
      while !stop
        invariant Shape() && Walked(cur, i, stop)
        invariant !again && blocks == old(blocks) && ram[..] == old(ram[..]) && lfree == old(lfree)
        invariant illegal == old(illegal)
        invariant Ran(c, mine, old(blocks), old(ram[..]), env, ops, blocks, ram[..], rest)
        decreases |blocks| - i
      {
        var next;
        again, next, stop, rest, ops := SeekRound(cur, rest, mine, i, env, ops, old(blocks), old(ram[..]));
        if again {
          return;
        }
        cur, i := next, i + 1;
      }
    }

    method SetLfree(cur: nat, ghost i: nat)
      requires ValidConfig(c) && Tiled(c, blocks) && Walked(cur, i, true)
      modifies this`lfree
      ensures LfreeExact(c, blocks, lfree)
    {
      FirstFreeExact(i);
      lfree := cur;
    }

    lemma FirstFreeExact(i: nat)
      requires ValidConfig(c) && Tiled(c, blocks) && i <= |blocks|
      requires forall j | 0 <= j < i :: blocks[j].used
      requires i < |blocks| ==> !blocks[i].used
      ensures LfreeExact(c, blocks, if i < |blocks| then blocks[i].start else c.memSize)
    {
      if i < |blocks| {
        forall j | 0 <= j < |blocks| && !blocks[j].used
          ensures blocks[i].start <= blocks[j].start
        {
          Apart(c, blocks, i, j);
        }
      }
    }

    /** The loop test `cur->used && cur != ram_end`, negated. */
    method StopsAt(cur: nat, ghost i: nat) returns (stop: bool)
      requires ValidConfig(c) && Tiled(c, blocks) && Rep(c, ram[..], blocks)
      requires i <= |blocks| && cur == if i < |blocks| then blocks[i].start else c.memSize
      ensures stop <==> (i == |blocks| || !blocks[i].used)
    {
      if i < |blocks| { ReadHdr(i); }
      stop := !(UsedAt(cur) && cur != c.memSize);
    }

    method Following(cur: nat, ghost i: nat) returns (next: nat)
      requires ValidConfig(c) && Tiled(c, blocks) && Rep(c, ram[..], blocks) && i < |blocks| && cur == blocks[i].start
      ensures next == EndOf(c, blocks, i)
    {
      ReadHdr(i);
      next := NextAt(cur);
    }

    /** mem_malloc_adjust_lfree: restarted while another context disturbs it and lfree is still the block just taken. */
    method AdjustLfree(mem: nat, env: seq<seq<EnvOp>>, mine: Option<nat>)
      returns (rest: seq<seq<EnvOp>>, ghost ops: seq<EnvOp>)
      requires Shape() && LfreeBelow(c, blocks, lfree) && (lfree == mem || LfreeExact(c, blocks, lfree))
      modifies this`blocks, this`lfree, this`used, this`illegal, this`freeCount, ram
      ensures Valid() && Ran(c, mine, old(blocks), old(ram[..]), env, ops, blocks, ram[..], rest)
      ensures illegal == old(illegal)
    {
      rest, ops := env, [];
      RanNothing(c, mine, blocks, ram[..], env);
      var again := true;
      while again && lfree == mem
        invariant Shape() && LfreeBelow(c, blocks, lfree) && ((lfree == mem && again) || LfreeExact(c, blocks, lfree))
        invariant Ran(c, mine, old(blocks), old(ram[..]), env, ops, blocks, ram[..], rest)
        invariant illegal == old(illegal)
        decreases again, |rest|
      {
        ghost var b, m, was, more := blocks, ram[..], rest, [];
        again, rest, more := SeekFree(rest, mine);
        RanTrans(c, mine, old(blocks), old(ram[..]), env, ops, b, m, was, more, blocks, ram[..], rest);
        ops := ops + more;
      }
    }

    /** Take the chosen block and bring lfree up to date. */
    method Grant(ptr: nat, size: nat, env: seq<seq<EnvOp>>, ghost k: nat, ghost bs: seq<Block>, ghost s: seq<byte>)
      returns (rest: seq<seq<EnvOp>>, ghost post: seq<EnvOp>)
      requires Valid() && k < |blocks| && blocks[k].start == ptr && k == FirstFit(c, blocks, size, 0)
      requires Aligned(c, size) && c.minSize <= size && Keeps(c, bs, s, blocks, ram[..], None)
      modifies this`blocks, this`lfree, this`used, this`illegal, this`freeCount, ram
      ensures Valid() && Flatten(env) == post + Flatten(rest)
      ensures Allocated(c, old(blocks), size, Some(ptr), post, blocks)
      ensures Keeps(c, bs, s, blocks, ram[..], Some(ptr))
      ensures illegal == old(illegal)
    {
      TakeBlock(ptr, size, k);
      ghost var b, m := blocks, ram[..];
      rest, post := AdjustLfree(ptr, env, Some(ptr + c.hdr));
      KeepsTrans(c, bs, s, old(blocks), old(ram[..]), b, m, None, Some(ptr));
      KeepsTrans(c, bs, s, b, m, blocks, ram[..], Some(ptr), None);
      AllocatedIntro(c, old(blocks), size, Some(ptr), post, blocks, k);
    }

    /** The locked part of mem_malloc for a rounded size. */
    method Allocate(size: nat, env: seq<seq<EnvOp>>)
      returns (ptr: Option<nat>, rest: seq<seq<EnvOp>>, ghost pre: seq<EnvOp>, ghost post: seq<EnvOp>)
      requires Valid() && Aligned(c, size) && c.minSize <= size <= c.memSize
      modifies this`blocks, this`lfree, this`used, this`illegal, this`freeCount, ram
      ensures Valid() && Flatten(env) == pre + (post + Flatten(rest))
      ensures Allocated(c, ApplyAll(c, old(blocks), pre, None), size, ptr, post, blocks)
      ensures Keeps(c, old(blocks), old(ram[..]), blocks, ram[..], ptr)
      ensures illegal == old(illegal)
    {
      ghost var k;
      ptr, rest, pre, k := FindFit(size, env);
      ghost var mid := blocks;
      post := [];
      if ptr.Some? {
        rest, post := Grant(ptr.value, size, rest, k, old(blocks), old(ram[..]));
      } else {
        AllocatedIntro(c, mid, size, ptr, post, blocks, k);
      }
    }

    /**
     * mem_malloc, with `env` giving what other contexts do at its successive unprotect points (an empty schedule is
     * the build without LWIP_ALLOW_MEM_FREE_FROM_OTHER_CONTEXT).  It is linearizable: the outcome is the one of an
     * uninterrupted first-fit allocation after `pre` and before `post`.
     */
    method Malloc(want: u16, env: seq<seq<EnvOp>>)
      returns (r: Option<nat>, rest: seq<seq<EnvOp>>, ghost pre: seq<EnvOp>, ghost post: seq<EnvOp>)
      requires Valid()
      modifies this`blocks, this`lfree, this`used, this`illegal, this`freeCount, this`err, ram
      ensures Valid() && Flatten(env) == pre + (post + Flatten(rest))
      ensures Linearized(c, old(blocks), pre, want, r, post, blocks)
      ensures Keeps(c, old(blocks), old(ram[..]), blocks, ram[..], if r.Some? then Some(r.value - c.hdr) else None)
      ensures err == old(err) + if r.None? && want != 0 && !Refused(c, want) then 1 else 0
      ensures illegal == old(illegal)
    {
      if want == 0 || Refused(c, want) {
        r, rest, pre, post := None, env, [], [];
        RefusedLinearized(c, blocks, want);
        KeepsSelf(c, blocks, ram[..]);
        assert [] + ([] + Flatten(env)) == Flatten(env);
        return;
      }
      r, rest, pre, post := AllocateRounded(want, env);
      err := err + if r.None? then 1 else 0;
    }

    method AllocateRounded(want: u16, env: seq<seq<EnvOp>>)
      returns (r: Option<nat>, rest: seq<seq<EnvOp>>, ghost pre: seq<EnvOp>, ghost post: seq<EnvOp>)
      requires Valid() && want != 0 && !Refused(c, want)
      modifies this`blocks, this`lfree, this`used, this`illegal, this`freeCount, ram
      ensures Valid() && Flatten(env) == pre + (post + Flatten(rest))
      ensures Linearized(c, old(blocks), pre, want, r, post, blocks)
      ensures Keeps(c, old(blocks), old(ram[..]), blocks, ram[..], if r.Some? then Some(r.value - c.hdr) else None)
      ensures illegal == old(illegal)
    {
      RoundedSound(c, want);
      var ptr;
      ptr, rest, pre, post := Allocate(Rounded(c, want), env);
      AllocatedLinearized(c, old(blocks), pre, want, ptr, post, blocks);
      r := if ptr.Some? then Some(ptr.value + c.hdr) else None;
      assert ptr == if r.Some? then Some(r.value - c.hdr) else None;
    }
  }
}
