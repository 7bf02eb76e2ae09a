/**
 * Whole runs of the heap: what every sequence of mem_malloc, mem_free and mem_trim calls from mem_init keeps true.
 */
module MemRuns {
  import opened Common
  import opened MemModel
  import MemBytes
  import opened MemHeap

  /** Pointer p is live in bs with n bytes of data. */
  ghost predicate LiveWith(c: Config, bs: seq<Block>, p: int, n: int) {
    exists i {:trigger Payload(c, bs, i)} ::
      0 <= i < |bs| && bs[i].used && bs[i].start + c.hdr == p && Payload(c, bs, i) == n
  }

  /** The two lists have the same live pointers with the same sizes, except perhaps for p. */
  ghost predicate SameLiveBut(c: Config, bs: seq<Block>, ns: seq<Block>, p: int) {
    forall q: int, n: int | q != p :: LiveWith(c, bs, q, n) <==> LiveWith(c, ns, q, n)
  }

  lemma LiveIsLiveWith(c: Config, bs: seq<Block>, p: int)
    requires ValidConfig(c) && Tiled(c, bs)
    ensures Live(c, bs, p) <==> exists n: int :: LiveWith(c, bs, p, n)
    ensures Live(c, bs, p) ==> LiveWith(c, bs, p, Payload(c, bs, IndexOf(bs, p - c.hdr)))
    ensures forall n | LiveWith(c, bs, p, n) :: n == Payload(c, bs, IndexOf(bs, p - c.hdr))
  {
    var k := IndexOf(bs, p - c.hdr);
    if Live(c, bs, p) {
      var m := Payload(c, bs, k);
      assert LiveWith(c, bs, p, m);
    }
    forall n | LiveWith(c, bs, p, n)
      ensures Live(c, bs, p) && n == Payload(c, bs, k)
    {
      var i :| 0 <= i < |bs| && bs[i].used && bs[i].start + c.hdr == p && Payload(c, bs, i) == n;
      IndexOfStart(c, bs, i);
    }
  }

  /** If every index of one list that is not p's has a twin in the other, and vice versa, only p may differ. */
  lemma SetUsedLive(c: Config, bs: seq<Block>, k: nat, used: bool)
    requires k < |bs|
    ensures SameLiveBut(c, bs, SetUsed(bs, k, used), bs[k].start + c.hdr)
  {
    var ns := SetUsed(bs, k, used);
    forall q: int, n: int | q != bs[k].start + c.hdr
      ensures LiveWith(c, bs, q, n) <==> LiveWith(c, ns, q, n)
    {
      if LiveWith(c, bs, q, n) {
        var i :| 0 <= i < |bs| && bs[i].used && bs[i].start + c.hdr == q && Payload(c, bs, i) == n;
        assert Payload(c, ns, i) == n;
      }
      if LiveWith(c, ns, q, n) {
        var i :| 0 <= i < |ns| && ns[i].used && ns[i].start + c.hdr == q && Payload(c, ns, i) == n;
        assert Payload(c, bs, i) == n;
      }
    }
  }

  lemma WithoutLive(c: Config, bs: seq<Block>, j: nat, p: int)
    requires 0 < j < |bs| && !bs[j - 1].used && !bs[j].used
    ensures SameLiveBut(c, bs, Without(bs, j), p)
  {
    var ns := Without(bs, j);
    forall q: int, n: int | q != p
      ensures LiveWith(c, bs, q, n) <==> LiveWith(c, ns, q, n)
    {
      if LiveWith(c, bs, q, n) {
        var i :| 0 <= i < |bs| && bs[i].used && bs[i].start + c.hdr == q && Payload(c, bs, i) == n;
        var o := if i < j then i else i - 1;
        assert ns[o] == bs[i] && Payload(c, ns, o) == n;
      }
      if LiveWith(c, ns, q, n) {
        var i :| 0 <= i < |ns| && ns[i].used && ns[i].start + c.hdr == q && Payload(c, ns, i) == n;
        var o := if i < j then i else i + 1;
        assert ns[i] == bs[o] && Payload(c, bs, o) == n;
      }
    }
  }

  lemma InsertLive(c: Config, bs: seq<Block>, k: nat, at: nat)
    requires k < |bs|
    ensures SameLiveBut(c, bs, Insert(bs, k, at), bs[k].start + c.hdr)
  {
    var ns := Insert(bs, k, at);
    forall q: int, n: int | q != bs[k].start + c.hdr
      ensures LiveWith(c, bs, q, n) <==> LiveWith(c, ns, q, n)
    {
      if LiveWith(c, bs, q, n) {
        var i :| 0 <= i < |bs| && bs[i].used && bs[i].start + c.hdr == q && Payload(c, bs, i) == n;
        var o := if i < k then i else i + 1;
        assert ns[o] == bs[i] && Payload(c, ns, o) == n;
      }
      if LiveWith(c, ns, q, n) {
        var i :| 0 <= i < |ns| && ns[i].used && ns[i].start + c.hdr == q && Payload(c, ns, i) == n;
        var o := if i < k then i else i - 1;
        assert ns[i] == bs[o] && Payload(c, bs, o) == n;
      }
    }
  }

  lemma MoveLive(c: Config, bs: seq<Block>, k: nat, at: nat)
    requires k + 1 < |bs| && !bs[k + 1].used
    ensures SameLiveBut(c, bs, bs[k + 1 := Block(at, false)], bs[k].start + c.hdr)
  {
    var ns := bs[k + 1 := Block(at, false)];
    forall q: int, n: int | q != bs[k].start + c.hdr
      ensures LiveWith(c, bs, q, n) <==> LiveWith(c, ns, q, n)
    {
      if LiveWith(c, bs, q, n) {
        var i :| 0 <= i < |bs| && bs[i].used && bs[i].start + c.hdr == q && Payload(c, bs, i) == n;
        assert Payload(c, ns, i) == n;
      }
      if LiveWith(c, ns, q, n) {
        var i :| 0 <= i < |ns| && ns[i].used && ns[i].start + c.hdr == q && Payload(c, ns, i) == n;
        assert Payload(c, bs, i) == n;
      }
    }
  }

  // ---- the effect of each operation on the live pointers ----

  /** mem_malloc hands out one new pointer, of at least the requested size, and leaves the others alone. */
  lemma MallocLive(c: Config, bs: seq<Block>, want: u16)
    requires ValidConfig(c) && WellFormed(c, bs)
    ensures var (ns, r) := MallocBlocks(c, bs, want);
      && (r.None? ==> ns == bs)
      && (r.Some? ==> !Live(c, bs, r.value) && SameLiveBut(c, bs, ns, r.value)
                      && exists n :: LiveWith(c, ns, r.value, n) && want <= n)
  {
    var (ns, r) := MallocBlocks(c, bs, want);
    if r.Some? {
      RoundedSound(c, want);
      var size := Rounded(c, want);
      var k := FirstFit(c, bs, size, 0);
      IndexOfStart(c, bs, k);
      TakeLive(c, bs, k, size);
    }
  }

  lemma TakeLive(c: Config, bs: seq<Block>, k: nat, size: nat)
    requires k < |bs| && Fits(c, bs, k, size)
    ensures SameLiveBut(c, bs, Take(c, bs, k, size), bs[k].start + c.hdr)
    ensures var ns, p := Take(c, bs, k, size), bs[k].start + c.hdr;
      exists n :: LiveWith(c, ns, p, n) && size <= n
  {
    var ns, p := Take(c, bs, k, size), bs[k].start + c.hdr;
    var s := SetUsed(bs, k, true);
    SetUsedLive(c, bs, k, true);
    InsertLive(c, s, k, bs[k].start + c.hdr + size);
    var n := Payload(c, ns, k);
    assert LiveWith(c, ns, p, n);
  }

  /** mem_free retires exactly the freed pointer. */
  lemma FreeLive(c: Config, bs: seq<Block>, p: int)
    requires ValidConfig(c) && WellFormed(c, bs)
    ensures SameLiveBut(c, bs, FreeBlocks(c, bs, p), p) && !Live(c, FreeBlocks(c, bs, p), p)
  {
    if Live(c, bs, p) {
      ReleaseLive(c, bs, IndexOf(bs, p - c.hdr), p);
    }
  }

  lemma ReleaseLive(c: Config, bs: seq<Block>, k: nat, p: int)
    requires ValidConfig(c) && WellFormed(c, bs) && k < |bs| && bs[k].used && p == bs[k].start + c.hdr
    ensures SameLiveBut(c, bs, Release(bs, k), p) && !Live(c, Release(bs, k), p)
  {
    var a := SetUsed(bs, k, false);
    SetUsedLive(c, bs, k, false);
    SetUsedTiled(c, bs, k, false);
    PlugLive(c, a, k, p);
    ReleaseWellFormed(c, bs, k);
    NotLive(c, bs, a, k, p);
  }

  lemma PlugLive(c: Config, bs: seq<Block>, k: nat, p: int)
    requires k < |bs| && !bs[k].used
    ensures forall q: int, n: int :: LiveWith(c, bs, q, n) <==> LiveWith(c, Plug(bs, k), q, n)
  {
    var f := if k + 1 < |bs| && !bs[k + 1].used then Without(bs, k + 1) else bs;
    if k + 1 < |bs| && !bs[k + 1].used {
      WithoutLive(c, bs, k + 1, 0);
      WithoutLive(c, bs, k + 1, 1);
    }
    assert forall q: int, n: int :: LiveWith(c, bs, q, n) <==> LiveWith(c, f, q, n);
    if 0 < k && !f[k - 1].used {
      WithoutLive(c, f, k, 0);
      WithoutLive(c, f, k, 1);
    }
  }

  lemma NotLive(c: Config, bs: seq<Block>, a: seq<Block>, k: nat, p: int)
    requires ValidConfig(c) && k < |bs| && a == SetUsed(bs, k, false) && p == bs[k].start + c.hdr && Tiled(c, a)
    requires WellFormed(c, Plug(a, k))
    ensures !Live(c, Plug(a, k), p)
  {
    PlugLive(c, a, k, p);
    LiveIsLiveWith(c, a, p);
    LiveIsLiveWith(c, Plug(a, k), p);
    IndexOfStart(c, a, k);
  }

  /** mem_trim keeps every pointer live; the trimmed one still holds the new size. */
  lemma TrimLive(c: Config, bs: seq<Block>, p: int, want: u16)
    requires ValidConfig(c) && WellFormed(c, bs)
    ensures var ns := TrimBlocks(c, bs, p, want);
      SameLiveBut(c, bs, ns, p) && (Trimmable(c, bs, p, want) ==> exists n :: LiveWith(c, ns, p, n) && want <= n)
  {
    RoundedSound(c, want);
    if Trimmable(c, bs, p, want) {
      ShrinkLive(c, bs, IndexOf(bs, p - c.hdr), Rounded(c, want));
    }
  }

  lemma ShrinkLive(c: Config, bs: seq<Block>, k: nat, size: nat)
    requires k < |bs| && bs[k].used && size <= Payload(c, bs, k)
    ensures SameLiveBut(c, bs, Shrink(c, bs, k, size), bs[k].start + c.hdr)
    ensures var ns, p := Shrink(c, bs, k, size), bs[k].start + c.hdr;
      exists n :: LiveWith(c, ns, p, n) && size <= n
  {
    var at := bs[k].start + c.hdr + size;
    var ns, p := Shrink(c, bs, k, size), bs[k].start + c.hdr;
    if k + 1 < |bs| && !bs[k + 1].used {
      MoveLive(c, bs, k, at);
    }
    InsertLive(c, bs, k, at);
    var n := Payload(c, ns, k);
    assert LiveWith(c, ns, p, n);
  }

  // ---- runs ----

  datatype Op = DoMalloc(want: u16) | DoFree(p: nat) | DoTrim(p: nat, want: u16)

  /** The block list together with the sizes the owners of the live pointers asked for. */
  datatype State = State(blocks: seq<Block>, req: map<int, nat>)

  function Init(): State { State([Block(0, false)], map[]) }

  /** One call; frees and trims of pointers that are not live are refused by the checks and change nothing. */
  function Step(c: Config, s: State, op: Op): State
    requires 0 < c.align
  {
    match op
    case DoMalloc(want) =>
      var (ns, r) := MallocBlocks(c, s.blocks, want);
      State(ns, if r.Some? then s.req[r.value := want] else s.req)
    case DoFree(p) => State(FreeBlocks(c, s.blocks, p), s.req - {p})
    case DoTrim(p, want) =>
      State(TrimBlocks(c, s.blocks, p, want), if Trimmable(c, s.blocks, p, want) then s.req[p := want] else s.req)
  }

  function Run(c: Config, ops: seq<Op>): State
    requires 0 < c.align
  {
    if ops == [] then Init() else Step(c, Run(c, ops[..|ops| - 1]), ops[|ops| - 1])
  }

  /** The list is well formed and the live pointers are exactly the handed-out ones, each with room for its request. */
  ghost predicate Inv(c: Config, s: State)
    requires 0 < c.align
  {
    && WellFormed(c, s.blocks)
    && (forall p: int, n: int | LiveWith(c, s.blocks, p, n) :: p in s.req && s.req[p] <= n)
    && (forall p | p in s.req :: exists n: int :: LiveWith(c, s.blocks, p, n))
  }

  lemma InitInv(c: Config)
    requires ValidConfig(c)
    ensures Inv(c, Init())
  {
    var bs := Init().blocks;
    assert EndOf(c, bs, 0) == c.memSize;
    forall p: int, n: int
      ensures !LiveWith(c, bs, p, n)
    {
    }
  }

  lemma UniqueSize(c: Config, bs: seq<Block>, p: int, n: int, m: int)
    requires ValidConfig(c) && Tiled(c, bs) && LiveWith(c, bs, p, n) && LiveWith(c, bs, p, m)
    ensures n == m
  {
    LiveIsLiveWith(c, bs, p);
  }

  /** The invariant transfers when only pointer p changes hands. */
  lemma InvTransfer(c: Config, s: State, t: State, p: int)
    requires ValidConfig(c) && Inv(c, s) && WellFormed(c, t.blocks) && SameLiveBut(c, s.blocks, t.blocks, p)
    requires forall q | q != p :: (q in t.req <==> q in s.req) && (q in s.req ==> t.req[q] == s.req[q])
    requires p in t.req ==> exists n :: LiveWith(c, t.blocks, p, n) && t.req[p] <= n
    requires p !in t.req ==> !Live(c, t.blocks, p)
    ensures Inv(c, t)
  {
    LiveIsLiveWith(c, t.blocks, p);
    forall q: int, n: int | LiveWith(c, t.blocks, q, n)
      ensures q in t.req && t.req[q] <= n
    {
      if q == p {
        var m :| LiveWith(c, t.blocks, p, m) && t.req[p] <= m;
        UniqueSize(c, t.blocks, p, n, m);
      } else {
        assert LiveWith(c, s.blocks, q, n);
      }
    }
    forall q | q in t.req
      ensures exists n: int :: LiveWith(c, t.blocks, q, n)
    {
      if q != p {
        var n :| LiveWith(c, s.blocks, q, n);
        assert LiveWith(c, t.blocks, q, n);
      }
    }
  }

  lemma StepInv(c: Config, s: State, op: Op)
    requires ValidConfig(c) && Inv(c, s)
    ensures Inv(c, Step(c, s, op))
  {
    var t := Step(c, s, op);
    match op {
      case DoMalloc(want) =>
        MallocKeepsWellFormed(c, s.blocks, want);
        MallocLive(c, s.blocks, want);
        var r := MallocBlocks(c, s.blocks, want).1;
        if r.Some? {
          InvTransfer(c, s, t, r.value);
        }
      case DoFree(p) =>
        FreeKeepsWellFormed(c, s.blocks, p);
        FreeLive(c, s.blocks, p);
        InvTransfer(c, s, t, p);
      case DoTrim(p, want) =>
        TrimKeepsWellFormed(c, s.blocks, p, want);
        TrimLive(c, s.blocks, p, want);
        if Trimmable(c, s.blocks, p, want) {
          InvTransfer(c, s, t, p);
        }
    }
  }

  /** Every run from mem_init keeps the heap well formed and every handed-out pointer live and large enough. */
  lemma {:induction false} RunKeepsInvariant(c: Config, ops: seq<Op>)
    requires ValidConfig(c)
    ensures Inv(c, Run(c, ops))
  {
    if ops == [] {
      InitInv(c);
    } else {
      RunKeepsInvariant(c, ops[..|ops| - 1]);
      StepInv(c, Run(c, ops[..|ops| - 1]), ops[|ops| - 1]);
    }
  }

  /** Two live payloads of a run never overlap; each is aligned, inside the heap and at least as long as requested. */
  lemma LivePayloadsDisjoint(c: Config, ops: seq<Op>, p: int, n: int, q: int, m: int)
    requires ValidConfig(c)
    requires LiveWith(c, Run(c, ops).blocks, p, n) && LiveWith(c, Run(c, ops).blocks, q, m) && p != q
    ensures p + n <= q || q + m <= p
    ensures p % c.align == 0 && c.hdr <= p && p + n <= c.memSize
    ensures p in Run(c, ops).req && Run(c, ops).req[p] <= n
  {
    RunKeepsInvariant(c, ops);
    LiveDisjoint(c, Run(c, ops).blocks, p, n, q, m);
  }

  lemma LiveDisjoint(c: Config, bs: seq<Block>, p: int, n: int, q: int, m: int)
    requires ValidConfig(c) && Tiled(c, bs) && LiveWith(c, bs, p, n) && LiveWith(c, bs, q, m) && p != q
    ensures p + n <= q || q + m <= p
    ensures p % c.align == 0 && c.hdr <= p && p + n <= c.memSize
  {
    var i :| 0 <= i < |bs| && bs[i].used && bs[i].start + c.hdr == p && Payload(c, bs, i) == n;
    var j :| 0 <= j < |bs| && bs[j].used && bs[j].start + c.hdr == q && Payload(c, bs, j) == m;
    MemBytes.Apart(c, bs, i, j);
    AlignedAfter(c, bs, i, 0);
    AlignedIsRemainderZero(c, bs[i].start + c.hdr);
  }

  /** Once every pointer has been freed, the heap is one free block again, as after mem_init. */
  lemma AllFreedRestoresInit(c: Config, ops: seq<Op>)
    requires ValidConfig(c) && Run(c, ops).req == map[]
    ensures Run(c, ops).blocks == Init().blocks
  {
    RunKeepsInvariant(c, ops);
    var bs := Run(c, ops).blocks;
    forall i | 0 <= i < |bs|
      ensures !bs[i].used
    {
      if bs[i].used {
        assert LiveWith(c, bs, bs[i].start + c.hdr, Payload(c, bs, i));
      }
    }
    assert |bs| > 1 ==> Separated(bs, 1);
    assert bs == [bs[0]];
  }

  /** Freeing right after a successful mem_malloc: the list is back to what it was. */
  lemma FreeUndoesMalloc(c: Config, bs: seq<Block>, want: u16)
    requires ValidConfig(c) && WellFormed(c, bs)
    ensures var (ns, r) := MallocBlocks(c, bs, want);
      r.Some? ==> FreeBlocks(c, ns, r.value) == bs
  {
    var (ns, r) := MallocBlocks(c, bs, want);
    if r.Some? {
      MallocKeepsWellFormed(c, bs, want);
      var k := FirstFit(c, bs, Rounded(c, want), 0);
      ReleaseUndoesTake(c, bs, k, Rounded(c, want));
      FreedIndex(c, bs, ns, k);
    }
  }

  /** The block just taken is found again under its data pointer. */
  lemma FreedIndex(c: Config, bs: seq<Block>, ns: seq<Block>, k: nat)
    requires ValidConfig(c) && WellFormed(c, ns) && k < |bs| && k < |ns| && ns[k] == Block(bs[k].start, true)
    ensures FreeBlocks(c, ns, bs[k].start + c.hdr) == Release(ns, k)
  {
    IndexOfStart(c, ns, k);
  }

  lemma ReleaseUndoesTake(c: Config, bs: seq<Block>, k: nat, size: nat)
    requires 0 < c.align && WellFormed(c, bs) && k < |bs| && Fits(c, bs, k, size)
    ensures Release(Take(c, bs, k, size), k) == bs
  {
    var ns := Take(c, bs, k, size);
    assert 0 < k ==> Separated(bs, k) && ns[k - 1] == bs[k - 1];
    assert k + 1 < |bs| ==> Separated(bs, k + 1);
    var a := SetUsed(ns, k, false);
    if Payload(c, bs, k) >= size + c.hdr + c.minSize {
      assert Without(a, k + 1) == bs;
    } else {
      assert a == bs;
    }
  }

  /** Whatever other contexts do meanwhile, the block a running mem_malloc has taken stays its own, at full size. */
  lemma {:induction false} TakenStaysLive(c: Config, bs: seq<Block>, ops: seq<EnvOp>, p: nat, n: int)
    requires ValidConfig(c) && WellFormed(c, bs) && LiveWith(c, bs, p, n)
    ensures WellFormed(c, ApplyAll(c, bs, ops, Some(p))) && LiveWith(c, ApplyAll(c, bs, ops, Some(p)), p, n)
  {
    if ops != [] {
      var front, op := ops[..|ops| - 1], ops[|ops| - 1];
      TakenStaysLive(c, bs, front, p, n);
      var b := ApplyAll(c, bs, front, Some(p));
      if op.p != p {
        match op {
          case EnvFree(q) =>
            FreeKeepsWellFormed(c, b, q);
            FreeLive(c, b, q);
          case EnvTrim(q, want) =>
            TrimKeepsWellFormed(c, b, q, want);
            TrimLive(c, b, q, want);
        }
      }
    }
  }

  // ---- interleaved runs ----

  /**
   * A call that runs on its own, or a mem_malloc during which other contexts run `pre` and `post` around its effect.
   */
  datatype Turn = Alone(op: Op) | Interrupted(pre: seq<EnvOp>, want: u16, post: seq<EnvOp>)

  function AsOp(e: EnvOp): Op {
    match e
    case EnvFree(p) => DoFree(p)
    case EnvTrim(p, want) => DoTrim(p, want)
  }

  /** The operations of other contexts, without those on the block taken by the running mem_malloc. */
  function Others(es: seq<EnvOp>, mine: Option<nat>): seq<Op> {
    if es == [] then []
    else Others(es[..|es| - 1], mine) + if mine == Some(es[|es| - 1].p) then [] else [AsOp(es[|es| - 1])]
  }

  /**
   * The block list after the turns; an interrupted mem_malloc has the effect that Heap.Malloc promises (see
   * Linearized).
   */
  function Interleaved(c: Config, turns: seq<Turn>): seq<Block>
    requires 0 < c.align
  {
    if turns == [] then Init().blocks
    else
      var bs := Interleaved(c, turns[..|turns| - 1]);
      match turns[|turns| - 1]
      case Alone(op) => Step(c, State(bs, map[]), op).blocks
      case Interrupted(pre, want, post) =>
        var m := MallocBlocks(c, ApplyAll(c, bs, pre, None), want);
        ApplyAll(c, m.0, post, m.1)
  }

  /** The same calls one after the other. */
  function Sequential(c: Config, turns: seq<Turn>): seq<Op>
    requires 0 < c.align
  {
    if turns == [] then []
    else
      var front := turns[..|turns| - 1];
      Sequential(c, front) +
      match turns[|turns| - 1]
      case Alone(op) => [op]
      case Interrupted(pre, want, post) =>
        var r := MallocBlocks(c, ApplyAll(c, Interleaved(c, front), pre, None), want).1;
        Others(pre, None) + ([DoMalloc(want)] + Others(post, r))
  }

  lemma RunSnoc(c: Config, ops: seq<Op>, op: Op)
    requires 0 < c.align
    ensures Run(c, ops + [op]) == Step(c, Run(c, ops), op)
  {
    assert (ops + [op])[..|ops|] == ops;
  }

  lemma {:induction false} RunOthers(c: Config, ops: seq<Op>, es: seq<EnvOp>, mine: Option<nat>)
    requires 0 < c.align
    ensures Run(c, ops + Others(es, mine)).blocks == ApplyAll(c, Run(c, ops).blocks, es, mine)
  {
    if es == [] {
      assert ops + [] == ops;
    } else {
      var front, e := es[..|es| - 1], es[|es| - 1];
      RunOthers(c, ops, front, mine);
      if mine != Some(e.p) {
        RunSnoc(c, ops + Others(front, mine), AsOp(e));
        assert ops + Others(es, mine) == (ops + Others(front, mine)) + [AsOp(e)];
      } else {
        assert Others(front, mine) + [] == Others(front, mine);
      }
    }
  }

  /** An allocation interrupted by others leaves the list of the run with their calls around the allocation. */
  lemma LinearizedIsRun(c: Config, ops: seq<Op>, pre: seq<EnvOp>, want: u16, r: Option<nat>, post: seq<EnvOp>,
                        ns: seq<Block>)
    requires ValidConfig(c) && Linearized(c, Run(c, ops).blocks, pre, want, r, post, ns)
    ensures Run(c, ops + (Others(pre, None) + ([DoMalloc(want)] + Others(post, r)))).blocks == ns
  {
    RunOthers(c, ops, pre, None);
    AllocationInRun(c, ops + Others(pre, None), want, r, post, ns);
    Regrouped(ops, Others(pre, None), DoMalloc(want), Others(post, r));
  }

  lemma AllocationInRun(c: Config, ops: seq<Op>, want: u16, r: Option<nat>, post: seq<EnvOp>, ns: seq<Block>)
    requires ValidConfig(c)
    requires var m := MallocBlocks(c, Run(c, ops).blocks, want); r == m.1 && ns == ApplyAll(c, m.0, post, r)
    ensures Run(c, (ops + [DoMalloc(want)]) + Others(post, r)).blocks == ns
  {
    RunSnoc(c, ops, DoMalloc(want));
    RunOthers(c, ops + [DoMalloc(want)], post, r);
  }

  lemma Regrouped(a: seq<Op>, b: seq<Op>, x: Op, d: seq<Op>)
    ensures a + (b + ([x] + d)) == ((a + b) + [x]) + d
  {
  }

  lemma StepBlocks(c: Config, s: State, op: Op)
    requires 0 < c.align
    ensures Step(c, s, op).blocks == Step(c, State(s.blocks, map[]), op).blocks
  {
  }

  /**
   * Whatever the other contexts do during the allocations of a run, its list is that of a run without interruptions.
   */
  lemma {:induction false} InterleavedIsRun(c: Config, turns: seq<Turn>)
    requires ValidConfig(c)
    ensures Interleaved(c, turns) == Run(c, Sequential(c, turns)).blocks
  {
    if turns != [] {
      var front, turn := turns[..|turns| - 1], turns[|turns| - 1];
      InterleavedIsRun(c, front);
      match turn {
        case Alone(op) =>
          RunSnoc(c, Sequential(c, front), op);
          StepBlocks(c, Run(c, Sequential(c, front)), op);
        case Interrupted(pre, want, post) =>
          var m := MallocBlocks(c, ApplyAll(c, Interleaved(c, front), pre, None), want);
          LinearizedIsRun(c, Sequential(c, front), pre, want, m.1, post, Interleaved(c, turns));
      }
    }
  }

  /** Interleaved runs hand out disjoint payloads too, and end in the list of mem_init when everything is freed. */
  lemma InterleavedPayloads(c: Config, turns: seq<Turn>, p: int, n: int, q: int, m: int)
    requires ValidConfig(c)
    requires LiveWith(c, Interleaved(c, turns), p, n) && LiveWith(c, Interleaved(c, turns), q, m) && p != q
    ensures p + n <= q || q + m <= p
    ensures p % c.align == 0 && c.hdr <= p && p + n <= c.memSize
    ensures p in Run(c, Sequential(c, turns)).req && Run(c, Sequential(c, turns)).req[p] <= n
  {
    InterleavedIsRun(c, turns);
    LivePayloadsDisjoint(c, Sequential(c, turns), p, n, q, m);
  }

  lemma InterleavedAllFreed(c: Config, turns: seq<Turn>)
    requires ValidConfig(c) && forall p: int, n: int :: !LiveWith(c, Interleaved(c, turns), p, n)
    ensures Interleaved(c, turns) == Init().blocks
  {
    InterleavedIsRun(c, turns);
    RunKeepsInvariant(c, Sequential(c, turns));
    NothingRequested(c, Run(c, Sequential(c, turns)));
    AllFreedRestoresInit(c, Sequential(c, turns));
  }

  lemma NothingRequested(c: Config, s: State)
    requires ValidConfig(c) && Inv(c, s) && forall p: int, n: int :: !LiveWith(c, s.blocks, p, n)
    ensures s.req == map[]
  {
    forall p
      ensures p !in s.req
    {
      assert p in s.req ==> exists n: int :: LiveWith(c, s.blocks, p, n);
    }
  }

  // ---- the debug assertion of mem_trim ----

  /** It fails exactly for the block at the end of the heap, cut by enough for another block. */
  lemma TrimAssertionFailsIff(c: Config, bs: seq<Block>, p: int, want: u16)
    requires ValidConfig(c) && WellFormed(c, bs) && Trimmable(c, bs, p, want)
    ensures var k := IndexOf(bs, p - c.hdr);
      TrimAssertionFails(c, bs, p, want) <==> k == |bs| - 1 && p + Rounded(c, want) + c.hdr + c.minSize <= c.memSize
  {
    var k := IndexOf(bs, p - c.hdr);
    OrderedAll(c, bs);
    var e := EndOf(c, bs, k);
    if k < |bs| - 1 {
      var f := EndOf(c, bs, |bs| - 1);
      assert e <= bs[k + 1].start;
    }
  }

  /** A heap taken whole and then trimmed does it, in every configuration with room for two blocks. */
  lemma WholeHeapTrimmed(c: Config)
    requires ValidConfig(c) && 2 * (c.hdr + c.minSize) <= c.memSize
    ensures var s := Run(c, [DoMalloc(c.memSize - c.hdr)]);
      s.req == map[c.hdr := c.memSize - c.hdr] && TrimAssertionFails(c, s.blocks, c.hdr, 1)
  {
    var want, bs := c.memSize - c.hdr, Init().blocks;
    RoundedWhole(c, want);
    assert [DoMalloc(want)][..0] == [];
    assert Run(c, [DoMalloc(want)]) == Step(c, Init(), DoMalloc(want));
    assert EndOf(c, bs, 0) == c.memSize && Fits(c, bs, 0, want);
    FirstFitIs(c, bs, want, 0);
    var ns := Take(c, bs, 0, want);
    assert ns == [Block(0, true)] && MallocBlocks(c, bs, want) == (ns, Some(c.hdr));
    assert IndexOf(ns, 0) == 0 && EndOf(c, ns, 0) == c.memSize;
    AlignUpBounds(c, 1);
    RoundedSound(c, 1);
    SmallestRequest(c);
  }

  lemma SmallestRequest(c: Config)
    requires ValidConfig(c)
    ensures !Refused(c, 1) && Rounded(c, 1) == c.minSize
  {
    assert AlignUp(c, 1) == c.align;
    RoundedSound(c, 1);
  }

  /** A request that is already aligned is not rounded. */
  lemma RoundedWhole(c: Config, want: u16)
    requires ValidConfig(c) && want == c.memSize - c.hdr && c.minSize <= want
    ensures !Refused(c, want) && Rounded(c, want) == want
  {
    AlignedDifference(c, c.memSize, c.hdr);
    AlignUpAligned(c, want);
    RoundedSound(c, want);
  }

  lemma {:induction false} AlignUpAligned(c: Config, x: nat)
    requires 0 < c.align && Aligned(c, x)
    ensures AlignUp(c, x) == x
    decreases x
  {
    if x > c.align {
      AlignUpAligned(c, x - c.align);
    }
  }
}
