/**
 * The heap bytes: struct mem headers (u16 next, u16 prev, u8 used; little-endian) written into `ram`,
 * and the fact that header writes realise the list surgery of MemModel without touching live data.
 */
module MemBytes {
  import opened Common
  import opened MemModel

  function U16At(s: seq<byte>, p: nat): nat
    requires p + 2 <= |s|
  {
    s[p] as int + 256 * (s[p + 1] as int)
  }

  function Put16(s: seq<byte>, p: nat, v: u16): (r: seq<byte>)
    requires p + 2 <= |s|
    ensures |r| == |s| && U16At(r, p) == v
    ensures forall q | 0 <= q < |s| && q != p && q != p + 1 :: r[q] == s[q]
  {
    s[p := v % 256][p + 1 := v / 256]
  }

  function UsedByte(used: bool): byte { if used then 1 else 0 }

  /** The header of block i is what the list says it should be. */
  predicate HdrOk(c: Config, s: seq<byte>, bs: seq<Block>, i: nat)
    requires i < |bs|
  {
    var p := bs[i].start;
    && p + 5 <= |s|
    && U16At(s, p) == EndOf(c, bs, i) && U16At(s, p + 2) == PrevOf(bs, i) && s[p + 4] == UsedByte(bs[i].used)
  }

  /** The bytes hold exactly the list bs, closed by the always-used struct mem at ram_end. */
  ghost predicate Rep(c: Config, s: seq<byte>, bs: seq<Block>) {
    && c.memSize + c.hdr <= |s| && 6 <= c.hdr
    && (forall i | 0 <= i < |bs| :: HdrOk(c, s, bs, i))
    && U16At(s, c.memSize) == c.memSize && U16At(s, c.memSize + 2) == c.memSize && s[c.memSize + 4] == 1
  }

  // ---- the writes, as relations between the bytes before (s) and after (t) ----

  ghost predicate SameBut(s: seq<byte>, t: seq<byte>, lo: nat, hi: nat) {
    |t| == |s| && forall q | 0 <= q < |s| && !(lo <= q < hi) :: t[q] == s[q]
  }

  /** The used flag of the struct mem at p is written. */
  ghost predicate Marked(s: seq<byte>, t: seq<byte>, p: nat, used: bool) {
    p + 5 <= |s| && SameBut(s, t, p + 4, p + 5) && t[p + 4] == UsedByte(used)
  }

  /** The struct mem between lo and end is unlinked. */
  ghost predicate Merged(c: Config, s: seq<byte>, t: seq<byte>, lo: nat, end: nat) {
    && 6 <= c.hdr && lo + c.hdr <= end <= c.memSize && c.memSize + c.hdr <= |s| && |t| == |s|
    && U16At(t, lo) == end && (end != c.memSize ==> U16At(t, end + 2) == lo)
    && forall q | 0 <= q < |s| && !(lo <= q < lo + 2) && (end + 2 <= q < end + 4 ==> end == c.memSize) :: t[q] == s[q]
  }

  /** A free struct mem is written at `at` and linked between p and end. */
  ghost predicate Split(c: Config, s: seq<byte>, t: seq<byte>, p: nat, at: nat, end: nat) {
    && 6 <= c.hdr && p + c.hdr <= at && at + c.hdr <= end <= c.memSize && c.memSize + c.hdr <= |s| && |t| == |s|
    && U16At(t, at) == end && U16At(t, at + 2) == p && t[at + 4] == 0
    && U16At(t, p) == at && (end != c.memSize ==> U16At(t, end + 2) == at)
    && forall q | 0 <= q < |s| && !(at <= q < at + 5) && !(p <= q < p + 2)
                  && (end + 2 <= q < end + 4 ==> end == c.memSize) ::
         t[q] == s[q]
  }

  // ---- the writes realise the list operations ----

  /** A header whose five bytes and whose neighbours are unchanged is still right, wherever it sits in the new list. */
  lemma HdrKept(c: Config, s: seq<byte>, bs: seq<Block>, i: nat, t: seq<byte>, ns: seq<Block>, j: nat)
    requires i < |bs| && j < |ns| && HdrOk(c, s, bs, i) && |t| == |s|
    requires bs[i] == ns[j] && EndOf(c, bs, i) == EndOf(c, ns, j) && PrevOf(bs, i) == PrevOf(ns, j)
    requires forall q | bs[i].start <= q < bs[i].start + 5 :: t[q] == s[q]
    ensures HdrOk(c, t, ns, j)
  {
  }

  /** Two different struct mems do not overlap, and neither overlaps ram_end. */
  lemma Apart(c: Config, bs: seq<Block>, i: nat, j: nat)
    requires ValidConfig(c) && Tiled(c, bs) && i < |bs| && j < |bs|
    ensures i < j ==> bs[i].start + c.hdr <= EndOf(c, bs, i) <= bs[j].start
    ensures j < i ==> bs[j].start + c.hdr <= EndOf(c, bs, j) <= bs[i].start
    ensures bs[i].start + c.hdr < EndOf(c, bs, i) <= c.memSize
  {
    OrderedAll(c, bs);
    var e, f := EndOf(c, bs, i), EndOf(c, bs, j);
  }

  lemma MarkRep(c: Config, s: seq<byte>, bs: seq<Block>, k: nat, used: bool, t: seq<byte>)
    requires ValidConfig(c) && Tiled(c, bs) && k < |bs| && Rep(c, s, bs)
    requires Marked(s, t, bs[k].start, used)
    ensures Rep(c, t, SetUsed(bs, k, used))
  {
    Apart(c, bs, k, k);
    var ns := SetUsed(bs, k, used);
    forall i | 0 <= i < |ns|
      ensures HdrOk(c, t, ns, i)
    {
      assert HdrOk(c, s, bs, i) && EndOf(c, bs, i) == EndOf(c, ns, i) && PrevOf(bs, i) == PrevOf(ns, i);
      Apart(c, bs, i, k);
      if i != k {
        HdrKept(c, s, bs, i, t, ns, i);
      }
    }
  }

  lemma MergeRepAt(c: Config, s: seq<byte>, bs: seq<Block>, j: nat, t: seq<byte>, ns: seq<Block>, i: nat)
    requires ValidConfig(c) && Tiled(c, bs) && 0 < j < |bs| && Rep(c, s, bs) && i < |bs| - 1
    requires Merged(c, s, t, bs[j - 1].start, EndOf(c, bs, j)) && ns == Without(bs, j)
    ensures HdrOk(c, t, ns, i)
  {
    var o := if i < j then i else i + 1;
    Apart(c, bs, o, j - 1);
    assert HdrOk(c, s, bs, o) && ns[i] == bs[o];
    if i != j - 1 && i != j {
      if j + 1 < |bs| { Apart(c, bs, o, j + 1); }
      HdrKept(c, s, bs, o, t, ns, i);
    } else {
      assert EndOf(c, ns, i) == if i == j - 1 then EndOf(c, bs, j) else EndOf(c, bs, o);
    }
  }

  lemma MergeRep(c: Config, s: seq<byte>, bs: seq<Block>, j: nat, t: seq<byte>)
    requires ValidConfig(c) && Tiled(c, bs) && 0 < j < |bs| && Rep(c, s, bs)
    requires Merged(c, s, t, bs[j - 1].start, EndOf(c, bs, j))
    ensures Rep(c, t, Without(bs, j))
  {
    var ns := Without(bs, j);
    Apart(c, bs, j - 1, j);
    if j + 1 < |bs| { Apart(c, bs, j + 1, j); }
    forall i | 0 <= i < |ns|
      ensures HdrOk(c, t, ns, i)
    {
      MergeRepAt(c, s, bs, j, t, ns, i);
    }
  }

  lemma SplitRepAt(c: Config, s: seq<byte>, bs: seq<Block>, k: nat, at: nat, t: seq<byte>, ns: seq<Block>, i: nat)
    requires ValidConfig(c) && Tiled(c, bs) && k < |bs| && Rep(c, s, bs) && i <= |bs| && i != k + 1
    requires Split(c, s, t, bs[k].start, at, EndOf(c, bs, k)) && ns == Insert(bs, k, at)
    ensures HdrOk(c, t, ns, i)
  {
    var o := if i <= k then i else i - 1;
    Apart(c, bs, o, k);
    assert HdrOk(c, s, bs, o) && ns[i] == bs[o];
    if i != k && i != k + 2 {
      if k + 1 < |bs| { Apart(c, bs, o, k + 1); }
      HdrKept(c, s, bs, o, t, ns, i);
    } else {
      assert EndOf(c, ns, i) == if i == k then at else EndOf(c, bs, o);
    }
  }

  lemma SplitRep(c: Config, s: seq<byte>, bs: seq<Block>, k: nat, at: nat, t: seq<byte>)
    requires ValidConfig(c) && Tiled(c, bs) && k < |bs| && Rep(c, s, bs)
    requires Split(c, s, t, bs[k].start, at, EndOf(c, bs, k))
    ensures Rep(c, t, Insert(bs, k, at))
  {
    var ns := Insert(bs, k, at);
    if k + 1 < |bs| { Apart(c, bs, k + 1, k); }
    forall i | 0 <= i < |ns|
      ensures HdrOk(c, t, ns, i)
    {
      if i != k + 1 {
        SplitRepAt(c, s, bs, k, at, t, ns, i);
      }
    }
  }

  lemma MergeAndSplit(c: Config, s: seq<byte>, t: seq<byte>, p: nat, at: nat, end: nat) returns (m: seq<byte>)
    requires end < 0x1_0000 && Split(c, s, t, p, at, end)
    ensures Merged(c, s, m, p, end) && Split(c, m, t, p, at, end)
  {
    m := Put16(s, p, end);
    if end != c.memSize {
      m := Put16(m, end + 2, p);
    }
  }

  /** Overwriting the header behind block k is unlinking it and linking the new one. */
  lemma MoveRep(c: Config, s: seq<byte>, bs: seq<Block>, k: nat, at: nat, t: seq<byte>)
    requires ValidConfig(c) && Tiled(c, bs) && k + 1 < |bs| && Rep(c, s, bs)
    requires Split(c, s, t, bs[k].start, at, EndOf(c, bs, k + 1))
    ensures Rep(c, t, bs[k + 1 := Block(at, false)])
  {
    Apart(c, bs, k, k + 1);
    var m := MergeAndSplit(c, s, t, bs[k].start, at, EndOf(c, bs, k + 1));
    MergeRep(c, s, bs, k + 1, m);
    WithoutTiled(c, bs, k + 1);
    SplitRep(c, m, Without(bs, k + 1), k, at, t);
    assert Insert(Without(bs, k + 1), k, at) == bs[k + 1 := Block(at, false)];
  }

  // ---- live data ----

  /** Block i of ns was live in bs with at least the same extent, and its data bytes are unchanged. */
  ghost predicate KeptBlock(c: Config, bs: seq<Block>, s: seq<byte>, ns: seq<Block>, t: seq<byte>, i: nat)
    requires i < |ns|
  {
    exists j :: 0 <= j < |bs| && KeptFrom(c, bs, s, ns, t, i, j)
  }

  ghost predicate KeptFrom(c: Config, bs: seq<Block>, s: seq<byte>, ns: seq<Block>, t: seq<byte>, i: nat, j: nat)
    requires i < |ns| && j < |bs|
  {
    var d, e := ns[i].start + c.hdr, EndOf(c, ns, i);
    && bs[j].used && bs[j].start == ns[i].start && e <= EndOf(c, bs, j)
    && d <= e <= |s| && |t| == |s| && t[d..e] == s[d..e]
  }

  /** Every block live afterwards, except a newly handed out one, was live before and kept its data. */
  ghost predicate Keeps(c: Config, bs: seq<Block>, s: seq<byte>, ns: seq<Block>, t: seq<byte>, newest: Option<nat>) {
    forall i {:trigger KeptBlock(c, bs, s, ns, t, i)} | 0 <= i < |ns| && ns[i].used && newest != Some(ns[i].start) ::
      KeptBlock(c, bs, s, ns, t, i)
  }

  lemma KeepsSelf(c: Config, bs: seq<Block>, s: seq<byte>)
    requires ValidConfig(c) && Tiled(c, bs) && c.memSize <= |s|
    ensures Keeps(c, bs, s, bs, s, None)
  {
    OrderedAll(c, bs);
    forall i | 0 <= i < |bs| && bs[i].used
      ensures KeptBlock(c, bs, s, bs, s, i)
    {
      var e := EndOf(c, bs, i);
      assert KeptFrom(c, bs, s, bs, s, i, i);
    }
  }

  lemma SliceOfSlice(s: seq<byte>, t: seq<byte>, d: nat, e: nat, f: nat)
    requires d <= f <= e <= |s| && |t| == |s| && t[d..e] == s[d..e]
    ensures t[d..f] == s[d..f]
  {
    forall x | 0 <= x < f - d
      ensures t[d..f][x] == s[d..f][x]
    {
      assert t[d..e][x] == t[d + x] && s[d..e][x] == s[d + x];
    }
  }

  lemma KeepsTrans(c: Config, b0: seq<Block>, s0: seq<byte>, b1: seq<Block>, s1: seq<byte>, b2: seq<Block>,
                   s2: seq<byte>, f: Option<nat>, g: Option<nat>)
    requires Keeps(c, b0, s0, b1, s1, f) && Keeps(c, b1, s1, b2, s2, g) && (f == g || f == None || g == None)
    ensures Keeps(c, b0, s0, b2, s2, if f == None then g else f)
  {
    forall i | 0 <= i < |b2| && b2[i].used && f != Some(b2[i].start) && g != Some(b2[i].start)
      ensures KeptBlock(c, b0, s0, b2, s2, i)
    {
      assert KeptBlock(c, b1, s1, b2, s2, i);
      var j :| 0 <= j < |b1| && KeptFrom(c, b1, s1, b2, s2, i, j);
      assert KeptBlock(c, b0, s0, b1, s1, j);
      var k :| 0 <= k < |b0| && KeptFrom(c, b0, s0, b1, s1, j, k);
      var d, e1, e2 := b2[i].start + c.hdr, EndOf(c, b1, j), EndOf(c, b2, i);
      SliceOfSlice(s0, s1, d, e1, e2);
      assert KeptFrom(c, b0, s0, b2, s2, i, k);
    }
  }

  lemma SliceKept(s: seq<byte>, t: seq<byte>, d: nat, e: nat)
    requires d <= e <= |s| && |t| == |s| && forall q | d <= q < e :: t[q] == s[q]
    ensures t[d..e] == s[d..e]
  {
  }

  lemma MarkKeeps(c: Config, s: seq<byte>, bs: seq<Block>, k: nat, used: bool, t: seq<byte>)
    requires ValidConfig(c) && Tiled(c, bs) && k < |bs| && c.memSize <= |s|
    requires Marked(s, t, bs[k].start, used)
    ensures Keeps(c, bs, s, SetUsed(bs, k, used), t, if used then Some(bs[k].start) else None)
  {
    var ns := SetUsed(bs, k, used);
    forall i | 0 <= i < |ns| && ns[i].used && i != k
      ensures KeptBlock(c, bs, s, ns, t, i)
    {
      Apart(c, bs, i, k);
      assert EndOf(c, ns, i) == EndOf(c, bs, i);
      SliceKept(s, t, bs[i].start + c.hdr, EndOf(c, bs, i));
      assert KeptFrom(c, bs, s, ns, t, i, i);
    }
  }

  lemma MergeKeeps(c: Config, s: seq<byte>, bs: seq<Block>, j: nat, t: seq<byte>)
    requires ValidConfig(c) && Tiled(c, bs) && 0 < j < |bs| && !bs[j - 1].used
    requires Merged(c, s, t, bs[j - 1].start, EndOf(c, bs, j))
    ensures Keeps(c, bs, s, Without(bs, j), t, None)
  {
    var ns := Without(bs, j);
    forall i | 0 <= i < |ns| && ns[i].used
      ensures KeptBlock(c, bs, s, ns, t, i)
    {
      var o := if i < j then i else i + 1;
      assert ns[i] == bs[o] && EndOf(c, ns, i) == EndOf(c, bs, o);
      Apart(c, bs, o, j - 1);
      if j + 1 < |bs| { Apart(c, bs, o, j + 1); }
      SliceKept(s, t, bs[o].start + c.hdr, EndOf(c, bs, o));
      assert KeptFrom(c, bs, s, ns, t, i, o);
    }
  }

  lemma SplitKeeps(c: Config, s: seq<byte>, bs: seq<Block>, k: nat, at: nat, t: seq<byte>)
    requires ValidConfig(c) && Tiled(c, bs) && k < |bs|
    requires Split(c, s, t, bs[k].start, at, EndOf(c, bs, k))
    ensures Keeps(c, bs, s, Insert(bs, k, at), t, None)
  {
    var ns := Insert(bs, k, at);
    forall i | 0 <= i < |ns| && ns[i].used
      ensures KeptBlock(c, bs, s, ns, t, i)
    {
      var o := if i <= k then i else i - 1;
      assert ns[i] == bs[o] && EndOf(c, ns, i) == if i == k then at else EndOf(c, bs, o);
      Apart(c, bs, o, k);
      if k + 1 < |bs| { Apart(c, bs, o, k + 1); }
      SliceKept(s, t, bs[o].start + c.hdr, EndOf(c, ns, i));
      assert KeptFrom(c, bs, s, ns, t, i, o);
    }
  }

  lemma MoveKeeps(c: Config, s: seq<byte>, bs: seq<Block>, k: nat, at: nat, t: seq<byte>)
    requires ValidConfig(c) && Tiled(c, bs) && k + 1 < |bs| && !bs[k + 1].used && at <= bs[k + 1].start
    requires Split(c, s, t, bs[k].start, at, EndOf(c, bs, k + 1))
    ensures Keeps(c, bs, s, bs[k + 1 := Block(at, false)], t, None)
  {
    var ns := bs[k + 1 := Block(at, false)];
    Apart(c, bs, k, k + 1);
    forall i | 0 <= i < |ns| && ns[i].used
      ensures KeptBlock(c, bs, s, ns, t, i)
    {
      assert EndOf(c, ns, i) == if i == k then at else EndOf(c, bs, i);
      Apart(c, bs, i, k);
      Apart(c, bs, i, k + 1);
      if k + 2 < |bs| { Apart(c, bs, i, k + 2); }
      SliceKept(s, t, bs[i].start + c.hdr, EndOf(c, ns, i));
      assert KeptFrom(c, bs, s, ns, t, i, i);
    }
  }
}
