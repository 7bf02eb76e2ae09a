/** Reading and writing the bytes of a chain through its pbufs, against the same operation on the flat sequence. */
module PbufBytes {
  import opened Common
  import opened PbufModel

  /** The part of s that a copy of len bytes from offset off can deliver. */
  function Slice(s: seq<byte>, off: nat, len: nat): seq<byte> { s[Min(off, |s|)..Min(off + len, |s|)] }

  lemma SliceSkip(d: seq<byte>, s: seq<byte>, off: nat, len: nat)
    requires |d| <= off
    ensures Slice(d + s, off, len) == Slice(s, off - |d|, len)
  {
  }

  lemma SliceTake(d: seq<byte>, s: seq<byte>, off: nat, len: nat)
    requires off <= |d|
    ensures var k := Min(|d| - off, len); Slice(d + s, off, len) == d[off..off + k] + Slice(s, 0, len - k)
  {
  }

  /** One round of pbuf_copy_partial on a payload d: what is copied, and the offset and length left. */
  function CopyStep(d: seq<byte>, off: nat, len: nat): (seq<byte>, nat, nat) {
    if off != 0 && off >= |d| then ([], off - |d|, len)
    else
      var k := if |d| - off > len then len else |d| - off;
      (d[off..off + k], 0, len - k)
  }

  lemma CopyStepSlice(out: seq<byte>, d: seq<byte>, s: seq<byte>, off: nat, len: nat)
    ensures var (chunk, off', len') := CopyStep(d, off, len);
      (out + chunk) + Slice(s, off', len') == out + Slice(d + s, off, len)
  {
    var (chunk, off', len') := CopyStep(d, off, len);
    if off != 0 && off >= |d| {
      SliceSkip(d, s, off, len);
      assert out + [] == out;
    } else {
      SliceTake(d, s, off, len);
      assert (out + chunk) + Slice(s, off', len') == out + (chunk + Slice(s, off', len'));
    }
  }

  lemma WriteInFront(x: seq<byte>, y: seq<byte>, off: nat, chunk: seq<byte>)
    requires off + |chunk| <= |x|
    ensures WriteAt(x, off, chunk) + y == WriteAt(x + y, off, chunk)
  {
  }

  lemma WriteBehind(x: seq<byte>, y: seq<byte>, off: nat, chunk: seq<byte>)
    requires off + |chunk| <= |y|
    ensures x + WriteAt(y, off, chunk) == WriteAt(x + y, |x| + off, chunk)
  {
  }

  /** MEMCPY of chunk into the payload of p at offset off. */
  function WriteNode(m: Store, p: nat, off: nat, chunk: seq<byte>): Store
    requires p in m && off + |chunk| <= |m[p].data|
  {
    m[p := m[p].(data := WriteAt(m[p].data, off, chunk))]
  }

  /** Position of pbuf i in the flat bytes. */
  ghost function PosOf(m: Store, ids: seq<nat>, i: nat): int
    requires i <= |ids| && InStore(m, ids)
  {
    |FlatFrom(m, ids, 0)| - |FlatFrom(m, ids, i)|
  }

  /** Writing into one pbuf of a chain is writing into the flat bytes at its position. */
  lemma {:induction false} FlatWrite(m: Store, ids: seq<nat>, i: nat, off: nat, chunk: seq<byte>, j: nat)
    requires Chain(m, ids) && InStore(m, ids) && j <= i < |ids| && off + |chunk| <= |m[ids[i]].data|
    ensures InStore(WriteNode(m, ids[i], off, chunk), ids)
    ensures |FlatFrom(m, ids, i)| <= |FlatFrom(m, ids, j)|
    ensures |FlatFrom(m, ids, j)| - |FlatFrom(m, ids, i)| + off + |chunk| <= |FlatFrom(m, ids, j)|
    ensures FlatFrom(WriteNode(m, ids[i], off, chunk), ids, j)
      == WriteAt(FlatFrom(m, ids, j), |FlatFrom(m, ids, j)| - |FlatFrom(m, ids, i)| + off, chunk)
    decreases i - j
  {
    var n := WriteNode(m, ids[i], off, chunk);
    if j < i {
      FlatWrite(m, ids, i, off, chunk, j + 1);
      var rest := FlatFrom(m, ids, j + 1);
      WriteBehind(m[ids[j]].data, rest, |rest| - |FlatFrom(m, ids, i)| + off, chunk);
    } else {
      FlatFrame(m, n, ids, i + 1);
      WriteInFront(m[ids[i]].data, FlatFrom(m, ids, i + 1), off, chunk);
    }
  }

  /** Only payload bytes differ, not lengths, links, counts or tot_len. */
  ghost predicate SameShape(m: Store, n: Store) {
    m.Keys == n.Keys && forall q | q in m :: n[q] == m[q].(data := n[q].data) && |n[q].data| == |m[q].data|
  }

  /** Nothing happens to pbufs outside the given ones. */
  ghost predicate SameOutside(m: Store, n: Store, ids: seq<nat>) {
    forall q | q in m && q !in ids :: q in n && n[q] == m[q]
  }

  lemma SameShapeTrans(a: Store, b: Store, c: Store)
    requires SameShape(a, b) && SameShape(b, c)
    ensures SameShape(a, c)
  {
  }

  lemma {:induction false} SameShapeLength(m: Store, n: Store, ids: seq<nat>, i: nat)
    requires InStore(m, ids) && SameShape(m, n) && i <= |ids|
    ensures InStore(n, ids) && |FlatFrom(n, ids, i)| == |FlatFrom(m, ids, i)|
    decreases |ids| - i
  {
    if i < |ids| {
      SameShapeLength(m, n, ids, i + 1);
    }
  }

  lemma SameShapeChain(m: Store, n: Store, ids: seq<nat>)
    requires Chain(m, ids) && InStore(m, ids) && SameShape(m, n)
    ensures Chain(n, ids) && InStore(n, ids)
  {
    ChainFrame(m, n, ids);
  }

  lemma SameShapeTot(m: Store, n: Store, ids: seq<nat>)
    requires TotExact(m, ids) && SameShape(m, n)
    ensures TotExact(n, ids)
  {
    SameShapeLength(m, n, ids, 0);
    forall i | 0 <= i < |ids|
      ensures TotAt(n, ids, i)
    {
      assert TotAt(m, ids, i);
      SameShapeLength(m, n, ids, i);
    }
  }

  /** Extending a partly overwritten sequence: s holds d[..c], then chunk is the next piece of d. */
  lemma WriteProgress(s: seq<byte>, d: seq<byte>, c: nat, chunk: seq<byte>)
    requires c + |chunk| <= |d| <= |s| && chunk == d[c..c + |chunk|]
    ensures WriteAt(d[..c] + s[c..], c, chunk) == d[..c + |chunk|] + s[c + |chunk|..]
  {
  }

  /** The next k bytes of data go into pbuf i, whose place in the flat bytes they have reached. */
  lemma Taken(m: Store, n: Store, ids: seq<nat>, i: nat, data: seq<byte>, copied: nat, k: nat, all: seq<byte>)
    requires Chain(m, ids) && InStore(m, ids) && InStore(n, ids) && SameShape(m, n) && SameOutside(m, n, ids)
    requires i < |ids| && k <= |m[ids[i]].data| && copied + k <= |data| <= |all|
    requires FlatFrom(n, ids, 0) == data[..copied] + all[copied..] && |FlatFrom(m, ids, i)| == |all| - copied
    ensures ids[i] in n && k <= |n[ids[i]].data|
    ensures var w := WriteNode(n, ids[i], 0, data[copied..copied + k]);
      && SameShape(m, w) && SameOutside(m, w, ids) && InStore(w, ids)
      && FlatFrom(w, ids, 0) == data[..copied + k] + all[copied + k..]
  {
    var chunk := data[copied..copied + k];
    SameShapeLength(m, n, ids, 0);
    WriteAtPlace(m, ids, n, i, 0, chunk);
    WriteProgress(all, data, copied, chunk);
    SameShapeTrans(m, n, WriteNode(n, ids[i], 0, chunk));
    assert ids[i] in ids;
  }

  /** A pbuf whose tot_len equals its len has nothing but empty pbufs behind it. */
  lemma QueueTest(m: Store, ids: seq<nat>, i: nat)
    requires TotExact(m, ids) && i < |ids| && (forall j | 0 <= j < |ids| :: |m[ids[j]].data| > 0)
    ensures |m[ids[i]].data| == m[ids[i]].tot ==> i + 1 == |ids|
  {
    ExactAt(m, ids, i);
    if i + 1 < |ids| {
      assert |FlatFrom(m, ids, i + 1)| >= |m[ids[i + 1]].data|;
    }
  }

  // ---- pbuf_copy ----

  /** A place in a chain: pbuf i at offset off of its payload, or the end. */
  ghost predicate Place(m: Store, ids: seq<nat>, i: nat, off: nat) {
    InStore(m, ids) && i <= |ids| && (if i < |ids| then off <= |m[ids[i]].data| else off == 0)
  }

  /** Part way through pbuf_copy: the first c bytes of the source are in the target, both sides stand at position c. */
  ghost predicate Copying(m: Store, tos: seq<nat>, froms: seq<nat>, n: Store, i: nat, oi: nat, j: nat, oj: nat) {
    && InStore(m, tos) && InStore(m, froms) && SameShape(m, n) && Place(m, tos, i, oi) && Place(m, froms, j, oj)
    && (forall q | q in m && q !in tos :: n[q] == m[q])
    && var f, t, c := FlatFrom(m, froms, 0), FlatFrom(m, tos, 0), PosOf(m, froms, j) + oj;
    && c == PosOf(m, tos, i) + oi && c <= |f| <= |t| && InStore(n, tos) && c >= 0
    && FlatFrom(n, tos, 0) == f[..c] + t[c..]
  }

  lemma CopyingStart(m: Store, tos: seq<nat>, froms: seq<nat>)
    requires InStore(m, tos) && InStore(m, froms) && tos != [] && froms != []
    requires |FlatFrom(m, froms, 0)| <= |FlatFrom(m, tos, 0)|
    ensures Copying(m, tos, froms, m, 0, 0, 0, 0)
  {
    var f, t := FlatFrom(m, froms, 0), FlatFrom(m, tos, 0);
    assert f[..0] + t[0..] == t;
  }

  /** The flat bytes at the place of a pbuf are its payload. */
  lemma PayloadAt(m: Store, ids: seq<nat>, i: nat)
    requires InStore(m, ids) && i < |ids|
    ensures 0 <= PosOf(m, ids, i) && PosOf(m, ids, i) + |m[ids[i]].data| <= |FlatFrom(m, ids, 0)|
    ensures FlatFrom(m, ids, 0)[PosOf(m, ids, i)..PosOf(m, ids, i) + |m[ids[i]].data|] == m[ids[i]].data
  {
    FlatCut(m, ids, i);
    Middle(FlatFrom(m, ids[..i], 0), m[ids[i]].data, FlatFrom(m, ids, i + 1));
  }

  lemma Middle(a: seq<byte>, d: seq<byte>, r: seq<byte>)
    ensures (a + (d + r))[|a|..|a| + |d|] == d
  {
  }

  /** The source is not touched, and the target keeps its lengths. */
  lemma CopyingReads(m: Store, tos: seq<nat>, froms: seq<nat>, n: Store, i: nat, oi: nat, j: nat, oj: nat)
    requires Copying(m, tos, froms, n, i, oi, j, oj) && i < |tos| && j < |froms| && forall x | x in tos :: x !in froms
    ensures froms[j] in n && n[froms[j]] == m[froms[j]] && tos[i] in n && |n[tos[i]].data| == |m[tos[i]].data|
  {
    assert froms[j] in froms && tos[i] in tos;
  }

  /** MEMCPY of k bytes from the current source pbuf to the current target pbuf. */
  lemma CopyingWrite(m: Store, tos: seq<nat>, froms: seq<nat>, n: Store, i: nat, oi: nat, j: nat, oj: nat, k: nat)
    requires Chain(m, tos) && Copying(m, tos, froms, n, i, oi, j, oj) && i < |tos| && j < |froms|
    requires oi + k <= |m[tos[i]].data| && oj + k <= |m[froms[j]].data|
    ensures tos[i] in n && |n[tos[i]].data| == |m[tos[i]].data|
    ensures Copying(m, tos, froms, WriteNode(n, tos[i], oi, m[froms[j]].data[oj..oj + k]), i, oi + k, j, oj + k)
  {
    PayloadAt(m, froms, j);
    var f, t, p, d := FlatFrom(m, froms, 0), FlatFrom(m, tos, 0), PosOf(m, froms, j), m[froms[j]].data;
    CopyingStep(m, tos, froms, n, i, oi, j, oj, k, f, t, p, d);
  }

  lemma CopyingStep(m: Store, tos: seq<nat>, froms: seq<nat>, n: Store, i: nat, oi: nat, j: nat, oj: nat, k: nat,
                    f: seq<byte>, t: seq<byte>, p: nat, d: seq<byte>)
    requires Chain(m, tos) && InStore(m, tos) && SameShape(m, n) && InStore(n, tos) && i < |tos|
    requires oi + k <= |m[tos[i]].data|
    requires InStore(m, froms) && j < |froms| && d == m[froms[j]].data && oj + k <= |d|
    requires forall q | q in m && q !in tos :: n[q] == m[q]
    requires f == FlatFrom(m, froms, 0) && t == FlatFrom(m, tos, 0) && p == PosOf(m, froms, j)
    requires p + |d| <= |f| <= |t| && f[p..p + |d|] == d
    requires p + oj == PosOf(m, tos, i) + oi && FlatFrom(n, tos, 0) == f[..p + oj] + t[p + oj..]
    ensures tos[i] in n && |n[tos[i]].data| == |m[tos[i]].data|
    ensures Copying(m, tos, froms, WriteNode(n, tos[i], oi, d[oj..oj + k]), i, oi + k, j, oj + k)
  {
    WriteNodeShape(m, n, tos, i, oi, d[oj..oj + k]);
    CopiedPiece(m, tos, n, i, oi, f, t, p, d, oj, k);
    CopyingIntro(m, tos, froms, WriteNode(n, tos[i], oi, d[oj..oj + k]), i, oi + k, j, oj + k, f, t, p + oj + k);
  }

  lemma WriteNodeShape(m: Store, n: Store, tos: seq<nat>, i: nat, off: nat, chunk: seq<byte>)
    requires SameShape(m, n) && i < |tos| && tos[i] in m && off + |chunk| <= |m[tos[i]].data|
    requires forall q | q in m && q !in tos :: n[q] == m[q]
    ensures SameShape(m, WriteNode(n, tos[i], off, chunk))
    ensures forall q | q in m && q !in tos :: WriteNode(n, tos[i], off, chunk)[q] == m[q]
  {
    SameShapeTrans(m, n, WriteNode(n, tos[i], off, chunk));
  }

  lemma CopyingIntro(m: Store, tos: seq<nat>, froms: seq<nat>, n: Store, i: nat, oi: nat, j: nat, oj: nat,
                     f: seq<byte>, t: seq<byte>, c: nat)
    requires SameShape(m, n) && Place(m, tos, i, oi) && Place(m, froms, j, oj) && InStore(n, tos)
    requires forall q | q in m && q !in tos :: n[q] == m[q]
    requires f == FlatFrom(m, froms, 0) && t == FlatFrom(m, tos, 0)
    requires c == PosOf(m, froms, j) + oj == PosOf(m, tos, i) + oi && c <= |f| <= |t|
    requires FlatFrom(n, tos, 0) == f[..c] + t[c..]
    ensures Copying(m, tos, froms, n, i, oi, j, oj)
  {
  }

  /** The payload d of a source pbuf lies at p in the flat source f; its part from o on goes into target pbuf i. */
  lemma CopiedPiece(m: Store, tos: seq<nat>, n: Store, i: nat, oi: nat,
                    f: seq<byte>, t: seq<byte>, p: nat, d: seq<byte>, o: nat, k: nat)
    requires Chain(m, tos) && InStore(m, tos) && SameShape(m, n) && InStore(n, tos) && i < |tos|
    requires oi + k <= |m[tos[i]].data|
    requires p + |d| <= |f| <= |t| && f[p..p + |d|] == d && o + k <= |d|
    requires p + o == PosOf(m, tos, i) + oi && FlatFrom(n, tos, 0) == f[..p + o] + t[p + o..]
    ensures InStore(WriteNode(n, tos[i], oi, d[o..o + k]), tos)
    ensures FlatFrom(WriteNode(n, tos[i], oi, d[o..o + k]), tos, 0) == f[..p + o + k] + t[p + o + k..]
  {
    CopyProgress(f, t, p, d, o, k, FlatFrom(n, tos, 0));
    WriteAtPlace(m, tos, n, i, oi, d[o..o + k]);
  }

  /** The same step on flat bytes: d is the piece of f at p, and its part from o on is written where g stops being f. */
  lemma CopyProgress(f: seq<byte>, t: seq<byte>, p: nat, d: seq<byte>, o: nat, k: nat, g: seq<byte>)
    requires p + |d| <= |f| <= |t| && f[p..p + |d|] == d && o + k <= |d| && g == f[..p + o] + t[p + o..]
    ensures WriteAt(g, p + o, d[o..o + k]) == f[..p + o + k] + t[p + o + k..]
  {
    SliceInside(f, p, d, o, k);
    WriteProgress(t, f, p + o, d[o..o + k]);
  }

  /** Writing into pbuf i of a chain of the same shape as in m, at the position m gives it. */
  lemma WriteAtPlace(m: Store, ids: seq<nat>, n: Store, i: nat, off: nat, chunk: seq<byte>)
    requires Chain(m, ids) && InStore(m, ids) && SameShape(m, n) && i < |ids| && ids[i] in n
    requires off + |chunk| <= |m[ids[i]].data|
    ensures InStore(n, ids) && InStore(WriteNode(n, ids[i], off, chunk), ids)
    ensures 0 <= PosOf(m, ids, i) && PosOf(m, ids, i) + off + |chunk| <= |FlatFrom(n, ids, 0)|
    ensures FlatFrom(WriteNode(n, ids[i], off, chunk), ids, 0)
      == WriteAt(FlatFrom(n, ids, 0), PosOf(m, ids, i) + off, chunk)
  {
    SameShapeChain(m, n, ids);
    SameShapeLength(m, n, ids, 0);
    SameShapeLength(m, n, ids, i);
    FlatWrite(n, ids, i, off, chunk, 0);
  }

  lemma SliceInside(f: seq<byte>, p: nat, d: seq<byte>, o: nat, k: nat)
    requires p + |d| <= |f| && f[p..p + |d|] == d && o + k <= |d|
    ensures f[p + o..p + o + k] == d[o..o + k]
  {
    var a, b := f[p + o..p + o + k], d[o..o + k];
    forall x | 0 <= x < |a|
      ensures a[x] == b[x]
    {
      assert f[p..p + |d|][o + x] == f[p + o + x];
    }
  }

  /** The end of a pbuf is the start of the next. */
  lemma CopyingNextFrom(m: Store, tos: seq<nat>, froms: seq<nat>, n: Store, i: nat, oi: nat, j: nat)
    requires j < |froms| && InStore(m, froms) && Copying(m, tos, froms, n, i, oi, j, |m[froms[j]].data|)
    ensures Copying(m, tos, froms, n, i, oi, j + 1, 0)
  {
  }

  lemma CopyingNextTo(m: Store, tos: seq<nat>, froms: seq<nat>, n: Store, i: nat, j: nat, oj: nat)
    requires i < |tos| && InStore(m, tos) && Copying(m, tos, froms, n, i, |m[tos[i]].data|, j, oj)
    ensures Copying(m, tos, froms, n, i + 1, 0, j, oj)
  {
  }

  lemma CopyingDone(m: Store, tos: seq<nat>, froms: seq<nat>, n: Store, i: nat, oi: nat)
    requires Copying(m, tos, froms, n, i, oi, |froms|, 0)
    ensures InStore(m, tos) && InStore(m, froms) && InStore(n, tos)
    ensures |FlatFrom(m, froms, 0)| <= |FlatFrom(m, tos, 0)|
    ensures FlatFrom(n, tos, 0) == FlatFrom(m, froms, 0) + FlatFrom(m, tos, 0)[|FlatFrom(m, froms, 0)|..]
  {
    Whole(FlatFrom(m, froms, 0), FlatFrom(m, tos, 0), PosOf(m, froms, |froms|));
  }

  lemma Whole(f: seq<byte>, t: seq<byte>, c: nat)
    requires c == |f| <= |t|
    ensures f[..c] + t[c..] == f + t[|f|..]
  {
    assert f[..c] == f;
  }

  ghost predicate NoEmpty(m: Store, ids: seq<nat>) {
    InStore(m, ids) && forall j | 0 <= j < |ids| :: |m[ids[j]].data| > 0
  }

  /** The target cannot be used up while source bytes are left. */
  lemma TargetNotExhausted(m: Store, tos: seq<nat>, froms: seq<nat>, n: Store, j: nat, oj: nat)
    requires Copying(m, tos, froms, n, |tos|, 0, j, oj) && j < |froms| && NoEmpty(m, froms)
    ensures oj == |m[froms[j]].data|
  {
    PayloadAt(m, froms, j);
  }
}
