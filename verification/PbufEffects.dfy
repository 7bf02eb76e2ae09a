/**
 * What the operations on chains do to the fields they are about, and that they leave everything else alone: total
 * lengths and bytes after pbuf_dechain and pbuf_free, flags, counts and all pbufs outside the chains.
 */
module PbufEffects {
  import opened Common
  import opened PbufModel
  import opened PbufShape
  import opened PbufBytes

  /** The same reference count, FIN flag and bytes. */
  predicate SameContents(a: Pbuf, b: Pbuf) { a.ref == b.ref && a.fin == b.fin && a.data == b.data }

  // ---- pbuf_free ----

  /** What pbuf_free leaves of a chain: the rest with its bytes and its tot_len fields. */
  lemma FreedRest(m: Store, ids: seq<nat>)
    requires Chain(m, ids) && InStore(m, ids)
    ensures Sole(m, ids) <= |ids|
    ensures var n, rest := Freed(m, Head(ids)), ids[Sole(m, ids)..];
      && Chain(n, rest) && InStore(n, rest) && FlatFrom(n, rest, 0) == FlatFrom(m, ids, Sole(m, ids))
      && (TotMod(m, ids) ==> TotMod(n, rest))
  {
    FreedChain(m, ids);
    FreedKeys(m, Head(ids));
    var n, k := Freed(m, Head(ids)), Sole(m, ids);
    var rest := ids[k..];
    forall j | 0 <= j < |rest|
      ensures rest[j] in n
    {
      assert rest[j] == ids[k + j] && ids[k + j] in m;
      assert rest[j] !in ids[..k];
    }
    FlatCut(m, ids, k);
    ChainSuffix(m, ids, k);
    ChainFrame(m, n, rest);
    FlatFrame(m, n, rest, 0);
    if TotMod(m, ids) {
      SuffixTot(m, ids, k);
      SameTot(m, n, rest);
    }
  }

  lemma SuffixTot(m: Store, ids: seq<nat>, k: nat)
    requires TotMod(m, ids) && k <= |ids|
    ensures TotMod(m, ids[k..])
  {
    SuffixTotFrom(m, ids, k);
  }

  /** If the fields from pbuf k on are right, so are those of the chain that starts there. */
  lemma SuffixTotFrom(m: Store, ids: seq<nat>, k: nat)
    requires InStore(m, ids) && k <= |ids| && forall i | k <= i < |ids| :: TotAt(m, ids, i)
    ensures TotMod(m, ids[k..])
  {
    var b := ids[k..];
    forall j | 0 <= j < |b|
      ensures b[j] in m
    {
      assert b[j] == ids[k + j];
    }
    forall j | 0 <= j < |b|
      ensures TotAt(m, b, j)
    {
      assert b[j..] == ids[k + j..] && TotAt(m, ids, k + j);
      FlatShift(m, b, j, ids, k + j);
    }
  }

  lemma SameTot(m: Store, n: Store, ids: seq<nat>)
    requires TotMod(m, ids) && InStore(n, ids)
    requires forall j | 0 <= j < |ids| :: n[ids[j]].data == m[ids[j]].data && n[ids[j]].tot == m[ids[j]].tot
    ensures TotMod(n, ids)
  {
    forall j | 0 <= j < |ids|
      ensures TotAt(n, ids, j)
    {
      assert TotAt(m, ids, j);
      FlatFrame(m, n, ids, j);
    }
  }

  // ---- pbuf_dechain ----

  /** Every tot_len of the chain is right, except perhaps that of the second pbuf. */
  ghost predicate TotButSecond(m: Store, ids: seq<nat>) {
    InStore(m, ids) && forall i | 0 <= i < |ids| && i != 1 :: TotAt(m, ids, i)
  }

  /**
   * Decoupling the first pbuf: both parts are chains with the bytes they had, the first pbuf's tot_len is its own
   * length, and those of the tail are right, even if the second pbuf's was not.
   */
  lemma DechainEffect(m: Store, ids: seq<nat>)
    requires Chain(m, ids) && |ids| > 1 && TotButSecond(m, ids)
    ensures var n, p, tail := DechainStore(m, ids[0], ids[1]), ids[0], ids[1..];
      && Chain(n, [p]) && TotExact(n, [p]) && n[p].tot == |m[p].data| && SameContents(n[p], m[p])
      && Chain(n, tail) && TotMod(n, tail)
      && FlatFrom(n, [p], 0) + FlatFrom(n, tail, 0) == FlatFrom(m, ids, 0)
  {
    DechainTail(m, ids);
    Alone(m, ids);
    TailTot(m, ids);
    TailBytes(m, ids);
  }

  lemma Alone(m: Store, ids: seq<nat>)
    requires Chain(m, ids) && |ids| > 1 && InStore(m, ids)
    ensures var n, p := DechainStore(m, ids[0], ids[1]), ids[0];
      && Chain(n, [p]) && TotExact(n, [p]) && n[p].tot == |m[p].data| && SameContents(n[p], m[p])
      && FlatFrom(n, [p], 0) == m[p].data
  {
    var n, p := DechainStore(m, ids[0], ids[1]), ids[0];
    assert LinkAt(n, [p], 0);
    assert FlatFrom(n, [p], 1) == [];
    assert TotAt(n, [p], 0);
  }

  lemma TailBytes(m: Store, ids: seq<nat>)
    requires Chain(m, ids) && |ids| > 1 && InStore(m, ids)
    ensures var n := DechainStore(m, ids[0], ids[1]);
      InStore(n, ids[1..]) && FlatFrom(m, ids, 0) == m[ids[0]].data + FlatFrom(n, ids[1..], 0)
  {
    var n := DechainStore(m, ids[0], ids[1]);
    DechainTail(m, ids);
    FlatCut(m, ids, 1);
    FlatFrame(m, n, ids[1..], 0);
    assert FlatFrom(m, ids, 0) == m[ids[0]].data + FlatFrom(m, ids, 1);
  }

  lemma TailTot(m: Store, ids: seq<nat>)
    requires Chain(m, ids) && |ids| > 1 && TotButSecond(m, ids)
    ensures TotMod(DechainStore(m, ids[0], ids[1]), ids[1..])
  {
    var n := DechainStore(m, ids[0], ids[1]);
    assert InStore(n, ids);
    forall i | 1 <= i < |ids|
      ensures TotAt(n, ids, i)
    {
      FlatFrame(m, n, ids, i);
      assert ids[i] != ids[0];
      if i == 1 {
        assert TotAt(m, ids, 0);
        LengthBehind(|m[ids[0]].data|, |FlatFrom(m, ids, 1)|);
      } else {
        assert TotAt(m, ids, i) && ids[i] != ids[1];
      }
    }
    SuffixTotFrom(n, ids, 1);
  }

  lemma LengthBehind(a: nat, b: nat)
    ensures ((a + b) % 0x1_0000 - a) % 0x1_0000 == b % 0x1_0000
  {
  }

  /** From pbuf k on, the chain lives on in n with its bytes and right fields; nothing outside it was touched. */
  ghost predicate LivesOn(m: Store, ids: seq<nat>, k: nat, n: Store) {
    && InStore(m, ids) && k <= |ids| && SameOutside(m, n, ids) && Chain(n, ids[k..]) && InStore(n, ids[k..])
    && FlatFrom(n, ids[k..], 0) == FlatFrom(m, ids, k)
    && (TotButSecond(m, ids) ==> TotMod(n, ids[k..]))
  }

  /** pbuf_dechain as a whole: decoupled and the tail given up. */
  lemma Dechained(m: Store, ids: seq<nat>)
    requires Chain(m, ids) && |ids| > 1 && InStore(m, ids)
    ensures Sole(m, ids[1..]) < |ids|
    ensures var d, p := DechainStore(m, ids[0], ids[1]), ids[0];
      var n := Freed(d, Some(ids[1]));
      && p in n && n[p] == d[p] && LivesOn(m, ids, 1 + Sole(m, ids[1..]), n)
      && TotExact(n, [p]) && FlatFrom(n, [p], 0) == m[p].data && SameContents(n[p], m[p])
  {
    var d, p, tail := DechainStore(m, ids[0], ids[1]), ids[0], ids[1..];
    DechainTail(m, ids);
    FreedChain(d, tail);
    Alone(m, ids);
    assert p !in tail;
    AloneStays(d, Freed(d, Head(tail)), p);
    DechainRest(m, ids);
  }

  lemma DechainRest(m: Store, ids: seq<nat>)
    requires Chain(m, ids) && |ids| > 1 && InStore(m, ids)
    ensures Sole(m, ids[1..]) < |ids|
    ensures LivesOn(m, ids, 1 + Sole(m, ids[1..]), Freed(DechainStore(m, ids[0], ids[1]), Some(ids[1])))
  {
    var d, tail := DechainStore(m, ids[0], ids[1]), ids[1..];
    DechainTail(m, ids);
    FreedChain(d, tail);
    FreedRest(d, tail);
    var s := Sole(m, tail);
    assert tail[s..] == ids[1 + s..];
    assert forall q | q in m && q !in ids :: q !in tail && q != ids[0] && q != ids[1] && d[q] == m[q];
    DechainRestBytes(m, ids, s);
    if TotButSecond(m, ids) {
      TailTot(m, ids);
    }
  }

  /** The second pbuf is gone exactly if some pbuf of the tail is, and exactly the first ones are. */
  lemma TailGone(m: Store, ids: seq<nat>)
    requires Chain(m, ids) && |ids| > 1 && InStore(m, ids)
    ensures var n, s := Freed(DechainStore(m, ids[0], ids[1]), Some(ids[1])), Sole(m, ids[1..]);
      && s < |ids| && (forall q | q in m :: q in n <==> q !in ids[1..][..s]) && (ids[1] !in n <==> s > 0)
      && (s == 0 ==> m[ids[0]].data + FlatFrom(m, ids, 1) == FlatFrom(m, ids, 0))
  {
    var tail := ids[1..];
    DechainTail(m, ids);
    FreedChain(DechainStore(m, ids[0], ids[1]), tail);
    assert tail[0] == ids[1];
    assert Sole(m, tail) > 0 ==> tail[..Sole(m, tail)][0] == ids[1];
  }

  lemma AloneStays(d: Store, n: Store, p: nat)
    requires TotExact(d, [p]) && p in n && n[p] == d[p]
    ensures TotExact(n, [p]) && FlatFrom(n, [p], 0) == d[p].data
  {
    FlatFrame(d, n, [p], 0);
    assert FlatFrom(n, [p], 1) == [];
    assert TotAt(d, [p], 0);
    assert TotAt(n, [p], 0);
  }

  lemma DechainRestBytes(m: Store, ids: seq<nat>, s: nat)
    requires Chain(m, ids) && |ids| > 1 && InStore(m, ids) && s < |ids|
    ensures var d := DechainStore(m, ids[0], ids[1]);
      InStore(d, ids[1..]) && FlatFrom(d, ids[1..], s) == FlatFrom(m, ids, 1 + s)
  {
    var d, tail := DechainStore(m, ids[0], ids[1]), ids[1..];
    DechainTail(m, ids);
    assert InStore(m, tail) by { FlatCut(m, ids, 1); }
    FlatFrame(m, d, tail, s);
    assert tail[s..] == ids[1 + s..];
    FlatShift(m, tail, s, ids, 1 + s);
  }

  // ---- what stays ----

  /** pbuf_cat changes tot_len fields of hs and one link, nothing else. */
  lemma CatKeeps(m: Store, hs: seq<nat>, ts: seq<nat>)
    requires InStore(m, hs) && InStore(m, ts) && hs != [] && ts != []
    ensures var n := CatStore(m, hs, ts);
      n.Keys == m.Keys && SameOutside(m, n, hs) && forall q | q in m :: SameContents(n[q], m[q])
  {
  }

  /** pbuf_split_64k passes the FIN flag of the first pbuf on to the rest and changes no other flag, count or byte. */
  lemma SplitKeeps(m: Store, ids: seq<nat>, k: nat)
    requires Chain(m, ids) && InStore(m, ids) && 0 < k < |ids|
    ensures var n := SplitStore(m, ids, k);
      && n.Keys == m.Keys && SameOutside(m, n, ids[..k + 1])
      && n[ids[k]].fin == (m[ids[k]].fin || m[ids[0]].fin) && n[ids[k]].next == m[ids[k]].next
      && forall q | q in m && q != ids[k] :: SameContents(n[q], m[q])
  {
    assert ids[..k + 1] == ids[..k] + [ids[k]];
    assert ids[k - 1] == ids[..k][k - 1] && ids[k] !in ids[..k];
  }

  /** The same counts and flags. */
  ghost predicate SameMarks(m: Store, n: Store, ids: seq<nat>) {
    forall q | q in ids :: q in m && q in n && n[q].ref == m[q].ref && n[q].fin == m[q].fin
  }

  lemma SameMarksKept(m: Store, n: Store, r: Store, a: seq<nat>, b: seq<nat>)
    requires SameMarks(m, n, a) && SameOutside(n, r, b) && forall x | x in a :: x !in b
    ensures SameMarks(m, r, a)
  {
  }

  /** Shortening leaves flags and counts alone. */
  lemma ReallocKeeps(m: Store, ids: seq<nat>, i: nat, keep: nat, shrink: nat)
    requires InStore(m, ids) && i < |ids| && keep <= |m[ids[i]].data|
    ensures var n := ReallocStore(m, ids, i, keep, shrink);
      && n.Keys == m.Keys && SameOutside(m, n, ids[..i + 1])
      && SameMarks(m, n, ids[..i + 1])
  {
    assert ids[..i + 1] == ids[..i] + [ids[i]];
  }

  /** Then the tail behind pbuf i goes, and everything else stays as it was cut. */
  lemma TailFreed(m: Store, ids: seq<nat>, i: nat, keep: nat, shrink: nat, n: Store)
    requires Chain(m, ids) && InStore(m, ids) && i < |ids| && keep <= |m[ids[i]].data|
    requires SameOutside(ReallocStore(m, ids, i, keep, shrink), n, ids[i + 1..])
    ensures SameOutside(m, n, ids) && SameMarks(m, n, ids[..i + 1]) && ids[i] in n && |n[ids[i]].data| == keep
  {
    var r := ReallocStore(m, ids, i, keep, shrink);
    ReallocKeeps(m, ids, i, keep, shrink);
    SameMarksKept(m, r, n, ids[..i + 1], ids[i + 1..]);
    assert ids[i] !in ids[i + 1..] && ids[i] in r;
    forall q | q in m && q !in ids
      ensures q in n && n[q] == m[q]
    {
      assert q !in ids[..i + 1] && q !in ids[i + 1..];
    }
  }

  // ---- pbuf_free_header ----

  /** The first j pbufs hold `gone` bytes. */
  ghost predicate Dropping(m: Store, ids: seq<nat>, gone: nat, j: nat) {
    InStore(m, ids) && j <= |ids| && PosOf(m, ids, j) == gone
  }

  /**
   * Dropping `size` bytes drops j pbufs: those that end within them, up to the first end that is reached exactly; pbuf
   * j, if there is one, keeps what lies behind.
   */
  ghost predicate DropsTo(m: Store, ids: seq<nat>, size: nat, j: nat) {
    && InStore(m, ids) && j <= |ids| && PosOf(m, ids, j) <= size
    && (j > 0 ==> PosOf(m, ids, j - 1) < size)
    && (j < |ids| ==> size == PosOf(m, ids, j) || size < PosOf(m, ids, j + 1))
  }

  /** Part way through pbuf_free_header: j pbufs are gone from m and `left` bytes are still to go. */
  ghost predicate HeaderState(m: Store, n: Store, ids: seq<nat>, size: nat, left: nat, j: nat) {
    && InStore(m, ids) && j <= |ids| && left <= size && size - left <= |FlatFrom(m, ids, 0)|
    && Chain(n, ids[j..]) && InStore(n, ids[j..]) && TotExact(n, ids[j..]) && SameOutside(m, n, ids)
    && FlatFrom(n, ids[j..], 0) == FlatFrom(m, ids, 0)[size - left..]
    && (left > 0 ==> Dropping(m, ids, size - left, j) && SameOutside(m, n, ids[..j]))
    && (left == 0 ==> DropsTo(m, ids, size, j))
  }

  lemma HeaderStart(m: Store, ids: seq<nat>, size: nat)
    requires Chain(m, ids) && InStore(m, ids) && TotExact(m, ids)
    ensures HeaderState(m, m, ids, size, size, 0)
  {
    assert ids[0..] == ids;
  }

  /** Nothing was done to the payload of the pbuf whose turn it is. */
  lemma NextUntouched(m: Store, n: Store, ids: seq<nat>, size: nat, left: nat, j: nat)
    requires Chain(m, ids) && HeaderState(m, n, ids, size, left, j) && left > 0 && j < |ids|
    ensures ids[j] in m && ids[j] in n && n[ids[j]].data == m[ids[j]].data && Head(ids[j..]) == Some(ids[j])
    ensures PosOf(m, ids, j + 1) == size - left + |m[ids[j]].data|
    ensures ids[j..][1..] == ids[j + 1..]
  {
    assert ids[j] !in ids[..j];
  }

  /** Pbuf j ends within the bytes to go and is dropped. */
  lemma HeaderDropped(m: Store, n: Store, r: Store, ids: seq<nat>, size: nat, left: nat, j: nat, d: seq<byte>)
    requires Chain(m, ids) && HeaderState(m, n, ids, size, left, j) && left > 0 && j < |ids|
    requires SameOutside(n, r, [ids[j]]) && d == m[ids[j]].data && |d| <= left
    requires Chain(r, ids[j + 1..]) && InStore(r, ids[j + 1..]) && TotExact(r, ids[j + 1..])
    requires FlatFrom(n, ids[j..], 0) == d + FlatFrom(r, ids[j + 1..], 0)
    ensures HeaderState(m, r, ids, size, left - |d|, j + 1)
  {
    NextUntouched(m, n, ids, size, left, j);
    Behind(FlatFrom(m, ids, 0), size - left, d, FlatFrom(r, ids[j + 1..], 0));
    DroppedOutside(m, n, r, ids, j);
  }

  lemma DroppedOutside(m: Store, n: Store, r: Store, ids: seq<nat>, j: nat)
    requires j < |ids| && SameOutside(m, n, ids) && SameOutside(n, r, [ids[j]])
    ensures SameOutside(m, r, ids)
    ensures SameOutside(m, n, ids[..j]) ==> SameOutside(m, r, ids[..j + 1])
  {
    assert ids[..j + 1] == ids[..j] + [ids[j]];
  }

  lemma Behind(all: seq<byte>, at: nat, d: seq<byte>, rest: seq<byte>)
    requires at <= |all| && all[at..] == d + rest
    ensures at + |d| <= |all| && rest == all[at + |d|..]
  {
    assert all[at + |d|..] == all[at..][|d|..];
  }

  /** Pbuf j reaches beyond the bytes to go, which are cut off it. */
  lemma HeaderCut(m: Store, n: Store, ids: seq<nat>, size: nat, left: nat, j: nat)
    requires Chain(m, ids) && HeaderState(m, n, ids, size, left, j) && left > 0 && j < |ids|
    requires ids[j] in n && left < |n[ids[j]].data|
    ensures HeaderState(m, TrimFirst(n, ids[j], left), ids, size, 0, j)
  {
    NextUntouched(m, n, ids, size, left, j);
    TrimFirstEffect(n, ids[j..], left);
    CutFlat(FlatFrom(m, ids, 0), size - left, left);
    DroppedOutside(m, n, TrimFirst(n, ids[j], left), ids, j);
  }

  lemma CutFlat(all: seq<byte>, at: nat, k: nat)
    requires at + k <= |all|
    ensures all[at..][k..] == all[at + k..]
  {
  }

  lemma HeaderEnd(m: Store, n: Store, ids: seq<nat>, size: nat, left: nat, j: nat)
    requires HeaderState(m, n, ids, size, left, j) && (left == 0 || j == |ids|)
    requires left > 0 && j > 0 ==> PosOf(m, ids, j - 1) < size
    ensures DropsTo(m, ids, size, j)
    ensures FlatFrom(n, ids[j..], 0) == FlatFrom(m, ids, 0)[Min(size, |FlatFrom(m, ids, 0)|)..]
  {
  }
}
