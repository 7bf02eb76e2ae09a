/**
 * Checksums over pbuf chains (core/inet_chksum.c) and the incremental pbuf_fill_chksum (core/pbuf.c): all equal the
 * checksum of the flat byte sequence, whatever the fragmentation.
 */
module ChecksumChains {
  import opened Common
  import opened InetChecksum
  import opened ChecksumAlgorithms

  /** The payload of one pbuf and whether it starts at an odd address. */
  datatype Segment = Segment(odd: bool, data: seq<byte>)

  ghost predicate Lengths16(chain: seq<Segment>) {
    forall i | 0 <= i < |chain| :: |chain[i].data| < 0x1_0000
  }

  function Flat(chain: seq<Segment>): seq<byte> {
    if chain == [] then [] else Flat(chain[..|chain| - 1]) + chain[|chain| - 1].data
  }

  lemma FlatStep(chain: seq<Segment>, i: nat)
    requires i < |chain|
    ensures Flat(chain[..i + 1]) == Flat(chain[..i]) + chain[i].data
  {
    assert chain[..i + 1][..i] == chain[..i];
  }

  // ---- one step of the chain loop ----

  /**
   * The running accumulator: the one's complement sum of base and the bytes so far, byte-swapped after an odd count.
   */
  ghost predicate Accumulated(acc: nat, swapped: bool, base: nat, s: seq<byte>) {
    && (swapped <==> |s| % 2 == 1)
    && acc == Rep16(if swapped then 256 * (base + WordSum(s, false)) else base + WordSum(s, false))
  }

  /** acc += LWIP_CHKSUM(q); fold; swap if the pbuf length is odd. */
  function ChainStep(acc: nat, chk: nat, len: nat): nat {
    var a := Fold(acc + chk);
    if len % 2 != 0 then Swap(a) else a
  }

  /** Without the final swap: the sum extended by q, still in the byte order of the prefix. */
  lemma AddSegment(acc: nat, swapped: bool, base: nat, s: seq<byte>, q: seq<byte>)
    requires Accumulated(acc, swapped, base, s)
    ensures var x := base + WordSum(s + q, false);
      Fold(acc + Chksum(q)) == Rep16(if swapped then 256 * x else x)
  {
    var b, w := base + WordSum(s, false), WordSum(q, false);
    var y := if swapped then 256 * b else b;
    OneFold(acc, Chksum(q));
    SameAdd(acc, y, Chksum(q));
    SameAdd(Chksum(q), w, y);
    WordSumConcat(s, q, false);
    if swapped {
      OtherOrder(q, true, y);
    }
  }

  /** Swapping the bytes of an accumulator turns it from one byte order to the other. */
  lemma SwapStep(a: nat, swapped: bool, x: nat)
    requires a == Rep16(if swapped then 256 * x else x)
    ensures Swap(a) == Rep16(if swapped then x else 256 * x)
  {
    if swapped {
      SwapIsTimes256(256 * x);
      Times65536(x);
    } else {
      SwapIsTimes256(x);
    }
  }

  lemma ParityOfConcat(s: seq<byte>, q: seq<byte>)
    ensures |s + q| % 2 == 1 <==> ((|s| % 2 == 1) != (|q| % 2 == 1))
  {
  }

  lemma ExtendAccumulated(acc: nat, swapped: bool, base: nat, s: seq<byte>, q: seq<byte>)
    requires Accumulated(acc, swapped, base, s)
    ensures Accumulated(ChainStep(acc, Chksum(q), |q|), if |q| % 2 != 0 then !swapped else swapped, base, s + q)
  {
    AddSegment(acc, swapped, base, s, q);
    ParityOfConcat(s, q);
    if |q| % 2 != 0 {
      SwapStep(Fold(acc + Chksum(q)), swapped, base + WordSum(s + q, false));
    }
  }

  lemma Times65536(x: nat)
    ensures Same(256 * (256 * x), x)
  {
    if x > 0 {
      SameShift(x, x);
    }
  }

  /** How every chain loop ends: the bytes go back into place. */
  function Unswap(acc: nat, swapped: bool): nat { if swapped then Swap(acc) else acc }

  lemma UnswapAccumulated(acc: nat, swapped: bool, base: nat, s: seq<byte>)
    requires Accumulated(acc, swapped, base, s)
    ensures Unswap(acc, swapped) == Rep16(base + WordSum(s, false))
  {
    var x := base + WordSum(s, false);
    SwapIsTimes256(256 * x);
    Times65536(x);
  }

  /** The loop shared by inet_chksum_pbuf and inet_cksum_pseudo_base. */
  method SumChain(chain: seq<Segment>, acc0: nat) returns (acc: nat)
    requires Lengths16(chain) && acc0 <= 0xffff
    ensures acc == Rep16(acc0 + WordSum(Flat(chain), false))
  {
    acc := acc0;
    var swapped := false;
    for i := 0 to |chain|
      invariant Accumulated(acc, swapped, acc0, Flat(chain[..i]))
    {
      ghost var before, was := acc, swapped;
      var chk := Chksum2(chain[i].data, chain[i].odd);
      acc := Fold(acc + chk);
      if |chain[i].data| % 2 != 0 {
        swapped := !swapped;
        acc := Swap(acc);
      }
      ExtendAccumulated(before, was, acc0, Flat(chain[..i]), chain[i].data);
      FlatStep(chain, i);
    }
    assert chain[..|chain|] == chain;
    UnswapAccumulated(acc, swapped, acc0, Flat(chain));
    acc := Unswap(acc, swapped);
  }

  /** inet_chksum_pbuf: fragmentation is invisible. */
  method InetChksumPbuf(chain: seq<Segment>) returns (r: nat)
    requires Lengths16(chain)
    ensures r == 65535 - Chksum(Flat(chain))
  {
    var acc := SumChain(chain, 0);
    r := 65535 - acc;
  }

  // ---- pseudo headers ----

  /** The low and high 16-bit halves of an address word held in network byte order. */
  lemma AddressHalves(a: seq<byte>)
    requires |a| == 4
    ensures WordSum(a, false) == Le16(a, 0) + Le16(a, 2)
  {
    TwoBytes(a, 0, false);
    TwoBytes(a, 2, false);
    assert a[0..] == a && a[4..] == [];
  }

  /** lwip_htons of a u16_t on a little-endian host, as the value a byte pair in network order contributes. */
  lemma HtonsIsWord(v: u16)
    ensures Swap(v) == WordSum([v / 256, v % 256], false)
  {
    PairSum(v / 256, v % 256);
  }

  /** zero, protocol, length: the last four bytes of the IPv4 pseudo header (section 3.1 of RFC 793). */
  function ProtoAndLength(proto: u8, len: u16): seq<byte> { [0, proto, len / 256, len % 256] }

  lemma ProtoAndLengthSum(proto: u8, len: u16)
    ensures WordSum(ProtoAndLength(proto, len), false) == Swap(proto) + Swap(len)
  {
    HtonsIsWord(proto);
    HtonsIsWord(len);
    assert ProtoAndLength(proto, len) == [0, proto] + [len / 256, len % 256];
    assert [proto / 256, proto % 256] == [0, proto];
    WordSumConcat([0, proto], [len / 256, len % 256], false);
  }

  /** inet_cksum_pseudo_base: acc is the already reduced sum of the addresses. */
  method PseudoBase(chain: seq<Segment>, proto: u8, len: u16, acc0: nat) returns (r: nat)
    requires Lengths16(chain) && acc0 <= 0xffff
    ensures r == 65535 - Rep16(acc0 + WordSum(Flat(chain), false) + Swap(proto) + Swap(len))
  {
    var acc := SumChain(chain, acc0);
    r := AddProtoAndLength(acc, proto, len, acc0 + WordSum(Flat(chain), false));
  }

  /** Protocol and length are added in network order, then two folds and the complement. */
  method AddProtoAndLength(acc: nat, proto: u8, len: u16, ghost x: nat) returns (r: nat)
    requires acc == Rep16(x)
    ensures r == 65535 - Rep16(x + Swap(proto) + Swap(len))
  {
    SameAdd(acc, x, Swap(proto) + Swap(len));
    var a := acc + Swap(proto) + Swap(len);
    TwoFolds(a);
    r := 65535 - Fold(Fold(a));
  }

  function SumBytes(parts: seq<seq<byte>>): nat {
    if parts == [] then 0 else SumBytes(parts[..|parts| - 1]) + WordSum(parts[|parts| - 1], false)
  }

  function Concat(parts: seq<seq<byte>>): seq<byte> {
    if parts == [] then [] else Concat(parts[..|parts| - 1]) + parts[|parts| - 1]
  }

  lemma EvenFront(a: seq<byte>, b: seq<byte>, n: nat)
    requires |a| == 4 * n && |b| == 4
    ensures |a + b| == 4 * (n + 1) && WordSum(a + b, false) == WordSum(a, false) + WordSum(b, false)
  {
    WordSumConcat(a, b, false);
    assert 4 * n % 2 == 0;
  }

  lemma {:induction false} SumOfWords(parts: seq<seq<byte>>)
    requires forall i | 0 <= i < |parts| :: |parts[i]| == 4
    ensures |Concat(parts)| == 4 * |parts| && WordSum(Concat(parts), false) == SumBytes(parts)
  {
    if parts != [] {
      var n := |parts| - 1;
      SumOfWords(parts[..n]);
      EvenFront(Concat(parts[..n]), parts[n], n);
    }
  }

  lemma EvenWords(parts: seq<seq<byte>>)
    requires forall i | 0 <= i < |parts| :: |parts[i]| == 4
    ensures |Concat(parts)| % 2 == 0
  {
    SumOfWords(parts);
    assert |Concat(parts)| == 2 * (2 * |parts|);
  }

  /** Add one 32-bit address word in 16-bit halves. */
  method AddWord(acc0: nat, word: seq<byte>) returns (acc: nat)
    requires acc0 <= 8 * 131070 && |word| == 4
    ensures acc == acc0 + WordSum(word, false) && acc <= acc0 + 131070
  {
    AddressHalves(word);
    acc := Add32(acc0, Le16(word, 0));
    acc := Add32(acc, Le16(word, 2));
  }

  /** Add up 32-bit address words in 16-bit halves and fold twice (IPv4: two words, IPv6: eight). */
  method AddressSum(words: seq<seq<byte>>) returns (acc: nat)
    requires |words| <= 8 && forall i | 0 <= i < |words| :: |words[i]| == 4
    ensures acc == Rep16(WordSum(Concat(words), false)) && acc <= 0xffff
  {
    acc := 0;
    for i := 0 to |words|
      invariant acc == SumBytes(words[..i]) && acc <= i * 131070
    {
      acc := AddWord(acc, words[i]);
      assert words[..i + 1][..i] == words[..i];
    }
    assert words[..|words|] == words;
    SumOfWords(words);
    TwoFolds(acc);
    acc := Fold(Fold(acc));
  }

  /** What the receiver checks: the pseudo header in front of the flat data. */
  function PseudoPacket(words: seq<seq<byte>>, proto: u8, len: u16, data: seq<byte>): seq<byte> {
    Concat(words) + ProtoAndLength(proto, len) + data
  }

  lemma ThreeParts(a: seq<byte>, b: seq<byte>, c: seq<byte>)
    requires |a| % 2 == 0 && |b| % 2 == 0
    ensures WordSum(a + b + c, false) == WordSum(a, false) + WordSum(b, false) + WordSum(c, false)
  {
    WordSumConcat(a, b, false);
    WordSumConcat(a + b, c, false);
  }

  lemma PseudoSum(words: seq<seq<byte>>, proto: u8, len: u16, data: seq<byte>)
    requires forall i | 0 <= i < |words| :: |words[i]| == 4
    ensures WordSum(PseudoPacket(words, proto, len, data), false)
      == WordSum(Concat(words), false) + WordSum(data, false) + Swap(proto) + Swap(len)
  {
    EvenWords(words);
    var tail := ProtoAndLength(proto, len);
    ProtoAndLengthSum(proto, len);
    ThreePartsSum(Concat(words), tail, data, Swap(proto) + Swap(len));
  }

  lemma ThreePartsSum(a: seq<byte>, b: seq<byte>, c: seq<byte>, x: nat)
    requires |a| % 2 == 0 && |b| % 2 == 0 && WordSum(b, false) == x
    ensures WordSum(a + b + c, false) == WordSum(a, false) + WordSum(c, false) + x
  {
    ThreeParts(a, b, c);
  }

  lemma PseudoChksum(words: seq<seq<byte>>, proto: u8, len: u16, data: seq<byte>)
    requires forall i | 0 <= i < |words| :: |words[i]| == 4
    ensures Rep16(Rep16(WordSum(Concat(words), false)) + WordSum(data, false) + Swap(proto) + Swap(len))
      == Chksum(PseudoPacket(words, proto, len, data))
  {
    PseudoSum(words, proto, len, data);
    var a := WordSum(Concat(words), false);
    SameAdd(Rep16(a), a, WordSum(data, false) + Swap(proto) + Swap(len));
  }

  /** inet_chksum_pseudo and ip6_chksum_pseudo: the checksum of pseudo header and flat data. */
  method ChksumPseudo(chain: seq<Segment>, proto: u8, len: u16, words: seq<seq<byte>>) returns (r: nat)
    requires Lengths16(chain)
    requires (|words| == 2 || |words| == 8) && forall i | 0 <= i < |words| :: |words[i]| == 4
    ensures r == 65535 - Chksum(PseudoPacket(words, proto, len, Flat(chain)))
  {
    var acc := AddressSum(words);
    r := PseudoBase(chain, proto, len, acc);
    PseudoChksum(words, proto, len, Flat(chain));
  }

  lemma Ipv6HeaderSum(proto: u8, len: u16)
    ensures WordSum([0, 0, len / 256, len % 256], false) + WordSum([0, 0, 0, proto], false) == Swap(proto) + Swap(len)
  {
    AddressHalves([0, 0, len / 256, len % 256]);
    AddressHalves([0, 0, 0, proto]);
  }

  /** The IPv6 pseudo header (section 8.1 of RFC 2460) has a 32-bit length and three zero bytes; its sum is the same. */
  lemma Ipv6PseudoHeader(words: seq<seq<byte>>, proto: u8, len: u16, data: seq<byte>)
    requires forall i | 0 <= i < |words| :: |words[i]| == 4
    ensures Chksum(Concat(words) + [0, 0, len / 256, len % 256] + [0, 0, 0, proto] + data)
      == Chksum(PseudoPacket(words, proto, len, data))
  {
    var h, z, w := [0, 0, len / 256, len % 256], [0, 0, 0, proto], Concat(words);
    EvenWords(words);
    PseudoSum(words, proto, len, data);
    Ipv6HeaderSum(proto, len);
    FourParts(w, h, z, data);
    SameWordSum(w + h + z + data, PseudoPacket(words, proto, len, data));
  }

  lemma SameWordSum(a: seq<byte>, b: seq<byte>)
    requires WordSum(a, false) == WordSum(b, false)
    ensures Chksum(a) == Chksum(b)
  {
  }

  lemma FourParts(w: seq<byte>, h: seq<byte>, z: seq<byte>, data: seq<byte>)
    requires |w| % 2 == 0 && |h| % 2 == 0 && |z| % 2 == 0
    ensures WordSum(w + h + z + data, false)
      == WordSum(w, false) + WordSum(h, false) + WordSum(z, false) + WordSum(data, false)
  {
    ThreeParts(w, h, z);
    WordSumConcat(w + h + z, data, false);
  }

  // ---- the partial form ----

  lemma PrefixStep(chain: seq<Segment>, i: nat, n: nat)
    requires i < |chain| && |Flat(chain[..i])| <= n
    ensures var k := Min(|chain[i].data|, n - |Flat(chain[..i])|);
      Flat(chain[..i]) + chain[i].data[..k] == Flat(chain[..i + 1])[..Min(n, |Flat(chain[..i + 1])|)]
  {
    FlatStep(chain, i);
  }

  lemma {:induction false} PrefixOfWhole(chain: seq<Segment>, i: nat)
    requires i <= |chain|
    ensures Flat(chain[..i]) <= Flat(chain)
    decreases |chain| - i
  {
    if i < |chain| {
      FlatStep(chain, i);
      PrefixOfWhole(chain, i + 1);
    } else {
      assert chain[..i] == chain;
    }
  }

  /**
   * One round of the partial loop: sum at most `left` bytes of a pbuf, fold, and swap by the parity of the whole
   * pbuf.
   */
  method PartialStep(seg: Segment, left: nat, acc: nat, swapped: bool, ghost base: nat, ghost s: seq<byte>)
    returns (k: nat, acc': nat, swapped': bool)
    requires |seg.data| < 0x1_0000 && 0 < left && Accumulated(acc, swapped, base, s)
    ensures k == Min(|seg.data|, left)
    ensures k < left ==> Accumulated(acc', swapped', base, s + seg.data)
    ensures k == left ==> Unswap(acc', swapped') == Rep16(base + WordSum(s + seg.data[..k], false))
  {
    k := if |seg.data| > left then left else |seg.data|;
    var chk := Chksum2(seg.data[..k], seg.odd);
    acc', swapped' := Fold(acc + chk), swapped;
    if |seg.data| % 2 != 0 {
      acc', swapped' := Swap(acc'), !swapped;
    }
    PartialSums(seg.data, k, acc, swapped, base, s);
  }

  lemma PartialSums(q: seq<byte>, k: nat, acc: nat, swapped: bool, base: nat, s: seq<byte>)
    requires k <= |q| && Accumulated(acc, swapped, base, s)
    ensures var acc', swapped' := ChainStep(acc, Chksum(q[..k]), |q|), if |q| % 2 != 0 then !swapped else swapped;
      && (k == |q| ==> Accumulated(acc', swapped', base, s + q))
      && Unswap(acc', swapped') == Rep16(base + WordSum(s + q[..k], false))
  {
    var x := base + WordSum(s + q[..k], false);
    AddSegment(acc, swapped, base, s, q[..k]);
    LastSegment(if swapped then 256 * x else x, swapped, |q| % 2 != 0, x);
    if k == |q| {
      assert q[..k] == q;
      ExtendAccumulated(acc, swapped, base, s, q);
    }
  }

  /** 32767 bytes or more are still to be summed after the first pbuf. */
  predicate MuchLeft(chain: seq<Segment>, n: u16) {
    chain != [] && n > 0 && n - Min(n, |chain[0].data|) >= 0x7fff
  }

  /**
   * The loop of inet_cksum_pseudo_partial_base: only the first n bytes count.  It swaps by the parity of the whole
   * pbuf, not of the part it summed; this is right because the pbuf it stops inside is the last one it visits.
   * `assertion` is the outcome of the LWIP_ASSERT on what is left after each pbuf, which the result does not depend
   * on.
   */
  method SumPartial(chain: seq<Segment>, n: u16, acc0: nat) returns (acc: nat, assertion: bool)
    requires Lengths16(chain) && acc0 <= 0xffff
    ensures acc == Rep16(acc0 + WordSum(Flat(chain)[..Min(n, |Flat(chain)|)], false))
    ensures assertion <==> !MuchLeft(chain, n)
  {
    acc, assertion := acc0, true;
    var swapped, left: nat, i := false, n, 0;
    while i < |chain| && left > 0
      invariant 0 <= i <= |chain|
      invariant left > 0 ==> |Flat(chain[..i])| == n - left && Accumulated(acc, swapped, acc0, Flat(chain[..i]))
      invariant left == 0 ==> n <= |Flat(chain[..i])|
      invariant i == 0 ==> left == n && assertion
      invariant i > 0 ==> n > 0 && left <= n - Min(n, |chain[0].data|) && assertion == !MuchLeft(chain, n)
      invariant left == 0 ==> Unswap(acc, swapped) == Rep16(acc0 + WordSum(Flat(chain[..i])[..n], false))
    {
      var k;
      PrefixStep(chain, i, n);
      FlatStep(chain, i);
      k, acc, swapped := PartialStep(chain[i], left, acc, swapped, acc0, Flat(chain[..i]));
      left := left - k;
      assertion := assertion && left < 0x7fff;
      i := i + 1;
    }
    assert chain[..|chain|] == chain;
    PartialDone(chain, n, acc0, acc, swapped, i, left);
    acc := Unswap(acc, swapped);
  }

  /** The loop has ended: the chain is used up, or n bytes are summed. */
  lemma PartialDone(chain: seq<Segment>, n: u16, base: nat, acc: nat, swapped: bool, i: nat, left: nat)
    requires i <= |chain| && (i == |chain| || left == 0)
    requires left > 0 ==> |Flat(chain)| == n - left && Accumulated(acc, swapped, base, Flat(chain))
    requires left == 0 ==> n <= |Flat(chain[..i])|
    requires left == 0 ==> Unswap(acc, swapped) == Rep16(base + WordSum(Flat(chain[..i])[..n], false))
    ensures Unswap(acc, swapped) == Rep16(base + WordSum(Flat(chain)[..Min(n, |Flat(chain)|)], false))
  {
    PrefixOfWhole(chain, i);
    if left > 0 {
      UnswapAccumulated(acc, swapped, base, Flat(chain));
      assert Flat(chain)[..Min(n, |Flat(chain)|)] == Flat(chain);
    } else {
      assert Flat(chain)[..n] == Flat(chain[..i])[..n];
    }
  }

  /** inet_cksum_pseudo_partial_base */
  method PseudoPartialBase(chain: seq<Segment>, proto: u8, len: u16, n: u16, acc0: nat)
    returns (r: nat, assertion: bool)
    requires Lengths16(chain) && acc0 <= 0xffff
    ensures assertion <==> !MuchLeft(chain, n)
    ensures r == 65535 - Rep16(acc0 + WordSum(Flat(chain)[..Min(n, |Flat(chain)|)], false) + Swap(proto) + Swap(len))
  {
    var acc;
    acc, assertion := SumPartial(chain, n, acc0);
    r := AddProtoAndLength(acc, proto, len, acc0 + WordSum(Flat(chain)[..Min(n, |Flat(chain)|)], false));
  }

  /** inet_chksum_pseudo_partial and ip6_chksum_pseudo_partial: pseudo header and the first n bytes of the flat data. */
  method ChksumPseudoPartial(chain: seq<Segment>, proto: u8, len: u16, n: u16, words: seq<seq<byte>>)
    returns (r: nat, assertion: bool)
    requires Lengths16(chain)
    requires (|words| == 2 || |words| == 8) && forall i | 0 <= i < |words| :: |words[i]| == 4
    ensures assertion <==> !MuchLeft(chain, n)
    ensures r == 65535 - Chksum(PseudoPacket(words, proto, len, Flat(chain)[..Min(n, |Flat(chain)|)]))
  {
    var acc := AddressSum(words);
    r, assertion := PseudoPartialBase(chain, proto, len, n, acc);
    PseudoChksum(words, proto, len, Flat(chain)[..Min(n, |Flat(chain)|)]);
  }

  /** On the last pbuf visited, flipping `swapped` and swapping the sum cancel out. */
  lemma LastSegment(y: nat, was: bool, flip: bool, x: nat)
    requires y == if was then 256 * x else x
    ensures Unswap(if flip then Swap(Rep16(y)) else Rep16(y), if flip then !was else was) == Rep16(x)
  {
    SwapIsTimes256(y);
    Times65536(x);
    SwapTwice(Rep16(y));
  }

  // ---- pbuf_fill_chksum ----

  function Weight(i: nat): nat { if i % 2 == 0 then 1 else 256 }

  /** Sum of the filled positions below n, each byte in its place. */
  ghost function FilledSum(b: seq<byte>, filled: seq<bool>, n: nat): nat
    requires n <= |b| == |filled|
  {
    if n == 0 then 0
    else FilledSum(b, filled, n - 1) + if filled[n - 1] then Weight(n - 1) * (b[n - 1] as int) else 0
  }

  lemma WordSumSnoc(s: seq<byte>, k: nat, high: bool)
    requires k < |s|
    ensures WordSum(s[..k + 1], high)
      == WordSum(s[..k], high) + (if (k % 2 == 1) != high then 256 else 1) * (s[k] as int)
  {
    assert s[..k + 1] == s[..k] + [s[k]];
    WordSumConcat(s[..k], [s[k]], high);
    assert [s[k]][1..] == [];
  }

  lemma {:induction false} FilledAll(b: seq<byte>, filled: seq<bool>, n: nat)
    requires n <= |b| == |filled| && forall i | 0 <= i < n :: filled[i]
    ensures FilledSum(b, filled, n) == WordSum(b[..n], false)
  {
    if n > 0 {
      FilledAll(b, filled, n - 1);
      WordSumSnoc(b, n - 1, false);
    }
  }

  ghost predicate Untouched(filled: seq<bool>, off: nat, len: nat) {
    forall i | off <= i < off + len && i < |filled| :: !filled[i]
  }

  function Cover(filled: seq<bool>, off: nat, len: nat): (r: seq<bool>)
    requires off + len <= |filled|
    ensures |r| == |filled| && forall i | 0 <= i < |r| :: r[i] == (filled[i] || off <= i < off + len)
  {
    filled[..off] + seq(len, _ => true) + filled[off + len..]
  }

  /** How many of len bytes at off lie below n. */
  function Overlap(n: nat, off: nat, len: nat): nat { if n <= off then 0 else Min(n - off, len) }

  /** Copying data to a place not filled before adds the word sum of data, read from the parity of the place. */
  lemma {:induction false} FillAdds(b: seq<byte>, filled: seq<bool>, off: nat, data: seq<byte>, n: nat)
    requires off + |data| <= |b| == |filled| && n <= |b| && Untouched(filled, off, |data|)
    ensures FilledSum(WriteAt(b, off, data), Cover(filled, off, |data|), n)
      == FilledSum(b, filled, n) + WordSum(data[..Overlap(n, off, |data|)], off % 2 == 1)
  {
    if n > 0 {
      FillAdds(b, filled, off, data, n - 1);
      FillOne(b, filled, off, data, n - 1);
    }
  }

  lemma FillOne(b: seq<byte>, filled: seq<bool>, off: nat, data: seq<byte>, i: nat)
    requires off + |data| <= |b| == |filled| && i < |b| && Untouched(filled, off, |data|)
    ensures var k, k' := Overlap(i, off, |data|), Overlap(i + 1, off, |data|);
      (if Cover(filled, off, |data|)[i] then Weight(i) * (WriteAt(b, off, data)[i] as int) else 0)
      == (if filled[i] then Weight(i) * (b[i] as int) else 0)
         + WordSum(data[..k'], off % 2 == 1) - WordSum(data[..k], off % 2 == 1)
  {
    assert WriteAt(b, off, data)[i] == if off <= i < off + |data| then data[i - off] else b[i];
    if off <= i < off + |data| {
      WordSumSnoc(data, i - off, off % 2 == 1);
    }
  }

  lemma FillWhole(b: seq<byte>, filled: seq<bool>, off: nat, data: seq<byte>)
    requires off + |data| <= |b| == |filled| && Untouched(filled, off, |data|)
    ensures FilledSum(WriteAt(b, off, data), Cover(filled, off, |data|), |b|)
      == FilledSum(b, filled, |b|) + WordSum(data, off % 2 == 1)
  {
    FillAdds(b, filled, off, data, |b|);
    assert data[..Overlap(|b|, off, |data|)] == data;
  }

  /** A pbuf payload being filled piece by piece, with the checksum kept up to date. */
  class ChecksumOnCopy {
    const payload: array<byte>
    var chksum: nat
    ghost var filled: seq<bool>

    ghost predicate Valid()
      reads this, payload
    {
      && |filled| == payload.Length
      && chksum == Rep16(FilledSum(payload[..], filled, payload.Length))
    }

    constructor (size: u16)
      ensures Valid() && fresh(payload) && payload.Length == size && chksum == 0
      ensures forall i | 0 <= i < size :: !filled[i]
    {
      payload := new byte[size](_ => 0);
      chksum := 0;
      filled := seq(size, _ => false);
      new;
      NothingFilled(payload[..], filled, payload.Length);
    }

    /** pbuf_fill_chksum; false is ERR_ARG. */
    method Fill(start: u16, data: seq<byte>, odd: bool) returns (ok: bool)
      requires Valid() && 0 < |data| < 0x1_0000 && Untouched(filled, start, |data|)
      modifies this, payload
      ensures Valid() && (ok <==> start + |data| <= payload.Length)
      ensures ok ==> payload[..] == WriteAt(old(payload[..]), start, data)
      ensures ok ==> filled == Cover(old(filled), start, |data|)
      ensures !ok ==> payload[..] == old(payload[..]) && chksum == old(chksum) && filled == old(filled)
    {
      if start >= payload.Length || start + |data| > payload.Length {
        return false;
      }
      var copy := CopyIn(start, data, odd);
      FillWhole(old(payload[..]), filled, start, data);
      CopySum(chksum, FilledSum(old(payload[..]), filled, payload.Length), data, start % 2 == 1);
      chksum := Fold(chksum + copy);
      filled := Cover(filled, start, |data|);
      ok := true;
    }

    /** LWIP_CHKSUM_COPY, byte-swapped for an odd offset. */
    method CopyIn(start: u16, data: seq<byte>, odd: bool) returns (copy: nat)
      requires start + |data| <= payload.Length && |data| < 0x1_0000
      modifies payload
      ensures payload[..] == WriteAt(old(payload[..]), start, data)
      ensures copy == if start % 2 == 1 then Swap(Chksum(data)) else Chksum(data)
    {
      forall i | 0 <= i < |data| {
        payload[start + i] := data[i];
      }
      copy := Chksum2(data, odd);
      if start % 2 != 0 {
        copy := Swap(copy);
      }
    }

    /** However the payload was tiled and in whatever order, the result is the checksum of the whole. */
    lemma Complete()
      requires Valid() && forall i | 0 <= i < payload.Length :: filled[i]
      ensures chksum == Chksum(payload[..])
    {
      FilledAll(payload[..], filled, payload.Length);
      assert payload[..][..payload.Length] == payload[..];
    }
  }

  lemma {:induction false} NothingFilled(b: seq<byte>, filled: seq<bool>, n: nat)
    requires n <= |b| == |filled| && forall i | 0 <= i < n :: !filled[i]
    ensures FilledSum(b, filled, n) == 0
  {
    if n > 0 {
      NothingFilled(b, filled, n - 1);
    }
  }

  lemma CopySum(c: nat, x: nat, data: seq<byte>, high: bool)
    requires c == Rep16(x)
    ensures Fold(c + if high then Swap(Chksum(data)) else Chksum(data)) == Rep16(x + WordSum(data, high))
  {
    var w := WordSum(data, false);
    SwapIsTimes256(w);
    OtherOrder(data, false, 0);
    var y := if high then Swap(Chksum(data)) else Chksum(data);
    OneFold(c, y);
    SameAdd(c, x, y);
    SameAdd(y, WordSum(data, high), x);
  }
}
