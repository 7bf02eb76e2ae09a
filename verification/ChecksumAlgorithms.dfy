/** The three lwip_standard_chksum versions of core/inet_chksum.c, all equal to InetChecksum.Chksum. */
module ChecksumAlgorithms {
  import opened Common
  import opened InetChecksum

  /** u32_t addition. */
  function Add32(a: nat, b: nat): u32 { (a + b) % 0x1_0000_0000 }

  /** Little-endian u16_t at index i. */
  function Le16(s: seq<byte>, i: nat): nat
    requires i + 2 <= |s|
  {
    s[i] as int + 256 * (s[i + 1] as int)
  }

  /** Little-endian u32_t at index i. */
  function Le32(s: seq<byte>, i: nat): nat
    requires i + 4 <= |s|
  {
    Le16(s, i) + 0x1_0000 * Le16(s, i + 2)
  }

  lemma TwoBytes(s: seq<byte>, i: nat, high: bool)
    requires i + 2 <= |s|
    ensures WordSum(s[i..], high)
      == (if high then 256 * (s[i] as int) + s[i + 1] as int else Le16(s, i)) + WordSum(s[i + 2..], high)
  {
    OneByte(s, i, high);
    OneByte(s, i + 1, !high);
  }

  lemma OneByte(s: seq<byte>, i: nat, high: bool)
    requires i < |s|
    ensures WordSum(s[i..], high) == (if high then 256 * (s[i] as int) else s[i] as int) + WordSum(s[i + 1..], !high)
  {
    assert s[i..][1..] == s[i + 1..];
  }

  /** The bytes of each pair as a big-endian word, an odd last byte in the high half. */
  method SumPairs(data: seq<byte>) returns (acc: u32)
    requires |data| <= 0x1_0000
    ensures acc == WordSum(data, true)
  {
    var i;
    acc, i := 0, 0;
    while |data| - i > 1
      invariant 0 <= i <= |data| && i % 2 == 0
      invariant acc + WordSum(data[i..], true) == WordSum(data, true)
      invariant 0 <= acc <= i / 2 * 65535
    {
      TwoBytes(data, i, true);
      var src := data[i] as int * 256 + data[i + 1] as int;
      acc := Add32(acc, src);
      i := i + 2;
    }
    if |data| - i > 0 {
      OneByte(data, i, true);
      acc := Add32(acc, data[i] as int * 256);
    }
  }

  /** Version 1: big-endian words, htons at the end. */
  method Chksum1(data: seq<byte>) returns (r: nat)
    requires |data| <= 0x1_0000
    ensures r == Chksum(data)
  {
    var acc := SumPairs(data);
    TwoFolds(acc);
    acc := Fold(acc);
    if acc / 0x1_0000 != 0 {
      acc := Fold(acc);
    }
    assert acc == Rep16(WordSum(data, true));
    SwapIsTimes256(WordSum(data, true));
    OtherOrder(data, true, 0);
    r := Swap(acc);
  }

  /** How versions 2 and 3 end: two folds, and a byte swap if the data started at an odd address. */
  method Close(data: seq<byte>, sum: u32, odd: bool) returns (r: nat)
    requires Same(sum, WordSum(data, odd))
    ensures r == Chksum(data)
  {
    TwoFolds(sum);
    SwapIsTimes256(WordSum(data, true));
    OtherOrder(data, true, 0);
    r := Fold(Fold(sum));
    if odd {
      r := Swap(r);
    }
  }

  /** Up to an even address: an odd first byte goes into the high half of t. */
  method AlignTo2(data: seq<byte>, odd: bool) returns (t: nat, i: nat)
    ensures i == (if odd && |data| > 0 then 1 else 0) && t <= 0xff00 && t % 256 == 0
    ensures t + WordSum(data[i..], false) == WordSum(data, odd)
  {
    t, i := 0, 0;
    if odd && |data| > 0 {
      OneByte(data, 0, true);
      t, i := 256 * (data[0] as int), 1;
    }
    assert data[0..] == data;
  }

  /** The loop over whole 16-bit words. */
  method SumWords(data: seq<byte>, i0: nat) returns (i: nat, sum: nat)
    requires i0 <= |data| <= 0x2_0000
    ensures i0 <= i <= |data| <= i + 1 && 2 * sum <= (i - i0) * 65535
    ensures sum + WordSum(data[i..], false) == WordSum(data[i0..], false)
  {
    i, sum := i0, 0;
    while |data| - i > 1
      invariant i0 <= i <= |data| && 2 * sum <= (i - i0) * 65535
      invariant sum + WordSum(data[i..], false) == WordSum(data[i0..], false)
    {
      TwoBytes(data, i, false);
      sum := Add32(sum, Le16(data, i));
      i := i + 2;
    }
  }

  /** An odd last byte goes into the low half. */
  method AddLast(data: seq<byte>, i: nat, t0: nat) returns (t: nat)
    requires i <= |data| <= i + 1 && t0 <= 0xff00
    ensures t == t0 + WordSum(data[i..], false) && t <= 0xffff
  {
    t := t0;
    if |data| - i > 0 {
      OneByte(data, i, false);
      t := t + data[i] as int;
    }
  }

  /** Version 2: native words from an even address, the odd first and last bytes collected in t. */
  method Chksum2(data: seq<byte>, odd: bool) returns (r: nat)
    requires |data| <= 0x2_0000
    ensures r == Chksum(data)
  {
    var t, i0 := AlignTo2(data, odd);
    var i, sum := SumWords(data, i0);
    t := AddLast(data, i, t);
    assert sum + t == WordSum(data, odd);
    r := Close(data, Add32(sum, t), odd);
  }

  /** 32-bit addition with the carry added back is one's complement addition. */
  lemma CarryAddBack(sum: u32, v: u32)
    ensures var tmp := Add32(sum, v);
      var res := if tmp < sum then tmp + 1 else tmp;
      0 <= res < 0x1_0000_0000 && Same(res, sum + v)
  {
    if sum + v >= 0x1_0000_0000 {
      SameShift(sum + v - 65535 * 65537, 65537);
    }
  }

  /** A 32-bit word weighs as much as its two halves. */
  lemma WideWord(s: seq<byte>, i: nat, base: nat)
    requires i + 4 <= |s|
    ensures Same(base + Le32(s, i) + WordSum(s[i + 4..], false), base + WordSum(s[i..], false))
  {
    TwoBytes(s, i, false);
    TwoBytes(s, i + 2, false);
    var whole := base + WordSum(s[i..], false);
    if whole != 0 {
      SameShift(whole, Le16(s, i + 2));
    }
  }

  lemma Le32Bound(s: seq<byte>, i: nat)
    requires i + 4 <= |s|
    ensures Le32(s, i) < 0x1_0000_0000
  {
  }

  /** One `tmp = sum + *pl++` step with its carry, of which the unrolled loop has two. */
  method AddWide(data: seq<byte>, i: nat, sum: u32, ghost t: nat, ghost total: nat) returns (res: u32)
    requires i + 4 <= |data| && Same(t + sum + WordSum(data[i..], false), total)
    ensures Same(t + res + WordSum(data[i + 4..], false), total)
  {
    var v := Le32(data, i);
    Le32Bound(data, i);
    CarryAddBack(sum, v);
    res := Add32(sum, v);
    if res < sum {
      res := res + 1;
    }
    ghost var rest := WordSum(data[i + 4..], false);
    SameAdd(res, sum + v, t + rest);
    WideWord(data, i, t + sum);
    assert t + sum + v + rest == sum + v + (t + rest) && res + (t + rest) == t + res + rest;
  }

  /** Up to an address that is a multiple of four. */
  method AlignTo4(data: seq<byte>, i0: nat, addr: nat) returns (i: nat, sum: u32)
    requires i0 <= |data|
    ensures i0 <= i <= |data| && sum + WordSum(data[i..], false) == WordSum(data[i0..], false)
  {
    i, sum := i0, 0;
    if (addr + i) % 4 != 0 && |data| - i > 1 {
      TwoBytes(data, i, false);
      sum := Le16(data, i);
      i := i + 2;
    }
  }

  /** Version 3: eight bytes a round in 32-bit words, for data of any length at any alignment. */
  method Chksum3(data: seq<byte>, addr: nat) returns (r: nat)
    ensures r == Chksum(data)
  {
    var odd := addr % 2 == 1;
    var t, i0 := AlignTo2(data, odd);
    var i, sum: u32 := AlignTo4(data, i0, addr);
    assert t + sum + WordSum(data[i..], false) == WordSum(data, odd);
    ghost var total := WordSum(data, odd);
    while |data| - i > 7
      invariant 0 <= i <= |data| && Same(t + sum + WordSum(data[i..], false), total)
    {
      var tmp := AddWide(data, i, sum, t, total);
      sum := AddWide(data, i + 4, tmp, t, total);
      i := i + 8;
    }
    r := Finish(data, i, t, sum, odd);
  }

  /** The last 16-bit words, at most three of them. */
  method AddWords(data: seq<byte>, i0: nat, sum0: nat, ghost t: nat, ghost total: nat) returns (i: nat, sum: nat)
    requires i0 <= |data| < i0 + 8 && sum0 <= 131070
    requires Same(t + sum0 + WordSum(data[i0..], false), total)
    ensures i0 <= i <= |data| <= i + 1 && sum <= 131070 + 7 * 65535
    ensures Same(t + sum + WordSum(data[i..], false), total)
  {
    i, sum := i0, sum0;
    while |data| - i > 1
      invariant i0 <= i <= |data| && sum <= 131070 + (i - i0) * 65535
      invariant Same(t + sum + WordSum(data[i..], false), total)
    {
      TwoBytes(data, i, false);
      sum := Add32(sum, Le16(data, i));
      i := i + 2;
    }
  }

  /** The end of version 3: one fold, the words left over, an odd last byte, two folds and the swap. */
  method Finish(data: seq<byte>, i0: nat, t0: nat, sum0: u32, odd: bool) returns (r: nat)
    requires i0 <= |data| < i0 + 8 && t0 <= 0xff00
    requires Same(t0 + sum0 + WordSum(data[i0..], false), WordSum(data, odd))
    ensures r == Chksum(data)
  {
    FoldSame(sum0);
    SameAdd(Fold(sum0), sum0, t0 + WordSum(data[i0..], false));
    var i, sum := AddWords(data, i0, Fold(sum0), t0, WordSum(data, odd));
    var t := AddLast(data, i, t0);
    assert t + sum == t0 + sum + WordSum(data[i..], false);
    r := Close(data, Add32(sum, t), odd);
  }

  /** inet_chksum over one buffer, with the algorithm LWIP_CHKSUM_ALGORITHM selects. */
  method InetChksum(data: seq<byte>, odd: bool) returns (r: nat)
    requires |data| < 0x1_0000
    ensures r == 65535 - Chksum(data)
  {
    var x := Chksum2(data, odd);
    r := 65535 - x;
  }
}
