/**
 * The Internet checksum as a mathematical function (sections 1 and 2 of RFC 1071): 16-bit words added in one's
 * complement arithmetic, that is, modulo 65535 with 65535 standing for a non-zero multiple.
 */
module InetChecksum {
  import opened Common

  /** Sum of the 16-bit words of s; `high` says whether the first byte is the high byte of its word. */
  function WordSum(s: seq<byte>, high: bool): nat {
    if s == [] then 0 else (if high then 256 * (s[0] as int) else s[0] as int) + WordSum(s[1..], !high)
  }

  /** 0 for 0, otherwise the representative of x modulo 65535 in 1..65535 (see Rep16IsRemainder). */
  function Rep16(x: nat): (r: nat)
    ensures r <= 0xffff && (r == 0 <==> x == 0)
  {
    if x <= 0xffff then x else Rep16(x - 65535)
  }

  lemma {:induction false} Rep16IsRemainder(x: nat)
    ensures Rep16(x) % 65535 == x % 65535
  {
    if x > 0xffff {
      Rep16IsRemainder(x - 65535);
    }
  }

  /** The non-inverted checksum in the byte order of a little-endian host. */
  function Chksum(s: seq<byte>): nat { Rep16(WordSum(s, false)) }

  // ---- FOLD_U32T and SWAP_BYTES_IN_WORD ----

  function Fold(u: nat): nat { u / 0x1_0000 + u % 0x1_0000 }

  function Swap(w: nat): nat { w % 256 * 256 + w / 256 % 256 }

  /** x and y stand for the same one's complement value. */
  predicate Same(x: nat, y: nat) { Rep16(x) == Rep16(y) }

  lemma {:induction false} SameShift(x: nat, k: nat)
    requires 0 < x
    ensures Same(x + 65535 * k, x)
  {
    if k > 0 {
      SameShift(x, k - 1);
      assert x + 65535 * k - 65535 == x + 65535 * (k - 1);
    }
  }

  lemma SameIff(x: nat, y: nat)
    ensures Same(x, y) <==> (x % 65535 == y % 65535 && (x == 0 <==> y == 0))
  {
    Rep16IsRemainder(x);
    Rep16IsRemainder(y);
  }

  lemma SameDiff(x: nat, y: nat) returns (k: nat)
    requires Same(x, y) && x <= y
    ensures y == x + 65535 * k && (x == 0 ==> y == 0)
  {
    SameIff(x, y);
    k := y / 65535 - x / 65535;
  }

  lemma SameAdd(x: nat, y: nat, z: nat)
    requires Same(x, y)
    ensures Same(x + z, y + z)
  {
    if x > y {
      SameAdd(y, x, z);
    } else {
      var k := SameDiff(x, y);
      if x + z > 0 { SameShift(x + z, k); }
    }
  }

  lemma SameTimes256(x: nat, y: nat)
    requires Same(x, y)
    ensures Same(256 * x, 256 * y)
  {
    if x > y {
      SameTimes256(y, x);
    } else {
      var k := SameDiff(x, y);
      if x > 0 { SameShift(256 * x, 256 * k); }
    }
  }

  lemma FoldSame(u: nat)
    ensures Same(Fold(u), u)
  {
    SameIff(Fold(u), u);
  }

  /** Two folds reduce any 32-bit sum to its representative. */
  lemma TwoFolds(u: u32)
    ensures Fold(Fold(u)) == Rep16(u)
  {
    FoldSame(u);
    FoldSame(Fold(u));
  }

  /** One fold is enough for the sum of two representatives. */
  lemma OneFold(x: u16, y: u16)
    ensures Fold(x + y) == Rep16(x + y)
  {
    FoldSame(x + y);
  }

  /** Swapping the bytes of a representative multiplies by 256. */
  lemma SwapIsTimes256(x: nat)
    ensures Swap(Rep16(x)) == Rep16(256 * x)
  {
    var r := Rep16(x);
    assert 256 * r == Swap(r) + 65535 * (r / 256);
    SameTimes256(x, r);
    if r != 0 {
      SameShift(Swap(r), r / 256);
    }
  }

  lemma SwapTwice(w: u16)
    ensures Swap(Swap(w)) == w && Swap(w) <= 0xffff
  {
  }

  // ---- word sums ----

  lemma {:induction false} WordSumConcat(a: seq<byte>, b: seq<byte>, high: bool)
    ensures WordSum(a + b, high) == WordSum(a, high) + WordSum(b, if |a| % 2 == 0 then high else !high)
  {
    if a == [] {
      assert a + b == b;
    } else {
      WordSumConcat(a[1..], b, !high);
      assert (a + b)[1..] == a[1..] + b;
    }
  }

  /** Bytes in high position: what byte-swapping the sum carries around. */
  function HighBytes(s: seq<byte>, high: bool): nat {
    if s == [] then 0 else (if high then s[0] as int else 0) + HighBytes(s[1..], !high)
  }

  lemma {:induction false} SwappedSum(s: seq<byte>, high: bool)
    ensures 256 * WordSum(s, high) == WordSum(s, !high) + 65535 * HighBytes(s, high)
    ensures WordSum(s, high) == 0 <==> WordSum(s, !high) == 0
  {
    if s != [] {
      SwappedSum(s[1..], !high);
    }
  }

  /** Reading the words in the other byte order multiplies the sum by 256. */
  lemma OtherOrder(s: seq<byte>, high: bool, base: nat)
    ensures Same(base + 256 * WordSum(s, high), base + WordSum(s, !high))
  {
    SwappedSum(s, high);
    if WordSum(s, !high) != 0 {
      SameShift(base + WordSum(s, !high), HighBytes(s, high));
    }
  }

  lemma {:induction false} AllZero(s: seq<byte>, high: bool)
    ensures WordSum(s, high) == 0 <==> forall i | 0 <= i < |s| :: s[i] == 0
  {
    if s != [] {
      AllZero(s[1..], !high);
      assert forall i | 1 <= i < |s| :: s[i] == s[1..][i - 1];
    }
  }

  /** The checksum is zero only for all-zero data. */
  lemma ChksumZero(s: seq<byte>)
    ensures Chksum(s) == 0 <==> forall i | 0 <= i < |s| :: s[i] == 0
  {
    AllZero(s, false);
  }

  // ---- verification of a stored checksum ----

  lemma PairSum(a: byte, b: byte)
    ensures WordSum([a, b], false) == (a as int) + 256 * (b as int)
    ensures WordSum([a, b], true) == 256 * (a as int) + (b as int)
  {
    assert [a, b][1..] == [b];
    SingleSum(b);
  }

  lemma SingleSum(b: byte)
    ensures WordSum([b], true) == 256 * (b as int) && WordSum([b], false) == b as int
  {
    assert [b][1..] == [];
    assert WordSum([], true) == 0 && WordSum([], false) == 0;
  }

  /** A word at an even offset adds its little-endian value to the sum. */
  lemma WordInside(s: seq<byte>, k: nat, a: byte, b: byte)
    requires k % 2 == 0 && k + 2 <= |s|
    ensures WordSum(s[k := a][k + 1 := b], false)
      == WordSum(s[..k], false) + (a as int) + 256 * (b as int) + WordSum(s[k + 2..], false)
  {
    var t := s[k := a][k + 1 := b];
    assert t == s[..k] + ([a, b] + s[k + 2..]);
    WordSumConcat(s[..k], [a, b] + s[k + 2..], false);
    WordSumConcat([a, b], s[k + 2..], false);
    PairSum(a, b);
  }

  lemma {:induction false} ComplementVerifies(x: nat)
    ensures Rep16(x + (65535 - Rep16(x))) == 65535
  {
    if x > 0xffff {
      ComplementVerifies(x - 65535);
    }
  }

  /** Storing the complement of the checksum in a zeroed even-offset field makes re-verification give 0. */
  lemma StoredChecksumVerifies(s: seq<byte>, k: nat)
    requires k % 2 == 0 && k + 2 <= |s| && s[k] == 0 && s[k + 1] == 0
    ensures var v := 65535 - Chksum(s);
      65535 - Chksum(s[k := v % 256][k + 1 := v / 256]) == 0
  {
    var v := 65535 - Chksum(s);
    WordInside(s, k, v % 256, v / 256);
    WordInside(s, k, 0, 0);
    assert s[k := 0][k + 1 := 0] == s;
    ComplementVerifies(WordSum(s, false));
  }
}
