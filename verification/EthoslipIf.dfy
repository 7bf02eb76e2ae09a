/**
 * arch/ethoslipif.c and the receive task of src/ethoslip_main.c: frames with a 14-bit trailer checksum over the serial
 * link, end to end.
 */
module EthoslipIf {
  import opened Common
  import opened Slip
  import opened SerialLink

  const BUF_SIZE: nat := 4000

  // ---- the trailer ----

  function ByteSum(s: seq<byte>): nat {
    if s == [] then 0 else ByteSum(s[..|s| - 1]) + s[|s| - 1] as int
  }

  /** Seven bits of the complemented sum from either half: (sum & 0x7f00) >> 8 and sum & 0x7f. */
  function Trailer(s: seq<byte>): seq<byte> {
    var sum := 0xffff - ByteSum(s) % 0x1_0000;
    [sum / 0x100 % 0x80, sum % 0x80]
  }

  function Sealed(s: seq<byte>): seq<byte> { s + Trailer(s) }

  /** The condition if_api_check tests. */
  predicate Accepts(f: seq<byte>) { |f| >= 2 && f[|f| - 2..] == Trailer(f[..|f| - 2]) }

  /** The trailer bytes complement bits 8 to 14 and bits 0 to 6 of the byte sum to 127. */
  predicate Complements(high: byte, low: byte, sum: nat) {
    high + sum / 0x100 % 0x80 == 127 && low + sum % 0x80 == 127
  }

  lemma TrailerBytes(s: seq<byte>)
    ensures |Trailer(s)| == 2
    ensures Trailer(s)[0] + ByteSum(s) / 0x100 % 0x80 == 127 && Trailer(s)[1] + ByteSum(s) % 0x80 == 127
  {
    Complement(ByteSum(s));
  }

  /** A frame is accepted exactly if its last two bytes complement the sum of the others in this way. */
  lemma AcceptsIff(f: seq<byte>)
    ensures Accepts(f) <==> |f| >= 2 && Complements(f[|f| - 2], f[|f| - 1], ByteSum(f[..|f| - 2]))
  {
    if |f| >= 2 {
      var s, x := f[..|f| - 2], f[|f| - 2..];
      TrailerBytes(s);
      assert x == [f[|f| - 2], f[|f| - 1]];
      assert x == Trailer(s) <==> x[0] == Trailer(s)[0] && x[1] == Trailer(s)[1];
    }
  }

  /** Bits 0 to 6 and 8 to 14 agree. */
  predicate SameBits(x: nat, y: nat) { x % 0x80 == y % 0x80 && x / 0x100 % 0x80 == y / 0x100 % 0x80 }

  /** Two payloads have the same trailer exactly when their byte sums agree in bits 0 to 6 and 8 to 14. */
  lemma TrailerMeaning(s: seq<byte>, t: seq<byte>)
    ensures Trailer(s) == Trailer(t) <==> SameBits(ByteSum(s), ByteSum(t))
  {
    Complement(ByteSum(s));
    Complement(ByteSum(t));
    var a, b := Trailer(s), Trailer(t);
    assert a == b <==> a[0] == b[0] && a[1] == b[1];
  }

  lemma Complement(x: nat)
    ensures var sum := 0xffff - x % 0x1_0000;
      sum % 0x80 == 127 - x % 0x80 && sum / 0x100 % 0x80 == 127 - x / 0x100 % 0x80
  {
    var y := x % 0x1_0000;
    LowHalf(x / 0x1_0000, y);
    ComplementHalves(y / 0x100, y % 0x100);
    assert y == 0x100 * (y / 0x100) + y % 0x100;
    LowBits(y / 0x100, y % 0x100);
  }

  lemma LowBits(hi: nat, lo: nat)
    ensures (0x100 * hi + lo) % 0x80 == lo % 0x80
  {
    var x, q := 0x100 * hi + lo, 2 * hi + lo / 0x80;
    assert x == 0x80 * q + lo % 0x80;
    assert 0x80 * (x / 0x80 - q) == lo % 0x80 - x % 0x80;
  }

  /** The upper half of a 32-bit sum plays no part. */
  lemma LowHalf(q: nat, y: u16)
    ensures (0x1_0000 * q + y) % 0x80 == y % 0x80
    ensures (0x1_0000 * q + y) / 0x100 % 0x80 == y / 0x100 % 0x80
  {
    LowBits(0x100 * q, y);
    LowBits(q, y / 0x100);
    assert (0x1_0000 * q + y) / 0x100 == 0x100 * q + y / 0x100;
  }

  lemma ComplementHalves(hi: byte, lo: byte)
    ensures var sum := 0xffff - (0x100 * hi + lo);
      sum % 0x80 == 127 - lo % 0x80 && sum / 0x100 % 0x80 == 127 - hi % 0x80
  {
    LowBits(0xff - hi, 0xff - lo);
    assert 0xffff - (0x100 * hi + lo) == 0x100 * (0xff - hi) + (0xff - lo);
    ComplementByte(hi);
    ComplementByte(lo);
  }

  lemma ComplementByte(x: byte)
    ensures (0xff - x) % 0x80 == 127 - x % 0x80
  {
  }

  /** A frame is accepted exactly if it carries the trailer of its payload. */
  lemma AcceptsSealed(s: seq<byte>, x: seq<byte>)
    requires |x| == 2
    ensures Accepts(s + x) <==> x == Trailer(s)
  {
    assert (s + x)[..|s|] == s && (s + x)[|s|..] == x;
  }

  lemma {:induction false} SumUpdate(s: seq<byte>, i: nat, b: byte)
    requires i < |s|
    ensures ByteSum(s[i := b]) == ByteSum(s) - (s[i] as int) + (b as int)
  {
    var n := |s| - 1;
    if i < n {
      SumUpdate(s[..n], i, b);
      assert s[i := b][..n] == s[..n][i := b];
    } else {
      assert s[i := b][..n] == s[..n];
    }
  }

  /** Sums of bytes that differ in one place. */
  lemma NearSums(x: nat, y: nat)
    requires x < y <= x + 255
    ensures SameBits(x, y) <==> y - x == 128 && x / 0x100 == y / 0x100
  {
    var a, b := x / 0x100, y / 0x100;
    assert a <= b <= a + 1;
    NeighboursDiffer(a);
    SameLowBits(x, y);
  }

  lemma NeighboursDiffer(a: nat)
    ensures a % 0x80 != (a + 1) % 0x80
  {
  }

  lemma SameLowBits(x: nat, y: nat)
    requires x < y <= x + 255
    ensures x % 0x80 == y % 0x80 <==> y - x == 128
  {
    var a, b := x / 0x80, y / 0x80;
    assert x == 0x80 * a + x % 0x80 && y == 0x80 * b + y % 0x80;
  }

  /**
   * A single changed payload byte goes unnoticed exactly when it differs by 128 and the change stays within bit 7 of
   * the sum, which the trailer does not carry.
   */
  lemma SingleByteChange(s: seq<byte>, i: nat, b: byte)
    requires i < |s|
    ensures Accepts(s[i := b] + Trailer(s)) <==>
      b == s[i] || ((b - s[i] == 128 || s[i] - b == 128) && ByteSum(s[i := b]) / 0x100 == ByteSum(s) / 0x100)
  {
    var x, y := ByteSum(s), ByteSum(s[i := b]);
    AcceptsSealed(s[i := b], Trailer(s));
    TrailerMeaning(s[i := b], s);
    SumUpdate(s, i, b);
    if b > s[i] {
      NearSums(x, y);
    } else if b < s[i] {
      NearSums(y, x);
    } else {
      assert s[i := b] == s;
    }
  }

  lemma Bit7(x: nat)
    ensures (x + 128) / 0x100 == x / 0x100 <==> x / 0x80 % 2 == 0
  {
    var a := x / 0x80;
    assert x / 0x100 == a / 2 && (x + 128) / 0x100 == (a + 1) / 2;
  }

  /** The gap is real: adding 128 to a byte goes unnoticed iff bit 7 of the sum is clear. */
  lemma Adding128(s: seq<byte>, i: nat)
    requires i < |s| && s[i] < 128
    ensures Accepts(s[i := s[i] + 128] + Trailer(s)) <==> ByteSum(s) / 0x80 % 2 == 0
  {
    SingleByteChange(s, i, s[i] + 128);
    SumUpdate(s, i, s[i] + 128);
    Bit7(ByteSum(s));
  }

  /** The trailer is never mistaken for a framing character, so it costs two characters. */
  lemma {:induction false} SealedSpecials(s: seq<byte>, t: seq<byte>)
    requires |t| == 2 && t[0] < 0x80 && t[1] < 0x80
    ensures Specials(s + t) == Specials(s)
  {
    if s == [] {
      assert s + t == t && t[1..] == [t[1]] && [t[1]][1..] == [];
      assert Specials([t[1]]) == 0;
    } else {
      SealedSpecials(s[1..], t);
      assert (s + t)[1..] == s[1..] + t;
    }
  }

  /** A frame that survives the transmit buffer. */
  predicate Fits(f: seq<byte>) { |f| + Specials(f) + 4 <= 4000 }

  lemma FitsExactly(f: seq<byte>)
    ensures |Encode(Sealed(f))| == |f| + Specials(f) + 4
    ensures Prefix(Encode(Sealed(f)), QUEUE_MAX) == Encode(Sealed(f)) <==> Fits(f)
  {
    SealedSpecials(f, Trailer(f));
    StuffLength(Sealed(f));
  }

  // ---- the code ----

  /** The summing loop of if_api_calculate_checksum, in unsigned int arithmetic. */
  method SumBytes(buf: array<byte>, len: nat) returns (sum: u32)
    requires len <= buf.Length
    ensures sum == ByteSum(buf[..len]) % 0x1_0000_0000
  {
    sum := 0;
    assert buf[..0] == [];
    for i := 0 to len
      invariant sum == ByteSum(buf[..i]) % 0x1_0000_0000
    {
      assert buf[..i + 1][..i] == buf[..i];
      sum := (sum + buf[i] as int) % 0x1_0000_0000;
    }
  }

  /** if_api_calculate_checksum: the trailer is written behind the data. */
  method CalculateChecksum(buf: array<byte>, len: nat) returns (total: nat)
    requires len + 2 <= buf.Length
    modifies buf
    ensures total == len + 2 && buf[..total] == Sealed(old(buf[..len])) && buf[total..] == old(buf[total..])
    ensures buf[len] + ByteSum(old(buf[..len])) / 0x100 % 0x80 == 127
    ensures buf[len + 1] + ByteSum(old(buf[..len])) % 0x80 == 127
  {
    var sum := SumBytes(buf, len);
    LowWord(ByteSum(buf[..len]));
    sum := 0xffff - sum % 0x1_0000;
    ghost var data := buf[..len];
    assert Trailer(data) == [sum / 0x100 % 0x80, sum % 0x80];
    buf[len] := sum / 0x100 % 0x80;
    buf[len + 1] := sum % 0x80;
    TrailerBytes(data);
    assert buf[..len] == data;
    assert buf[..len + 2] == data + [buf[len], buf[len + 1]];
    return len + 2;
  }

  lemma LowWord(x: nat)
    ensures x % 0x1_0000_0000 % 0x1_0000 == x % 0x1_0000
  {
    var q, r := x / 0x1_0000_0000, x % 0x1_0000_0000;
    assert x == 0x1_0000 * (0x1_0000 * q + r / 0x1_0000) + r % 0x1_0000;
  }

  /** if_api_check: the payload length, or None for -1. */
  method Check(buf: array<byte>, len: nat) returns (r: Option<nat>)
    requires len <= buf.Length
    modifies buf
    ensures r == if Accepts(old(buf[..len])) then Some(len - 2) else None
    ensures r.Some? <==>
      len >= 2 && old(buf[len - 2]) + ByteSum(old(buf[..len - 2])) / 0x100 % 0x80 == 127
      && old(buf[len - 1]) + ByteSum(old(buf[..len - 2])) % 0x80 == 127
    ensures len >= 2 ==> buf[..len - 2] == old(buf[..len - 2])
  {
    if len < 2 {
      return None;
    }
    var low, high := buf[len - 1], buf[len - 2];
    ghost var data := buf[..len - 2];
    AcceptsIff(buf[..len]);
    assert buf[..len][len - 2..] == [high, low] && buf[..len][..len - 2] == data;
    buf[len - 1] := 0;
    buf[len - 2] := 0;
    assert buf[..len - 2] == data;
    var _ := CalculateChecksum(buf, len - 2);
    assert buf[..len] == data + Trailer(data);
    assert buf[..len][len - 2] == buf[len - 2] && buf[..len][len - 1] == buf[len - 1];
    assert Trailer(data) == [buf[len - 2], buf[len - 1]];
    if low != buf[len - 1] || high != buf[len - 2] {
      return None;
    }
    assert buf[..len - 2] == buf[..len][..len - 2];
    return Some(len - 2);
  }

  /** ethoslipif_low_level_output on a frame that the output buffer can hold with its trailer. */
  method LowLevelOutput(u: Uart, frame: seq<byte>, buffer: array<byte>)
    requires u.Valid() && buffer.Length == BUF_SIZE && |frame| + 2 <= BUF_SIZE && buffer != u.txBuff
    requires buffer != u.rxBuff
    modifies u`txPtr, u`wire, u.txBuff, buffer
    ensures u.Valid() && u.Pending() == []
    ensures u.wire == old(u.wire) + Prefix(old(u.Pending()) + Encode(Sealed(frame)), QUEUE_MAX)
  {
    forall i | 0 <= i < |frame| {
      buffer[i] := frame[i];
    }
    assert buffer[..|frame|] == frame;
    var total := CalculateChecksum(buffer, |frame|);
    u.SendPacket(buffer, total);
  }

  /** The payloads of the accepted packets. */
  function Good(ps: seq<seq<byte>>): seq<seq<byte>> {
    if ps == [] then [] else (if Accepts(ps[0]) then [ps[0][..|ps[0]| - 2]] else []) + Good(ps[1..])
  }

  /** The frames that the receive task takes from a character stream. */
  function Frames(s: seq<byte>): seq<seq<byte>> { Good(Deliver(BUF_SIZE, IDLE, s)) }

  lemma GoodFirst(p: seq<byte>, ps: seq<seq<byte>>)
    ensures Good([p] + ps) == (if Accepts(p) then [p[..|p| - 2]] else []) + Good(ps)
  {
    assert ([p] + ps)[1..] == ps;
  }

  /** What the receive task delivers are the payloads of the packets whose trailer is right, and of all of them. */
  lemma FramesAreAccepted(s: seq<byte>)
    ensures forall p | p in Deliver(BUF_SIZE, IDLE, s) && Accepts(p) :: p[..|p| - 2] in Frames(s)
    ensures forall f | f in Frames(s) :: exists p :: p in Deliver(BUF_SIZE, IDLE, s) && Accepts(p) && f == p[..|p| - 2]
    ensures |Frames(s)| <= |Deliver(BUF_SIZE, IDLE, s)|
  {
    GoodMembers(Deliver(BUF_SIZE, IDLE, s));
  }

  lemma {:induction false} GoodMembers(ps: seq<seq<byte>>)
    ensures forall p | p in ps && Accepts(p) :: p[..|p| - 2] in Good(ps)
    ensures forall f | f in Good(ps) :: exists p :: p in ps && Accepts(p) && f == p[..|p| - 2]
    ensures |Good(ps)| <= |ps|
  {
    if ps != [] {
      GoodMembers(ps[1..]);
      assert forall p :: p in ps <==> p == ps[0] || p in ps[1..];
    }
  }

  /** The receive task up to its next frame; bad packets are dropped. */
  method ReceiveFrame(u: Uart, buffer: array<byte>) returns (r: Option<seq<byte>>)
    requires u.Valid() && buffer.Length == BUF_SIZE && buffer != u.txBuff && buffer != u.rxBuff
    modifies u`rxPtr, u`rxLen, u`input, u.rxBuff, buffer
    ensures u.Valid() && (r.Some? ==> |u.Stream()| < |old(u.Stream())|)
    ensures Frames(old(u.Stream())) == if r.None? then [] else [r.value] + Frames(u.Stream())
  {
    while true
      invariant u.Valid() && |u.Stream()| <= |old(u.Stream())| && Frames(u.Stream()) == Frames(old(u.Stream()))
      decreases |u.Stream()|
    {
      var n := u.RecvPacket(buffer, BUF_SIZE);
      if n.None? {
        return None;
      }
      ghost var packet := buffer[..n.value];
      GoodFirst(packet, Deliver(BUF_SIZE, IDLE, u.Stream()));
      label Packet:
      var len := Check(buffer, n.value);
      assert u.Stream() == old@Packet(u.Stream());
      if len.Some? {
        assert packet[..n.value - 2] == buffer[..len.value];
        return Some(buffer[..len.value]);
      }
    }
  }

  // ---- end to end ----

  lemma {:induction false} GoodConcat(a: seq<seq<byte>>, b: seq<seq<byte>>)
    ensures Good(a + b) == Good(a) + Good(b)
  {
    if a == [] {
      assert a + b == b;
    } else {
      GoodConcat(a[1..], b);
      GoodFirst(a[0], a[1..]);
      GoodFirst(a[0], a[1..] + b);
      assert a == [a[0]] + a[1..] && a + b == [a[0]] + (a[1..] + b);
      Assoc(if Accepts(a[0]) then [a[0][..|a[0]| - 2]] else [], Good(a[1..]), Good(b));
    }
  }

  function SealedAll(fs: seq<seq<byte>>): (r: seq<seq<byte>>)
    ensures |r| == |fs| && forall i | 0 <= i < |fs| :: r[i] == Sealed(fs[i])
  {
    seq(|fs|, i requires 0 <= i < |fs| => Sealed(fs[i]))
  }

  /** What is on the wire after sending the frames. */
  function Wire(fs: seq<seq<byte>>): seq<byte> { EncodeAll(SealedAll(fs)) }

  ghost predicate AllFit(fs: seq<seq<byte>>) { forall i | 0 <= i < |fs| :: Fits(fs[i]) }

  lemma {:induction false} GoodSealed(fs: seq<seq<byte>>)
    ensures Good(SealedAll(fs)) == fs
  {
    if fs != [] {
      GoodSealed(fs[1..]);
      assert SealedAll(fs)[1..] == SealedAll(fs[1..]);
      AcceptsSealed(fs[0], Trailer(fs[0]));
      assert Sealed(fs[0])[..|fs[0]|] == fs[0];
    }
  }

  lemma SealedPrefixes(fs: seq<seq<byte>>)
    requires AllFit(fs)
    ensures Prefixes(SealedAll(fs), BUF_SIZE) == SealedAll(fs)
  {
    var a, b := Prefixes(SealedAll(fs), BUF_SIZE), SealedAll(fs);
    forall i | 0 <= i < |fs|
      ensures a[i] == b[i]
    {
      assert Fits(fs[i]);
    }
  }

  /**
   * Any frames that fit arrive complete and in order behind any noise; only if the noise ends with an odd number of ESC
   * bytes is the first one lost (or changed beyond recognition: what is left is in `spoilt`).
   */
  lemma LinkDelivers(noise: seq<byte>, fs: seq<seq<byte>>)
    requires AllFit(fs) && fs != []
    ensures var r := After(BUF_SIZE, IDLE, noise);
      && (TrailingEscs(noise) % 2 == 0 ==> Frames(noise + Wire(fs)) == Frames(noise) + Good(Packet(r.got)) + fs)
      && (TrailingEscs(noise) % 2 == 1 ==>
            var spoilt := Prefix(r.got + [END] + Sealed(fs[0]), BUF_SIZE);
            Frames(noise + Wire(fs)) == Frames(noise) + Good([spoilt]) + fs[1..])
  {
    var r, d, ps := After(BUF_SIZE, IDLE, noise), Deliver(BUF_SIZE, IDLE, noise), SealedAll(fs);
    PendingEsc(BUF_SIZE, noise);
    assert forall i | 0 <= i < |ps| :: ps[i] != [];
    Resynchronises(BUF_SIZE, noise, ps);
    if r.esc {
      var spoilt := Prefix(r.got + [END] + ps[0], BUF_SIZE);
      assert ps[1..] == SealedAll(fs[1..]);
      Arrivals(d, [spoilt], fs[1..]);
    } else {
      Arrivals(d, Packet(r.got), fs);
    }
  }

  lemma {:induction false} ByteSumConcat(a: seq<byte>, b: seq<byte>)
    ensures ByteSum(a + b) == ByteSum(a) + ByteSum(b)
  {
    if b == [] {
      assert a + b == a;
    } else {
      var n := |b| - 1;
      ByteSumConcat(a, b[..n]);
      assert (a + b)[..|a + b| - 1] == a + b[..n];
    }
  }

  lemma {:induction false} ByteSumBound(s: seq<byte>)
    ensures ByteSum(s) <= 255 * |s|
  {
    if s != [] {
      ByteSumBound(s[..|s| - 1]);
    }
  }

  /** A sum that is larger by at least 192 and less than 0x7f80 has another trailer. */
  lemma TrailerMoves(x: nat, y: nat)
    requires 192 <= y - x < 0x7f80
    ensures !SameBits(x, y)
  {
    var a, b := x / 0x80, y / 0x80;
    if x % 0x80 == y % 0x80 {
      assert y - x == 0x80 * (b - a) && 2 <= b - a <= 254;
      HalfOf(x);
      HalfOf(y);
      assert 1 <= y / 0x100 - x / 0x100 <= 127;
      CloseRemainders(x / 0x100, y / 0x100);
    }
  }

  lemma HalfOf(x: nat)
    ensures x / 0x100 == x / 0x80 / 2
  {
  }

  lemma CloseRemainders(p: nat, q: nat)
    requires 1 <= q - p <= 127
    ensures p % 0x80 != q % 0x80
  {
    var a, b := p / 0x80, q / 0x80;
    assert p == 0x80 * a + p % 0x80 && q == 0x80 * b + q % 0x80;
  }

  /** A frame f behind other bytes passes the check exactly if these leave bits 0 to 6 and 8 to 14 of its sum alone. */
  lemma SpoiltAccepted(s: seq<byte>, f: seq<byte>)
    ensures Accepts(s + Sealed(f)) <==> SameBits(ByteSum(f), ByteSum(s + f))
  {
    AcceptsSealed(s + f, Trailer(f));
    TrailerMeaning(f, s + f);
    Assoc(s, f, Trailer(f));
  }

  lemma SmallSumRejected(s: seq<byte>, f: seq<byte>)
    requires 192 <= ByteSum(s) < 0x7f80
    ensures !Accepts(s + Sealed(f))
  {
    SpoiltAccepted(s, f);
    ByteSumConcat(s, f);
    TrailerMoves(ByteSum(f), ByteSum(s + f));
  }

  /** Fewer than 128 noise bytes and the END swallowed behind them never do. */
  lemma SpoiltRejected(got: seq<byte>, f: seq<byte>)
    requires |got| < 128
    ensures !Accepts(got + [END] + Sealed(f))
  {
    ByteSumBound(got);
    StoredSum(got, END);
    SmallSumRejected(got + [END], f);
  }

  lemma StoredSum(got: seq<byte>, b: byte)
    ensures ByteSum(got + [b]) == ByteSum(got) + b
  {
    assert (got + [b])[..|got|] == got;
  }

  /** 128 of them can: with a sum of 127 * 255 + 191 the frame is then delivered with them in front. */
  lemma ManyBytes(f: seq<byte>)
    ensures Accepts(seq<byte>(127, _ => 255) + [191] + [END] + Sealed(f))
  {
    var a := seq<byte>(127, _ => 255);
    SumOfSame(127);
    StoredSum(a, 191);
    StoredSum(a + [191], END);
    FullTurnAccepted(a + [191] + [END], f);
  }

  lemma FullTurnAccepted(s: seq<byte>, f: seq<byte>)
    requires ByteSum(s) == 0x8000
    ensures Accepts(s + Sealed(f))
  {
    SpoiltAccepted(s, f);
    ByteSumConcat(s, f);
    WholeTurn(ByteSum(f), ByteSum(s + f));
  }

  lemma {:induction false} SumOfSame(n: nat)
    ensures ByteSum(seq<byte>(n, _ => 255)) == 255 * n
  {
    if n > 0 {
      SumOfSame(n - 1);
      assert seq<byte>(n, _ => 255)[..n - 1] == seq<byte>(n - 1, _ => 255);
    }
  }

  lemma WholeTurn(x: nat, y: nat)
    requires y == x + 0x8000
    ensures SameBits(x, y)
  {
    assert y / 0x100 == x / 0x100 + 0x80;
  }

  /**
   * Behind noise that ends with a pending ESC, with fewer than 128 bytes stored that leave room for the first frame,
   * exactly the first frame is lost, and nothing is delivered in its place.
   */
  lemma OnlyFirstLost(noise: seq<byte>, fs: seq<seq<byte>>)
    requires AllFit(fs) && fs != [] && TrailingEscs(noise) % 2 == 1
    requires var got := After(BUF_SIZE, IDLE, noise).got; |got| < 128 && |got| + |fs[0]| + 3 <= BUF_SIZE
    ensures Frames(noise + Wire(fs)) == Frames(noise) + fs[1..]
  {
    var got := After(BUF_SIZE, IDLE, noise).got;
    LinkDelivers(noise, fs);
    SpoiltRejected(got, fs[0]);
    var spoilt := got + [END] + Sealed(fs[0]);
    assert Prefix(spoilt, BUF_SIZE) == spoilt;
    Dropped(spoilt);
    assert Frames(noise) + [] == Frames(noise);
  }

  lemma Dropped(p: seq<byte>)
    requires !Accepts(p)
    ensures Good([p]) == []
  {
    assert [p][1..] == [];
  }

  lemma Arrivals(d: seq<seq<byte>>, x: seq<seq<byte>>, fs: seq<seq<byte>>)
    requires AllFit(fs)
    ensures Good(d + x + Prefixes(SealedAll(fs), BUF_SIZE)) == Good(d) + Good(x) + fs
  {
    SealedPrefixes(fs);
    GoodSealed(fs);
    GoodConcat(d + x, SealedAll(fs));
    GoodConcat(d, x);
  }

  /** Without noise exactly the frames sent arrive. */
  lemma CleanLink(fs: seq<seq<byte>>)
    requires AllFit(fs)
    ensures Frames(Wire(fs)) == fs
  {
    if fs == [] {
      assert Wire(fs) == [];
    } else {
      LinkDelivers([], fs);
      assert [] + Wire(fs) == Wire(fs);
      NoNoise();
      assert [] + [] + fs == fs;
    }
  }

  lemma NoNoise()
    ensures TrailingEscs([]) == 0 && Frames([]) == [] && After(BUF_SIZE, IDLE, []) == IDLE
    ensures Good(Packet(IDLE.got)) == []
  {
    assert Deliver(BUF_SIZE, IDLE, []) == [];
  }

  lemma WireSnoc(fs: seq<seq<byte>>, i: nat)
    requires i < |fs|
    ensures Wire(fs[..i + 1]) == Wire(fs[..i]) + Encode(Sealed(fs[i]))
  {
    assert Encodings(SealedAll(fs[..i + 1])) == Encodings(SealedAll(fs[..i])) + [Encode(Sealed(fs[i]))];
    ConcatSnoc(Encodings(SealedAll(fs[..i])), Encode(Sealed(fs[i])));
  }

  lemma {:induction false} ConcatSnoc(es: seq<seq<byte>>, e: seq<byte>)
    ensures Concat(es + [e]) == Concat(es) + e
  {
    if es == [] {
      assert es + [e] == [e] && [e][1..] == [];
    } else {
      ConcatSnoc(es[1..], e);
      assert (es + [e])[1..] == es[1..] + [e];
    }
  }

  /** A frame that fits goes out whole. */
  method SendOne(u: Uart, f: seq<byte>, buffer: array<byte>)
    requires u.Valid() && u.Pending() == [] && Fits(f)
    requires buffer.Length == BUF_SIZE && buffer != u.txBuff && buffer != u.rxBuff
    modifies u`txPtr, u`wire, u.txBuff, buffer
    ensures u.Valid() && u.Pending() == [] && u.wire == old(u.wire) + Encode(Sealed(f))
  {
    FitsExactly(f);
    LowLevelOutput(u, f, buffer);
    assert [] + Encode(Sealed(f)) == Encode(Sealed(f));
  }

  method SendAll(u: Uart, fs: seq<seq<byte>>, buffer: array<byte>)
    requires u.Valid() && u.Pending() == [] && AllFit(fs)
    requires buffer.Length == BUF_SIZE && buffer != u.txBuff && buffer != u.rxBuff
    modifies u`txPtr, u`wire, u.txBuff, buffer
    ensures u.Valid() && u.Pending() == [] && u.wire == old(u.wire) + Wire(fs)
  {
    NothingOnWire(fs);
    for i := 0 to |fs|
      invariant u.Valid() && u.Pending() == [] && u.wire == old(u.wire) + Wire(fs[..i])
    {
      Assoc(old(u.wire), Wire(fs[..i]), Encode(Sealed(fs[i])));
      WireSnoc(fs, i);
      SendOne(u, fs[i], buffer);
    }
    assert fs[..|fs|] == fs;
  }

  lemma NothingOnWire(fs: seq<seq<byte>>)
    ensures Wire(fs[..0]) == []
  {
  }

  lemma MoveOver(fs: seq<seq<byte>>, f: seq<byte>, rest: seq<seq<byte>>)
    ensures fs + ([f] + rest) == (fs + [f]) + rest
  {
  }

  method ReceiveAll(u: Uart, buffer: array<byte>) returns (fs: seq<seq<byte>>)
    requires u.Valid() && buffer.Length == BUF_SIZE && buffer != u.txBuff && buffer != u.rxBuff
    modifies u`rxPtr, u`rxLen, u`input, u.rxBuff, buffer
    ensures fs == Frames(old(u.Stream()))
  {
    fs := [];
    ghost var rest := Frames(u.Stream());
    while true
      invariant u.Valid() && rest == Frames(u.Stream()) && fs + rest == Frames(old(u.Stream()))
      decreases |u.Stream()|
    {
      var f := ReceiveFrame(u, buffer);
      if f.None? {
        return;
      }
      MoveOver(fs, f.value, rest[1..]);
      fs, rest := fs + [f.value], rest[1..];
    }
  }

  lemma ConcatFirst(s: seq<byte>, n: nat, cs: seq<seq<byte>>)
    requires n <= |s| && Concat(cs) == s[n..]
    ensures Concat([s[..n]] + cs) == s
  {
    assert ([s[..n]] + cs)[1..] == cs;
  }

  /** s cut into reads of the given sizes (at least one byte, at most a buffer), then into full buffers. */
  function Chop(s: seq<byte>, sizes: seq<nat>): (cs: seq<seq<byte>>)
    ensures Concat(cs) == s && forall i | 0 <= i < |cs| :: 0 < |cs[i]| <= QUEUE_MAX
    decreases |s|
  {
    if s == [] then []
    else
      var want := if sizes == [] then QUEUE_MAX else if sizes[0] == 0 then 1 else sizes[0];
      var n := Min(Min(want, QUEUE_MAX), |s|);
      var cs := Chop(s[n..], if sizes == [] then [] else sizes[1..]);
      ConcatFirst(s, n, cs);
      [s[..n]] + cs
  }

  /** End to end through both serial ports: whatever the sizes of the reads, the frames that went in come out. */
  method Transport(fs: seq<seq<byte>>, sizes: seq<nat>) returns (got: seq<seq<byte>>)
    requires AllFit(fs)
    ensures got == fs
  {
    var buffer := new byte[BUF_SIZE](_ => 0);
    var sender := new Uart([]);
    SendAll(sender, fs, buffer);
    assert sender.wire == Wire(fs);
    var receiver := new Uart(Chop(sender.wire, sizes));
    got := ReceiveAll(receiver, buffer);
    CleanLink(fs);
  }
}
