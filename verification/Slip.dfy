/**
 * SLIP framing (arch/slip.c; RFC 1055): what send_packet emits and what recv_packet makes of any byte stream, and
 * that a receiver finds back into step after noise.
 */
module Slip {
  import opened Common

  const END: byte := 192      // 0300
  const ESC: byte := 219      // 0333
  const ESC_END: byte := 220  // 0334
  const ESC_ESC: byte := 221  // 0335

  /** What send_packet emits for one byte. */
  function Stuffed(b: byte): seq<byte> {
    if b == END then [ESC, ESC_END] else if b == ESC then [ESC, ESC_ESC] else [b]
  }

  function Stuff(p: seq<byte>): seq<byte> {
    if p == [] then [] else Stuffed(p[0]) + Stuff(p[1..])
  }

  function Encode(p: seq<byte>): seq<byte> { [END] + Stuff(p) + [END] }

  lemma {:induction false} StuffConcat(a: seq<byte>, b: seq<byte>)
    ensures Stuff(a + b) == Stuff(a) + Stuff(b)
  {
    if a == [] {
      assert a + b == b;
    } else {
      StuffConcat(a[1..], b);
      assert (a + b)[1..] == a[1..] + b;
      Assoc(Stuffed(a[0]), Stuff(a[1..]), Stuff(b));
    }
  }

  lemma StuffSnoc(a: seq<byte>, b: byte)
    ensures Stuff(a + [b]) == Stuff(a) + Stuffed(b)
  {
    StuffConcat(a, [b]);
    assert [b][1..] == [];
    assert Stuff([b]) == Stuffed(b);
  }

  /** The characters on the wire (RFC 1055): END on both sides, and two characters each for an END or ESC byte. */
  lemma WireFormat(p: seq<byte>, b: byte)
    ensures Encode([]) == [192, 192]
    ensures Encode(p + [b]) == Encode(p)[..|Encode(p)| - 1]
      + (if b == 192 then [219, 220] else if b == 219 then [219, 221] else [b]) + [192]
  {
    StuffSnoc(p, b);
    assert Encode(p)[..|Encode(p)| - 1] == [END] + Stuff(p);
    assert Encode(p + [b]) == [END] + (Stuff(p) + Stuffed(b)) + [END];
  }

  /** Bytes that cost an extra character. */
  function Specials(p: seq<byte>): nat {
    if p == [] then 0 else (if p[0] == END || p[0] == ESC then 1 else 0) + Specials(p[1..])
  }

  lemma {:induction false} StuffLength(p: seq<byte>)
    ensures |Stuff(p)| == |p| + Specials(p)
  {
    if p != [] {
      StuffLength(p[1..]);
    }
  }

  // ---- the receiver ----

  /** The bytes stored so far and whether the last character was an ESC still to be resolved. */
  datatype Receiver = Receiver(got: seq<byte>, esc: bool)

  const IDLE := Receiver([], false)

  function Unescaped(c: byte): byte { if c == ESC_END then END else if c == ESC_ESC then ESC else c }

  function Store(got: seq<byte>, c: byte, cap: nat): seq<byte> { if |got| < cap then got + [c] else got }

  /** The state after one character; an unescaped END always ends the packet. */
  function Next(cap: nat, r: Receiver, c: byte): Receiver {
    if r.esc then Receiver(Store(r.got, Unescaped(c), cap), false)
    else if c == END then IDLE
    else if c == ESC then Receiver(r.got, true)
    else Receiver(Store(r.got, c, cap), false)
  }

  /** The packet that one character completes; empty packets are not delivered. */
  function Emitted(r: Receiver, c: byte): seq<seq<byte>> {
    if !r.esc && c == END && r.got != [] then [r.got] else []
  }

  /** The packets successive recv_packet calls with a buffer of cap bytes return on the character stream s. */
  function Deliver(cap: nat, r: Receiver, s: seq<byte>): seq<seq<byte>>
    decreases |s|
  {
    if s == [] then [] else Emitted(r, s[0]) + Deliver(cap, Next(cap, r, s[0]), s[1..])
  }

  function After(cap: nat, r: Receiver, s: seq<byte>): Receiver
    decreases |s|
  {
    if s == [] then r else After(cap, Next(cap, r, s[0]), s[1..])
  }

  lemma {:induction false} DeliverConcat(cap: nat, r: Receiver, a: seq<byte>, b: seq<byte>)
    ensures Deliver(cap, r, a + b) == Deliver(cap, r, a) + Deliver(cap, After(cap, r, a), b)
    ensures After(cap, r, a + b) == After(cap, After(cap, r, a), b)
    decreases |a|
  {
    if a == [] {
      assert a + b == b;
    } else {
      DeliverConcat(cap, Next(cap, r, a[0]), a[1..], b);
      assert (a + b)[1..] == a[1..] + b;
      Assoc(Emitted(r, a[0]), Deliver(cap, Next(cap, r, a[0]), a[1..]), Deliver(cap, After(cap, r, a), b));
    }
  }

  lemma Assoc<T>(x: seq<T>, y: seq<T>, z: seq<T>)
    ensures x + (y + z) == (x + y) + z
  {
  }

  lemma OneCharacter(cap: nat, r: Receiver, c: byte)
    ensures Deliver(cap, r, [c]) == Emitted(r, c) && After(cap, r, [c]) == Next(cap, r, c)
  {
    assert [c][1..] == [];
  }

  /** What follows an ESC is stored: END for 220, ESC for 221, and any other character, END and ESC too, as it is. */
  lemma EscapedCharacter(cap: nat, got: seq<byte>, c: byte)
    requires |got| < cap
    ensures Deliver(cap, Receiver(got, false), [219, c]) == []
    ensures After(cap, Receiver(got, false), [219, c])
      == Receiver(got + [if c == 220 then 192 else if c == 221 then 219 else c], false)
  {
    assert [219, c][1..] == [c];
    OneCharacter(cap, Receiver(got, true), c);
  }

  /** The first n bytes of s, or all of it. */
  function Prefix(s: seq<byte>, n: nat): (r: seq<byte>)
    ensures r <= s && |r| == Min(|s|, n)
  {
    if |s| <= n then s else s[..n]
  }

  lemma PrefixPrefix(x: seq<byte>, y: seq<byte>, n: nat)
    ensures Prefix(Prefix(x, n) + y, n) == Prefix(x + y, n)
  {
  }

  /** A stuffed byte is stored as itself. */
  lemma StuffedReceived(cap: nat, got: seq<byte>, b: byte)
    ensures Deliver(cap, Receiver(got, false), Stuffed(b)) == []
    ensures After(cap, Receiver(got, false), Stuffed(b)) == Receiver(Store(got, b, cap), false)
  {
    if b == END || b == ESC {
      var r := Receiver(got, true);
      assert Stuffed(b)[1..] == [Stuffed(b)[1]];
      OneCharacter(cap, r, Stuffed(b)[1]);
    } else {
      OneCharacter(cap, Receiver(got, false), b);
    }
  }

  /** A stretch a that takes the receiver from r to m, then b that takes it on to e. */
  lemma Join(cap: nat, r: Receiver, a: seq<byte>, m: Receiver, b: seq<byte>, e: Receiver)
    requires After(cap, r, a) == m && After(cap, m, b) == e
    ensures After(cap, r, a + b) == e
    ensures Deliver(cap, r, a + b) == Deliver(cap, r, a) + Deliver(cap, m, b)
  {
    DeliverConcat(cap, r, a, b);
  }

  lemma StoreThenPrefix(got: seq<byte>, p: seq<byte>, cap: nat)
    requires |got| <= cap && p != []
    ensures Prefix(Store(got, p[0], cap) + p[1..], cap) == Prefix(got + p, cap)
  {
    assert (got + [p[0]]) + p[1..] == got + p;
  }

  /** A stuffed packet is stored as itself, up to the end of the buffer. */
  lemma {:induction false} StuffReceived(cap: nat, got: seq<byte>, p: seq<byte>)
    requires |got| <= cap
    ensures Deliver(cap, Receiver(got, false), Stuff(p)) == []
    ensures After(cap, Receiver(got, false), Stuff(p)) == Receiver(Prefix(got + p, cap), false)
    decreases |p|
  {
    if p == [] {
      assert got + p == got;
    } else {
      var next := Store(got, p[0], cap);
      StuffReceived(cap, next, p[1..]);
      StoreThenPrefix(got, p, cap);
      StuffedReceived(cap, got, p[0]);
      var end := Receiver(Prefix(got + p, cap), false);
      Join(cap, Receiver(got, false), Stuffed(p[0]), Receiver(next, false), Stuff(p[1..]), end);
    }
  }

  /** The stretch s makes a receiver in state r deliver `out` and leaves it idle. */
  ghost predicate Yields(cap: nat, r: Receiver, s: seq<byte>, out: seq<seq<byte>>) {
    After(cap, r, s) == IDLE && Deliver(cap, r, s) == out
  }

  lemma YieldsThen(cap: nat, r: Receiver, a: seq<byte>, x: seq<seq<byte>>, b: seq<byte>, y: seq<seq<byte>>)
    requires Yields(cap, r, a, x) && Yields(cap, IDLE, b, y)
    ensures Yields(cap, r, a + b, x + y)
  {
    DeliverConcat(cap, r, a, b);
  }

  /** A closing END. */
  lemma EndYields(cap: nat, r: Receiver, a: seq<byte>, got: seq<byte>)
    requires After(cap, r, a) == Receiver(got, false) && Deliver(cap, r, a) == []
    ensures Yields(cap, r, a + [END], Packet(got))
  {
    OneCharacter(cap, Receiver(got, false), END);
    DeliverConcat(cap, r, a, [END]);
  }

  /** What an END makes of the bytes stored before it. */
  function Packet(got: seq<byte>): seq<seq<byte>> { if got == [] then [] else [got] }

  /** What a receiver in state r makes of the encoding of p: a pending ESC swallows the leading END. */
  function OnEncoding(cap: nat, r: Receiver, p: seq<byte>): seq<seq<byte>> {
    if r.esc then [Prefix(r.got + [END] + p, cap)] else Packet(r.got) + Packet(Prefix(p, cap))
  }

  lemma BodyYields(cap: nat, got: seq<byte>, p: seq<byte>)
    requires |got| <= cap
    ensures Yields(cap, Receiver(got, false), Stuff(p) + [END], Packet(Prefix(got + p, cap)))
  {
    StuffReceived(cap, got, p);
    EndYields(cap, Receiver(got, false), Stuff(p), Prefix(got + p, cap));
  }

  lemma LeadThen(cap: nat, r: Receiver, body: seq<byte>, x: seq<seq<byte>>)
    requires Yields(cap, Next(cap, r, END), body, x)
    ensures Yields(cap, r, [END] + body, Emitted(r, END) + x)
  {
    OneCharacter(cap, r, END);
    DeliverConcat(cap, r, [END], body);
  }

  /** How a receiver in any state takes the encoding of p. */
  lemma EncodeReceived(cap: nat, r: Receiver, p: seq<byte>)
    requires 0 < cap && |r.got| <= cap
    ensures Yields(cap, r, Encode(p), OnEncoding(cap, r, p))
  {
    var start := Next(cap, r, END);
    BodyYields(cap, start.got, p);
    LeadThen(cap, r, Stuff(p) + [END], Packet(Prefix(start.got + p, cap)));
    assert Encode(p) == [END] + (Stuff(p) + [END]);
    OnEncodingIs(cap, r, p);
  }

  lemma OnEncodingIs(cap: nat, r: Receiver, p: seq<byte>)
    requires 0 < cap && |r.got| <= cap
    ensures Emitted(r, END) + Packet(Prefix(Next(cap, r, END).got + p, cap)) == OnEncoding(cap, r, p)
  {
    if r.esc {
      PrefixPrefix(r.got + [END], p, cap);
      assert Next(cap, r, END).got == Prefix(r.got + [END], cap);
    } else {
      assert [] + p == p;
    }
  }

  // ---- several packets ----

  function Concat(es: seq<seq<byte>>): seq<byte> { if es == [] then [] else es[0] + Concat(es[1..]) }

  function Encodings(ps: seq<seq<byte>>): (r: seq<seq<byte>>)
    ensures |r| == |ps| && forall i | 0 <= i < |ps| :: r[i] == Encode(ps[i])
  {
    seq(|ps|, i requires 0 <= i < |ps| => Encode(ps[i]))
  }

  function EncodeAll(ps: seq<seq<byte>>): seq<byte> { Concat(Encodings(ps)) }

  function Prefixes(ps: seq<seq<byte>>, cap: nat): (r: seq<seq<byte>>)
    ensures |r| == |ps| && forall i | 0 <= i < |ps| :: r[i] == Prefix(ps[i], cap)
  {
    seq(|ps|, i requires 0 <= i < |ps| => Prefix(ps[i], cap))
  }

  /** Stretches that each yield one packet. */
  lemma {:induction false} ConcatYields(cap: nat, es: seq<seq<byte>>, out: seq<seq<byte>>)
    requires |es| == |out| && forall i | 0 <= i < |es| :: Yields(cap, IDLE, es[i], [out[i]])
    ensures Yields(cap, IDLE, Concat(es), out)
  {
    if es != [] {
      ConcatYields(cap, es[1..], out[1..]);
      YieldsThen(cap, IDLE, es[0], [out[0]], Concat(es[1..]), out[1..]);
      assert out == [out[0]] + out[1..];
    }
  }

  lemma PacketYields(cap: nat, p: seq<byte>)
    requires 0 < cap && p != []
    ensures Yields(cap, IDLE, Encode(p), [Prefix(p, cap)])
  {
    EncodeReceived(cap, IDLE, p);
  }

  lemma EncodeAllReceived(cap: nat, ps: seq<seq<byte>>)
    requires 0 < cap && forall i | 0 <= i < |ps| :: ps[i] != []
    ensures Yields(cap, IDLE, EncodeAll(ps), Prefixes(ps, cap))
  {
    var es, out := Encodings(ps), Prefixes(ps, cap);
    forall i | 0 <= i < |es|
      ensures Yields(cap, IDLE, es[i], [out[i]])
    {
      PacketYields(cap, ps[i]);
    }
    ConcatYields(cap, es, out);
  }

  lemma {:induction false} StoredFits(cap: nat, r: Receiver, s: seq<byte>)
    requires |r.got| <= cap
    ensures |After(cap, r, s).got| <= cap
    decreases |s|
  {
    if s != [] {
      StoredFits(cap, Next(cap, r, s[0]), s[1..]);
    }
  }

  lemma EncodeAllFirst(ps: seq<seq<byte>>)
    requires ps != []
    ensures EncodeAll(ps) == Encode(ps[0]) + EncodeAll(ps[1..])
  {
    assert Encodings(ps)[1..] == Encodings(ps[1..]);
  }

  lemma PrefixesFirst(ps: seq<seq<byte>>, cap: nat)
    requires 0 < cap && ps != [] && ps[0] != []
    ensures Prefixes(ps, cap) == Packet(Prefix(ps[0], cap)) + Prefixes(ps[1..], cap)
  {
  }

  /** Packets reaching a receiver in any state. */
  lemma StreamYields(cap: nat, r: Receiver, ps: seq<seq<byte>>)
    requires 0 < cap && |r.got| <= cap && ps != [] && forall i | 0 <= i < |ps| :: ps[i] != []
    ensures Yields(cap, r, EncodeAll(ps), OnEncoding(cap, r, ps[0]) + Prefixes(ps[1..], cap))
  {
    EncodeReceived(cap, r, ps[0]);
    EncodeAllReceived(cap, ps[1..]);
    EncodeAllFirst(ps);
    YieldsThen(cap, r, Encode(ps[0]), OnEncoding(cap, r, ps[0]), EncodeAll(ps[1..]), Prefixes(ps[1..], cap));
  }

  lemma AfterNoise(cap: nat, noise: seq<byte>, s: seq<byte>, out: seq<seq<byte>>)
    requires Yields(cap, After(cap, IDLE, noise), s, out)
    ensures Deliver(cap, IDLE, noise + s) == Deliver(cap, IDLE, noise) + out
  {
    DeliverConcat(cap, IDLE, noise, s);
  }

  lemma Regroup(w: seq<seq<byte>>, x: seq<seq<byte>>, y: seq<seq<byte>>, z: seq<seq<byte>>)
    ensures w + ((x + y) + z) == (w + x) + (y + z) && w + (y + z) == (w + y) + z
  {
  }

  /**
   * Resynchronisation: whatever noise came first, the packets p2..pk that follow arrive exactly (up to the length of
   * the buffer).  p1 does too unless the noise left an ESC pending; then the leading END and p1 end up behind the
   * noise.
   */
  lemma Resynchronises(cap: nat, noise: seq<byte>, ps: seq<seq<byte>>)
    requires 0 < cap && ps != [] && forall i | 0 <= i < |ps| :: ps[i] != []
    ensures var r, d := After(cap, IDLE, noise), Deliver(cap, IDLE, noise + EncodeAll(ps));
      && (!r.esc ==> d == Deliver(cap, IDLE, noise) + Packet(r.got) + Prefixes(ps, cap))
      && (r.esc ==> d == Deliver(cap, IDLE, noise) + [Prefix(r.got + [END] + ps[0], cap)] + Prefixes(ps[1..], cap))
  {
    var r, first, rest := After(cap, IDLE, noise), ps[0], Prefixes(ps[1..], cap);
    StoredFits(cap, IDLE, noise);
    StreamYields(cap, r, ps);
    AfterNoise(cap, noise, EncodeAll(ps), OnEncoding(cap, r, first) + rest);
    PrefixesFirst(ps, cap);
    Regroup(Deliver(cap, IDLE, noise), Packet(r.got), Packet(Prefix(first, cap)), rest);
    Regroup(Deliver(cap, IDLE, noise), [], OnEncoding(cap, r, first), rest);
  }

  function TrailingEscs(s: seq<byte>): nat {
    if s == [] || s[|s| - 1] != ESC then 0 else 1 + TrailingEscs(s[..|s| - 1])
  }

  /** Noise leaves an ESC pending exactly when it ends in an odd number of ESC bytes. */
  lemma {:induction false} PendingEsc(cap: nat, noise: seq<byte>)
    ensures After(cap, IDLE, noise).esc <==> TrailingEscs(noise) % 2 == 1
  {
    if noise != [] {
      var n := |noise| - 1;
      PendingEsc(cap, noise[..n]);
      assert noise == noise[..n] + [noise[n]];
      DeliverConcat(cap, IDLE, noise[..n], [noise[n]]);
      OneCharacter(cap, After(cap, IDLE, noise[..n]), noise[n]);
    }
  }
}
