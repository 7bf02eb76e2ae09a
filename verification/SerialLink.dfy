/**
 * src/uart2.c with send_packet and recv_packet of arch/slip.c on top: bounded transmit buffer, chunked receive
 * buffer.
 */
module SerialLink {
  import opened Common
  import opened Slip

  const QUEUE_MAX: nat := 4000

  /** What successive read calls return. */
  ghost predicate Chunks(cs: seq<seq<byte>>) {
    forall i | 0 <= i < |cs| :: 0 < |cs[i]| <= QUEUE_MAX
  }

  /**
   * What a receiver that has stored `got` makes of a stream that starts with c, which is not plain if it came after
   * an ESC.
   */
  ghost predicate Takes(cap: nat, got: seq<byte>, before: seq<byte>, c: Option<byte>, plain: bool, after: seq<byte>) {
    Deliver(cap, Receiver(got, false), before) ==
      if c.None? then []
      else if plain && c.value == END then Packet(got) + Deliver(cap, IDLE, after)
      else Deliver(cap, Receiver(Store(got, c.value, cap), false), after)
  }

  lemma TakesNothing(cap: nat, got: seq<byte>, s: seq<byte>, plain: bool)
    requires s == [] || s == [ESC]
    ensures Takes(cap, got, s, None, plain, [])
  {
    if s != [] {
      OneCharacter(cap, Receiver(got, false), ESC);
    }
  }

  lemma TakesPlain(cap: nat, got: seq<byte>, s: seq<byte>)
    requires s != [] && s[0] != ESC
    ensures Takes(cap, got, s, Some(s[0]), true, s[1..])
  {
  }

  lemma TakesEscaped(cap: nat, got: seq<byte>, s: seq<byte>)
    requires |s| > 1 && s[0] == ESC
    ensures Takes(cap, got, s, Some(Unescaped(s[1])), false, s[1..][1..])
  {
    var r := Receiver(got, true);
    assert Deliver(cap, Receiver(got, false), s) == Deliver(cap, r, s[1..]);
    assert s[1..][0] == s[1];
  }

  lemma TakesNext(cap: nat, got: seq<byte>, s: seq<byte>)
    ensures s == [] ==> Takes(cap, got, s, None, true, [])
    ensures s == [ESC] ==> Takes(cap, got, s, None, false, [])
    ensures s != [] && s[0] != ESC ==> Takes(cap, got, s, Some(s[0]), true, s[1..])
    ensures |s| > 1 && s[0] == ESC ==> Takes(cap, got, s, Some(Unescaped(s[1])), false, s[1..][1..])
  {
    if s == [] || s == [ESC] {
      TakesNothing(cap, got, s, s == []);
    } else if s[0] == ESC {
      TakesEscaped(cap, got, s);
    } else {
      TakesPlain(cap, got, s);
    }
  }

  /** One more byte behind what is pending. */
  lemma Extend(lead: seq<byte>, a: seq<byte>, b: byte, ab: seq<byte>)
    requires ab == a + [b]
    ensures Prefix(Prefix(lead + Stuff(a), QUEUE_MAX) + Stuffed(b), QUEUE_MAX) == Prefix(lead + Stuff(ab), QUEUE_MAX)
  {
    PrefixPrefix(lead + Stuff(a), Stuffed(b), QUEUE_MAX);
    StuffSnoc(a, b);
    assert lead + Stuff(a) + Stuffed(b) == lead + Stuff(ab);
  }

  /** The closing END completes the encoding. */
  lemma Finished(pending: seq<byte>, p: seq<byte>)
    ensures Prefix(Prefix(pending + [END] + Stuff(p), QUEUE_MAX) + [END], QUEUE_MAX)
      == Prefix(pending + Encode(p), QUEUE_MAX)
  {
    PrefixPrefix(pending + [END] + Stuff(p), [END], QUEUE_MAX);
    assert pending + [END] + Stuff(p) + [END] == pending + Encode(p);
  }

  class Uart {
    const txBuff: array<byte>
    var txPtr: nat
    var wire: seq<byte>        // everything written so far
    const rxBuff: array<byte>
    var rxPtr: nat
    var rxLen: nat
    var input: seq<seq<byte>>  // what the coming read calls will return

    ghost predicate Valid()
      reads this
    {
      && txBuff.Length == QUEUE_MAX && rxBuff.Length == QUEUE_MAX && txBuff != rxBuff
      && txPtr <= QUEUE_MAX && rxPtr <= rxLen <= QUEUE_MAX && Chunks(input)
    }

    /** Characters buffered for the next write. */
    ghost function Pending(): seq<byte>
      requires Valid()
      reads this, txBuff
    {
      txBuff[..txPtr]
    }

    /** Characters still to be received: the rest of the buffer, then the coming chunks. */
    ghost function Stream(): seq<byte>
      requires Valid()
      reads this, rxBuff
    {
      rxBuff[rxPtr..rxLen] + Concat(input)
    }

    constructor (chunks: seq<seq<byte>>)
      requires Chunks(chunks)
      ensures Valid() && fresh(txBuff) && fresh(rxBuff)
      ensures Pending() == [] && wire == [] && Stream() == Concat(chunks)
    {
      txBuff, rxBuff := new byte[QUEUE_MAX](_ => 0), new byte[QUEUE_MAX](_ => 0);
      txPtr, wire, rxPtr, rxLen, input := 0, [], 0, 0, chunks;
    }

    /** send_char: characters beyond the buffer are dropped. */
    method SendChar(ch: byte)
      requires Valid()
      modifies this`txPtr, txBuff
      ensures Valid() && Pending() == Prefix(old(Pending()) + [ch], QUEUE_MAX)
      ensures Pending() == if |old(Pending())| < 4000 then old(Pending()) + [ch] else old(Pending())
    {
      if txPtr < QUEUE_MAX {
        txBuff[txPtr] := ch;
        txPtr := txPtr + 1;
        assert txBuff[..txPtr] == old(Pending()) + [ch];
      } else {
        assert Prefix(old(Pending()) + [ch], QUEUE_MAX) == old(Pending());
      }
    }

    /** send_char_do */
    method SendCharDo()
      requires Valid()
      modifies this`txPtr, this`wire
      ensures Valid() && wire == old(wire) + old(Pending()) && Pending() == []
    {
      wire := wire + txBuff[..txPtr];
      txPtr := 0;
    }

    /**
     * recv_char: however the stream is cut into chunks, its next character; None while there is nothing left to
     * read.
     */
    method RecvChar() returns (c: Option<byte>)
      requires Valid()
      modifies this`rxPtr, this`rxLen, this`input, rxBuff
      ensures Valid()
      ensures old(Stream()) == [] ==> c == None && Stream() == []
      ensures old(Stream()) != [] ==> c == Some(old(Stream())[0]) && Stream() == old(Stream())[1..]
    {
      if rxLen == 0 || rxPtr == rxLen {
        if input == [] {
          return None;
        }
        Refill();
      }
      c := Some(rxBuff[rxPtr]);
      assert rxBuff[rxPtr..rxLen] == [rxBuff[rxPtr]] + rxBuff[rxPtr + 1..rxLen];
      rxPtr := rxPtr + 1;
    }

    /** A read refills the receive buffer. */
    method Refill()
      requires Valid() && rxPtr == rxLen && input != []
      modifies this`rxPtr, this`rxLen, this`input, rxBuff
      ensures Valid() && Stream() == old(Stream()) && rxPtr < rxLen
    {
      var chunk := input[0];
      forall i | 0 <= i < |chunk| {
        rxBuff[i] := chunk[i];
      }
      rxLen, rxPtr, input := |chunk|, 0, input[1..];
      assert rxBuff[0..|chunk|] == chunk;
    }

    /** The switch of send_packet on one byte. */
    method SendStuffed(b: byte)
      requires Valid()
      modifies this`txPtr, txBuff
      ensures Valid() && Pending() == Prefix(old(Pending()) + Stuffed(b), QUEUE_MAX)
    {
      if b == END {
        SendTwo(ESC, ESC_END);
      } else if b == ESC {
        SendTwo(ESC, ESC_ESC);
      } else {
        SendChar(b);
      }
    }

    method SendTwo(a: byte, b: byte)
      requires Valid()
      modifies this`txPtr, txBuff
      ensures Valid() && Pending() == Prefix(old(Pending()) + [a, b], QUEUE_MAX)
    {
      SendChar(a);
      SendChar(b);
      PrefixPrefix(old(Pending()) + [a], [b], QUEUE_MAX);
      assert old(Pending()) + [a] + [b] == old(Pending()) + [a, b];
    }

    /** send_packet: one write of everything pending and the encoded packet, cut off at the size of the buffer. */
    method SendPacket(p: array<byte>, len: nat)
      requires Valid() && len <= p.Length && p != txBuff
      modifies this`txPtr, this`wire, txBuff
      ensures Valid() && Pending() == []
      ensures wire == old(wire) + Prefix(old(Pending()) + Encode(p[..len]), QUEUE_MAX)
    {
      ghost var lead := old(Pending()) + [END];
      SendChar(END);
      var i := 0;
      assert lead + Stuff(p[..0]) == lead;
      while i < len
        invariant i <= len && Valid() && wire == old(wire) && p[..len] == old(p[..len])
        invariant Pending() == Prefix(lead + Stuff(p[..i]), QUEUE_MAX)
      {
        SendStuffed(p[i]);
        Extend(lead, p[..i], p[i], p[..i + 1]);
        i := i + 1;
      }
      SendChar(END);
      Finished(old(Pending()), p[..len]);
      SendCharDo();
    }

    /** One round of recv_packet: a character to store, an END, or nothing to read any more. */
    method RecvByte(ghost cap: nat, ghost got: seq<byte>) returns (c: Option<byte>, plain: bool)
      requires Valid()
      modifies this`rxPtr, this`rxLen, this`input, rxBuff
      ensures Valid() && (c.Some? ==> |Stream()| < |old(Stream())|)
      ensures c.None? ==> Stream() == []
      ensures Takes(cap, got, old(Stream()), c, plain, Stream())
    {
      TakesNext(cap, got, Stream());
      c := RecvChar();
      plain := c != Some(ESC);
      if c == Some(ESC) {
        c := RecvEscaped();
      }
    }

    /** The character behind an ESC; one that is neither of the two codes is left alone. */
    method RecvEscaped() returns (c: Option<byte>)
      requires Valid()
      modifies this`rxPtr, this`rxLen, this`input, rxBuff
      ensures Valid()
      ensures old(Stream()) == [] ==> c == None && Stream() == []
      ensures old(Stream()) != [] ==> c == Some(Unescaped(old(Stream())[0])) && Stream() == old(Stream())[1..]
    {
      c := RecvChar();
      if c == Some(ESC_END) {
        c := Some(END);
      } else if c == Some(ESC_ESC) {
        c := Some(ESC);
      }
    }

    /** recv_packet: successive calls return exactly the packets of the stream; None while it is still waiting. */
    method RecvPacket(p: array<byte>, len: nat) returns (r: Option<nat>)
      requires Valid() && len <= p.Length && p != rxBuff && p != txBuff
      modifies this`rxPtr, this`rxLen, this`input, rxBuff, p
      ensures Valid()
      ensures r.None? ==> Deliver(len, IDLE, old(Stream())) == [] && Stream() == []
      ensures r.Some? ==> 0 < r.value <= len && |Stream()| < |old(Stream())|
      ensures r.Some? ==> Deliver(len, IDLE, old(Stream())) == [p[..r.value]] + Deliver(len, IDLE, Stream())
    {
      var received := 0;
      assert p[..0] == [];
      while true
        invariant Valid() && received <= len && |Stream()| <= |old(Stream())|
        invariant Deliver(len, Receiver(p[..received], false), Stream()) == Deliver(len, IDLE, old(Stream()))
        decreases |Stream()|
      {
        ghost var got := p[..received];
        var c, plain := RecvByte(len, got);
        if c.None? {
          return None;
        }
        if plain && c.value == END {
          if received > 0 {
            return Some(received);
          }
        } else if received < len {
          p[received] := c.value;
          received := received + 1;
          assert p[..received] == got + [c.value];
        }
      }
    }
  }
}
