/** The four-octet header and length frames of the AT-over-SPI protocol,
    and the trace of what the master does on the link. */
module Frames {
  import opened Bytes

  /** A header or length frame, octets in transmission order. */
  datatype Frame = Frame(b0: uint8, b1: uint8, b2: uint8, b3: uint8) {
    function Octets(): seq<uint8> {
      [b0, b1, b2, b3]
    }
  }

  /** Opcode 0x02: the master is about to send an AT command. */
  const SendHeader := Frame(0x02, 0, 0, 0)

  /** Opcode 0x01: the master asks the slave for its response. */
  const RecvHeader := Frame(0x01, 0, 0, 0)

  /** Direction marker of a length frame the master sends. */
  const MarkerA: uint8 := 'A' as int

  /** Filler octets clocked out while the slave returns its length frame. */
  const Filler := Frame(0, 0, 0, 0)

  /** The largest length a frame carries: 15 bits. */
  const MaxLength := 0x7FFF

  /** The length frame of a send: `{ len & 127, (uint8_t)(len >> 7), 0, 'A' }`.
      For a `uint32_t`, `& 127` is the remainder by 128 and `>> 7` the
      quotient; the assignment to a `uint8_t` keeps the low eight bits. */
  function EncodeLength(len: uint32): (f: Frame)
    ensures WellFormedLength(f)
    ensures DecodeLength(f) == len % 0x8000
  {
    var q := len / 128;
    assert len == q * 128 + len % 128;
    assert q == (q / 256) * 256 + q % 256;
    assert len == (q / 256) * 0x8000 + (q % 256) * 128 + len % 128;
    assert 0 <= (q % 256) * 128 + len % 128 < 0x8000;
    Frame(len % 128, q % 256, 0, MarkerA)
  }

  /** The length a received frame announces: `(b1 << 7) + b0`, with both octets
      promoted to `int` first, so nothing is lost. */
  function DecodeLength(f: Frame): (n: nat)
    ensures n <= 255 * 128 + 255
    ensures f.b0 < 128 ==> n % 128 == f.b0 && n / 128 == f.b1
  {
    f.b1 * 128 + f.b0
  }

  /** The frames `EncodeLength` produces. */
  predicate WellFormedLength(f: Frame) {
    f.b0 < 128 && f.b2 == 0 && f.b3 == MarkerA
  }

  /** Lengths up to `MaxLength` survive the round trip; longer ones come back
      modulo 2^15, as `EncodeLength` states. */
  lemma LengthRoundTrip(len: uint32)
    ensures len <= MaxLength ==> DecodeLength(EncodeLength(len)) == len
  {
  }

  /** The other direction: a well-formed frame is the encoding of the length it
      announces. */
  lemma DecodeEncode(f: Frame)
    requires WellFormedLength(f)
    ensures DecodeLength(f) <= MaxLength
    ensures EncodeLength(DecodeLength(f)) == f
  {
    var n := DecodeLength(f);
    assert n / 128 == f.b1 && n % 128 == f.b0;
  }

  /** Distinct representable lengths give distinct frames. */
  lemma EncodeInjective(a: uint32, b: uint32)
    requires a <= MaxLength && b <= MaxLength
    ensures EncodeLength(a) == EncodeLength(b) <==> a == b
  {
    LengthRoundTrip(a);
    LengthRoundTrip(b);
  }

  /** What the master does on the link. Every `Octet(b)` writes `b` to the
      transmit register and reads back one octet (full duplex); `Deassert`
      is the long settle delay that lets chip select rise; `HandshakeWait`
      blocks until the slave raises its handshake line. */
  datatype Event = Octet(b: uint8) | Deassert | HandshakeWait

  /** Octets clocked out one after the other. */
  function Out(bs: seq<uint8>): (t: seq<Event>)
    ensures |t| == |bs|
    ensures forall i :: 0 <= i < |bs| ==> t[i] == Octet(bs[i])
  {
    seq(|bs|, i requires 0 <= i < |bs| => Octet(bs[i]))
  }

  /** Clocks out `bs` octet by octet after the events already in `t`. */
  method Transfer(t: seq<Event>, bs: seq<uint8>) returns (t': seq<Event>)
    ensures t' == t + Out(bs)
  {
    t' := t;
    var i := 0;
    while i < |bs|
      invariant i <= |bs|
      invariant t' == t + Out(bs[..i])
    {
      assert Out(bs[..i + 1]) == Out(bs[..i]) + [Octet(bs[i])];
      t' := t' + [Octet(bs[i])];
      i := i + 1;
    }
    assert bs[..i] == bs;
  }

  /** A frame phase: the octets, chip select released, then the handshake. */
  function Phase(bs: seq<uint8>): seq<Event> {
    Out(bs) + [Deassert, HandshakeWait]
  }

  /** The octet an event puts on the wire, if any. */
  function Wire(e: Event): seq<uint8> {
    if e.Octet? then [e.b] else []
  }

  /** The octets a trace puts on the wire, in order. */
  function Written(t: seq<Event>): seq<uint8> {
    if |t| == 0 then [] else Wire(t[0]) + Written(t[1..])
  }

  /** The number of handshake waits in a trace. */
  function Waits(t: seq<Event>): nat {
    if |t| == 0 then 0
    else (if t[0] == HandshakeWait then 1 else 0) + Waits(t[1..])
  }

  lemma {:induction false} WrittenAppend(a: seq<Event>, b: seq<Event>)
    ensures Written(a + b) == Written(a) + Written(b)
  {
    if |a| == 0 {
      assert a + b == b;
    } else {
      assert (a + b)[0] == a[0];
      assert (a + b)[1..] == a[1..] + b;
      WrittenAppend(a[1..], b);
      calc {
        Written(a + b);
        Wire(a[0]) + Written(a[1..] + b);
        Wire(a[0]) + (Written(a[1..]) + Written(b));
        (Wire(a[0]) + Written(a[1..])) + Written(b);
      }
    }
  }

  lemma {:induction false} WaitsAppend(a: seq<Event>, b: seq<Event>)
    ensures Waits(a + b) == Waits(a) + Waits(b)
  {
    if |a| == 0 {
      assert a + b == b;
    } else {
      assert (a + b)[1..] == a[1..] + b;
      WaitsAppend(a[1..], b);
    }
  }

  /** Clocking out octets writes exactly those octets and waits for nothing. */
  lemma {:induction false} OutWritten(bs: seq<uint8>)
    ensures Written(Out(bs)) == bs
    ensures Waits(Out(bs)) == 0
  {
    if |bs| > 0 {
      assert Out(bs)[1..] == Out(bs[1..]);
      OutWritten(bs[1..]);
    }
  }

  /** A frame phase writes its octets and waits for the handshake once. */
  lemma PhaseWritten(bs: seq<uint8>)
    ensures Written(Phase(bs)) == bs
    ensures Waits(Phase(bs)) == 1
  {
    OutWritten(bs);
    WrittenAppend(Out(bs), [Deassert, HandshakeWait]);
    WaitsAppend(Out(bs), [Deassert, HandshakeWait]);
    assert [Deassert, HandshakeWait][1..] == [HandshakeWait];
  }

  /** How the slave reads a command off the wire: a send header, a length
      frame marked 'A', then as many payload octets as the frame announces.
      `None` when the octets do not form such a message. */
  function SlaveAccept(w: seq<uint8>): Option<seq<uint8>> {
    if |w| < 8 || w[..4] != SendHeader.Octets() then None
    else
      var f := Frame(w[4], w[5], w[6], w[7]);
      var n := DecodeLength(f);
      if f.b3 != MarkerA || |w| < 8 + n then None
      else Some(w[8..8 + n])
  }

  /** The slave takes back exactly the payload the master framed, as long as
      its length fits in 15 bits. */
  lemma SlaveRecoversPayload(p: seq<uint8>)
    requires |p| <= MaxLength
    ensures SlaveAccept(SendHeader.Octets() + EncodeLength(|p|).Octets() + p) == Some(p)
  {
    var w := SendHeader.Octets() + EncodeLength(|p|).Octets() + p;
    LengthRoundTrip(|p|);
    assert w[..4] == SendHeader.Octets();
    assert Frame(w[4], w[5], w[6], w[7]) == EncodeLength(|p|);
    assert w[8..8 + |p|] == p;
  }
}
