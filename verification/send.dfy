/** `spi_send`: one AT command as a header phase, a length phase and a
    payload phase, with the transparent-mode transitions applied first. */
module Send {
  import opened Bytes
  import opened Frames
  import opened Transparent

  /** The mode change and the framed length at the start of a send. */
  method Transition(m: Mode, s: seq<uint8>) returns (m': Mode, len: uint32)
    requires |s| < 0x1_0000_0000
    ensures m' == NextMode(m, s)
    ensures len == PayloadLength(s)
  {
    len := |s|;
    m' := m;
    if m' == Ending {
      m' := Off;
    }
    if s == EnableCmd {
      m' := On;
    } else if s == EndCmd {
      m' := Ending;
      len := 3;
    }
  }

  /** Sends the C string whose content is `s` in mode `m`; returns the new
      mode and what the master did on the link. */
  method Send(m: Mode, s: seq<uint8>) returns (m': Mode, trace: seq<Event>)
    requires NulFree(s)
    requires |s| < 0x1_0000_0000
    ensures m' == NextMode(m, s)
    ensures trace == Phase(SendHeader.Octets())
                   + Phase(EncodeLength(PayloadLength(s)).Octets())
                   + Out(s[..PayloadLength(s)]) + [Deassert]
                   + (if m' == Off then [HandshakeWait] else [])
    ensures Written(trace) == SendHeader.Octets()
                            + EncodeLength(PayloadLength(s)).Octets()
                            + s[..PayloadLength(s)]
    ensures Waits(trace) == if m' == Off then 3 else 2
  {
    var len: uint32;
    m', len := Transition(m, s);

    var h, l, p := SendHeader.Octets(), EncodeLength(len).Octets(), s[..len];
    // header phase
    trace := Transfer([], h);
    trace := trace + [Deassert, HandshakeWait];
    assert trace == Phase(h);
    // length phase
    trace := Transfer(trace, l);
    trace := trace + [Deassert, HandshakeWait];
    assert trace == Phase(h) + Phase(l);
    // payload phase
    trace := Transfer(trace, p);
    trace := trace + [Deassert];
    if m' == Off {
      trace := trace + [HandshakeWait];
    }

    TraceAccounting(SendHeader.Octets(), EncodeLength(len).Octets(), s[..len], m' == Off);
  }

  /** The closing events of a send write nothing and wait at most once. */
  lemma TailAccounting(wait: bool)
    ensures var tail := [Deassert] + (if wait then [HandshakeWait] else []);
      Written(tail) == [] && Waits(tail) == if wait then 1 else 0
  {
    if wait {
      assert [Deassert] + [HandshakeWait] == [Deassert, HandshakeWait];
      PhaseWritten([]);
      assert Phase([]) == [Deassert, HandshakeWait];
    } else {
      assert [Deassert][1..] == [];
    }
  }

  /** What a send trace writes and how often it waits. */
  lemma TraceAccounting(h: seq<uint8>, l: seq<uint8>, p: seq<uint8>, wait: bool)
    ensures var t := Phase(h) + Phase(l) + Out(p) + [Deassert]
                     + (if wait then [HandshakeWait] else []);
      Written(t) == h + l + p && Waits(t) == if wait then 3 else 2
  {
    var tail := [Deassert] + (if wait then [HandshakeWait] else []);
    var t := Phase(h) + Phase(l) + Out(p) + [Deassert]
             + (if wait then [HandshakeWait] else []);
    assert t == Phase(h) + (Phase(l) + (Out(p) + tail));
    TailAccounting(wait);
    PhaseWritten(h);
    PhaseWritten(l);
    OutWritten(p);
    WrittenAppend(Out(p), tail);
    WaitsAppend(Out(p), tail);
    WrittenAppend(Phase(l), Out(p) + tail);
    WaitsAppend(Phase(l), Out(p) + tail);
    WrittenAppend(Phase(h), Phase(l) + (Out(p) + tail));
    WaitsAppend(Phase(h), Phase(l) + (Out(p) + tail));
  }

  /** End to end: the slave takes back what the send framed — the whole
      command, or `+++` alone for the end sentinel — provided it fits in the
      15-bit length field. */
  lemma SlaveGetsCommand(s: seq<uint8>)
    requires |s| <= MaxLength
    ensures SlaveAccept(SendHeader.Octets() + EncodeLength(PayloadLength(s)).Octets()
                        + s[..PayloadLength(s)])
            == Some(if s == EndCmd then Ascii("+++") else s)
  {
    SlaveRecoversPayload(s[..PayloadLength(s)]);
    assert s[..|s|] == s;
  }
}
