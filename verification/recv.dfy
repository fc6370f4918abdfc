/** `spi_recv`: repeated receive cycles (request header, length frame,
    payload), each copying into the caller's buffer and tidying a short read
    for the console, for as long as the slave keeps its handshake line up. */
module Recv {
  import opened Bytes
  import opened Frames

  /** What the slave clocks back during one cycle: the four octets captured
      as its length frame, then the octets captured as payload. */
  datatype Reply = Reply(frame: Frame, data: seq<uint8>)

  function Min(a: nat, b: nat): nat {
    if a < b then a else b
  }

  /** Payload octets one cycle reads: `i < data_len && i < len`. */
  function ReadCount(r: Reply, len: nat): nat {
    Min(DecodeLength(r.frame), len)
  }

  /** The slave has the octets the cycle reads ready (otherwise the master
      blocks for good). */
  predicate Feeds(r: Reply, len: nat) {
    ReadCount(r, len) <= |r.data|
  }

  predicate IsEol(c: uint8) {
    c == CR || c == LF
  }

  /** The octet the tidy-up leaves in place of `c`. */
  function Tidy(c: uint8): uint8 {
    if IsEol(c) then SPACE else c
  }

  /** Every CR and LF replaced by a space. */
  function Blank(s: seq<uint8>): (r: seq<uint8>)
    ensures |r| == |s|
    ensures forall i :: 0 <= i < |s| ==> r[i] == Tidy(s[i])
  {
    seq(|s|, i requires 0 <= i < |s| => Tidy(s[i]))
  }

  /** The console tidy-up of a short read: in a response of four octets or
      more every CR and LF becomes a space, except in its last two octets. */
  function Scrub(s: seq<uint8>): (r: seq<uint8>)
    ensures |r| == |s|
    ensures |s| < 4 ==> r == s
    ensures |s| >= 4 ==> r[|s| - 2..] == s[|s| - 2..]
    ensures |s| >= 4 ==> forall i :: 0 <= i < |s| - 2 ==> r[i] == if IsEol(s[i]) then SPACE else s[i]
    ensures forall i :: 0 <= i < |s| - 2 && |s| >= 4 ==> !IsEol(r[i])
    ensures forall i :: 0 <= i < |s| && !IsEol(s[i]) ==> r[i] == s[i]
  {
    if |s| < 4 then s else Blank(s[..|s| - 2]) + s[|s| - 2..]
  }

  /** Reference: the buffer after one cycle. A short read (`n < len`) leaves
      the tidied response and a terminator; a long one leaves the first `len`
      octets of the response and no terminator. */
  function CycleBuffer(buf: seq<uint8>, len: nat, r: Reply): (out: seq<uint8>)
    requires len <= |buf| && Feeds(r, len)
    ensures |out| == |buf|
  {
    var n := DecodeLength(r.frame);
    if n < len then Scrub(r.data[..n]) + [NUL] + buf[n + 1..]
    else r.data[..len] + buf[len..]
  }

  function Zeros(k: nat): seq<uint8> {
    seq(k, _ => 0)
  }

  /** Reference: the events of one cycle. */
  function CycleTrace(len: nat, r: Reply): seq<Event> {
    Phase(RecvHeader.Octets()) + Phase(Filler.Octets())
    + Out(Zeros(ReadCount(r, len))) + [Deassert]
  }

  /** The rules a cycle's buffer obeys, read off the reference. */
  lemma CycleRules(buf: seq<uint8>, len: nat, r: Reply)
    requires len <= |buf| && Feeds(r, len)
    ensures var out := CycleBuffer(buf, len, r); var n := DecodeLength(r.frame);
      // the copy: min(data_len, len) octets from index 0
      && (forall i :: 0 <= i < ReadCount(r, len) && !IsEol(r.data[i]) ==> out[i] == r.data[i])
      // a short read is terminated
      && (n < len ==> out[n] == NUL)
      // and, from four octets on, loses CR and LF below its last two octets
      && (n < len && n >= 4 ==>
            (forall i :: 0 <= i < n - 2 ==> out[i] == if IsEol(r.data[i]) then SPACE else r.data[i])
            && out[n - 2] == r.data[n - 2] && out[n - 1] == r.data[n - 1])
      // short reads below four octets and long reads are copied verbatim
      && ((n >= len || n < 4) ==> out[..ReadCount(r, len)] == r.data[..ReadCount(r, len)])
      // nothing past the copy and its terminator changes
      && (forall i :: (if n < len then n + 1 else len) <= i < |buf| ==> out[i] == buf[i])
  {
    var out := CycleBuffer(buf, len, r);
    var n := DecodeLength(r.frame);
    if n < len {
      var s := Scrub(r.data[..n]);
      assert out == s + [NUL] + buf[n + 1..];
      assert out[..n] == s;
      if n >= 4 {
        assert s[..n - 2] == Blank(r.data[..n - 2]);
        assert s[n - 2] == r.data[n - 2];
      }
    } else {
      assert out[..len] == r.data[..len];
    }
  }

  /** The payload loop: `str_p[i] = <octet read>` for each `i < k`. */
  method CopyIn(a: array<uint8>, data: seq<uint8>, k: nat)
    requires k <= a.Length && k <= |data|
    modifies a
    ensures a[..] == data[..k] + old(a[k..])
  {
    var i := 0;
    while i < k
      invariant 0 <= i <= k
      invariant forall j :: 0 <= j < i ==> a[j] == data[j]
      invariant forall j :: i <= j < a.Length ==> a[j] == old(a[j])
    {
      a[i] := data[i];
      i := i + 1;
    }
    assert forall j :: 0 <= j < a.Length ==> a[..][j] == (data[..k] + old(a[k..]))[j];
  }

  /** The CR/LF loop: every CR or LF below index `m` becomes a space. */
  method BlankPrefix(a: array<uint8>, m: nat)
    requires m <= a.Length
    modifies a
    ensures a[..] == Blank(old(a[..m])) + old(a[m..])
  {
    var j := 0;
    while j < m
      invariant 0 <= j <= m
      invariant forall i :: 0 <= i < j ==> a[i] == Tidy(old(a[i]))
      invariant forall i :: j <= i < a.Length ==> a[i] == old(a[i])
    {
      if a[j] == CR || a[j] == LF {
        a[j] := SPACE;
      }
      j := j + 1;
    }
    assert forall i :: 0 <= i < a.Length ==> a[..][i] == (Blank(old(a[..m])) + old(a[m..]))[i];
  }

  /** `str_p[n] = '\0'`. */
  method Terminate(a: array<uint8>, n: nat)
    requires n < a.Length
    modifies a
    ensures a[..] == old(a[..n]) + [NUL] + old(a[n + 1..])
  {
    a[n] := NUL;
    assert a[..] == a[..n] + [a[n]] + a[n + 1..];
  }

  /** The buffer after the copy and the terminator of a short read. */
  lemma TerminatedShape(s: seq<uint8>, buf: seq<uint8>, n: nat)
    requires |s| == n < |buf|
    ensures var copied := s + buf[n..];
      copied[..n] + [NUL] + copied[n + 1..] == s + [NUL] + buf[n + 1..]
  {
    var copied := s + buf[n..];
    assert copied[..n] == s;
    assert copied[n + 1..] == buf[n + 1..];
  }

  /** Blanking the octets below `n - 2` of a terminated short read gives the
      tidied response. */
  lemma TidiedShape(s: seq<uint8>, rest: seq<uint8>)
    requires |s| >= 4
    ensures var t := s + [NUL] + rest; var m := |s| - 2;
      Blank(t[..m]) + t[m..] == Scrub(s) + [NUL] + rest
  {
    var t := s + [NUL] + rest;
    var m := |s| - 2;
    assert t[..m] == s[..m];
    assert t[m..] == s[m..] + [NUL] + rest;
  }

  /** The buffer half of a cycle: the payload copy, the terminator and the
      CR/LF tidy-up, on a copy of the caller's buffer. */
  method FillBuffer(buf: seq<uint8>, len: uint32, r: Reply) returns (out: seq<uint8>)
    requires len <= |buf| && Feeds(r, len)
    ensures out == CycleBuffer(buf, len, r)
  {
    var a := new uint8[|buf|](i requires 0 <= i < |buf| => buf[i]);
    assert a[..] == buf;
    var dataLen := DecodeLength(r.frame);
    CopyIn(a, r.data, Min(dataLen, len));
    if dataLen < len {
      ghost var s := r.data[..dataLen];
      Terminate(a, dataLen);
      TerminatedShape(s, buf, dataLen);
      if dataLen >= 4 {
        BlankPrefix(a, dataLen - 2);
        TidiedShape(s, buf[dataLen + 1..]);
      }
    }
    out := a[..];
  }

  /** One pass of the do-while body of `spi_recv` on the buffer `buf`, whose
      first `len` octets the caller lends: what lands in the buffer and what
      the master does on the link. */
  method RecvCycle(buf: seq<uint8>, len: uint32, r: Reply) returns (out: seq<uint8>, trace: seq<Event>)
    requires len <= |buf| && Feeds(r, len)
    ensures out == CycleBuffer(buf, len, r)
    ensures trace == CycleTrace(len, r)
  {
    // 1. the request header
    trace := Transfer([], RecvHeader.Octets());
    trace := trace + [Deassert, HandshakeWait];
    // 2. the length frame, captured while clocking out fillers
    trace := Transfer(trace, Filler.Octets());
    trace := trace + [Deassert, HandshakeWait];
    // 3. the payload, one filler out for each octet in
    trace := Transfer(trace, Zeros(ReadCount(r, len)));
    out := FillBuffer(buf, len, r);
    trace := trace + [Deassert];
  }

  /** A short read of a NUL-free response leaves the caller a C string: the
      tidied response itself. */
  lemma ShortReadString(buf: seq<uint8>, len: nat, r: Reply)
    requires len <= |buf| && Feeds(r, len)
    requires DecodeLength(r.frame) < len
    requires NulFree(r.data[..DecodeLength(r.frame)])
    ensures NUL in CycleBuffer(buf, len, r)
    ensures CStr(CycleBuffer(buf, len, r)) == Scrub(r.data[..DecodeLength(r.frame)])
  {
    var s := r.data[..DecodeLength(r.frame)];
    var t := Scrub(s);
    forall i | 0 <= i < |t| ensures t[i] != NUL {
      if IsEol(s[i]) {
        assert t[i] == SPACE || t[i] == s[i];
      } else {
        assert s[i] in s;
      }
    }
    assert NulFree(t);
    CStrOfTerminated(t, buf[DecodeLength(r.frame) + 1..]);
  }

  /** The position of the first low handshake observation. */
  function FirstLow(hs: seq<bool>): (k: nat)
    requires false in hs
    ensures k < |hs| && !hs[k]
    ensures forall j :: 0 <= j < k ==> hs[j]
  {
    if !hs[0] then 0
    else
      assert false in hs[1..];
      1 + FirstLow(hs[1..])
  }

  /** The slave eventually lowers its handshake line, and has a reply ready
      for every cycle until then. */
  predicate Supplied(len: nat, replies: seq<Reply>, hs: seq<bool>) {
    && false in hs
    && FirstLow(hs) < |replies|
    && forall k :: 0 <= k <= FirstLow(hs) ==> Feeds(replies[k], len)
  }

  /** Reference: the buffer after a run of cycles, each working on the buffer
      the previous one left. */
  function AfterCycles(buf: seq<uint8>, len: nat, rs: seq<Reply>): (out: seq<uint8>)
    requires len <= |buf|
    requires forall k :: 0 <= k < |rs| ==> Feeds(rs[k], len)
    ensures |out| == |buf|
  {
    if |rs| == 0 then buf
    else CycleBuffer(AfterCycles(buf, len, rs[..|rs| - 1]), len, rs[|rs| - 1])
  }

  /** Reference: the events of a run of cycles. */
  function RecvTrace(len: nat, rs: seq<Reply>): seq<Event> {
    if |rs| == 0 then [] else RecvTrace(len, rs[..|rs| - 1]) + CycleTrace(len, rs[|rs| - 1])
  }

  /** Each cycle waits for the handshake twice: after its header and after
      its length frame. */
  lemma {:induction false} RecvTraceWaits(len: nat, rs: seq<Reply>)
    ensures Waits(RecvTrace(len, rs)) == 2 * |rs|
  {
    if |rs| > 0 {
      var r := rs[|rs| - 1];
      RecvTraceWaits(len, rs[..|rs| - 1]);
      var tail := [Deassert];
      assert tail[1..] == [];
      PhaseWritten(RecvHeader.Octets());
      PhaseWritten(Filler.Octets());
      OutWritten(Zeros(ReadCount(r, len)));
      WaitsAppend(Out(Zeros(ReadCount(r, len))), tail);
      WaitsAppend(Phase(Filler.Octets()), Out(Zeros(ReadCount(r, len))) + tail);
      WaitsAppend(Phase(RecvHeader.Octets()), Phase(Filler.Octets()) + (Out(Zeros(ReadCount(r, len))) + tail));
      assert CycleTrace(len, r)
        == Phase(RecvHeader.Octets()) + (Phase(Filler.Octets()) + (Out(Zeros(ReadCount(r, len))) + tail));
      WaitsAppend(RecvTrace(len, rs[..|rs| - 1]), CycleTrace(len, r));
    }
  }

  /** After a run of cycles whose last one is a short read of a NUL-free
      response, the caller holds that response, tidied, as a C string. */
  lemma LastCycleString(buf: seq<uint8>, len: nat, rs: seq<Reply>)
    requires len <= |buf| && |rs| > 0
    requires forall k :: 0 <= k < |rs| ==> Feeds(rs[k], len)
    ensures var last := rs[|rs| - 1]; var n := DecodeLength(last.frame);
      n < len && n <= |last.data| && NulFree(last.data[..n]) ==>
        NUL in AfterCycles(buf, len, rs) && CStr(AfterCycles(buf, len, rs)) == Scrub(last.data[..n])
  {
    var last := rs[|rs| - 1];
    var n := DecodeLength(last.frame);
    if n < len && NulFree(last.data[..n]) {
      ShortReadString(AfterCycles(buf, len, rs[..|rs| - 1]), len, last);
    }
  }

  /** `spi_recv(str_p, len)` with `buf` as the storage behind `str_p`. The
      slave's replies and the handshake level read after each cycle are
      inputs. */
  method Recv(buf: seq<uint8>, len: uint32, replies: seq<Reply>, hs: seq<bool>)
    returns (out: seq<uint8>, trace: seq<Event>, cycles: nat)
    requires len <= |buf|
    requires Supplied(len, replies, hs)
    // at least one cycle, and another one exactly while the line stays high
    ensures 1 <= cycles <= |hs| && !hs[cycles - 1]
    ensures forall j :: 0 <= j < cycles - 1 ==> hs[j]
    ensures out == AfterCycles(buf, len, replies[..cycles])
    ensures trace == RecvTrace(len, replies[..cycles])
    ensures Waits(trace) == 2 * cycles
    // what the caller sees after a short final read
    ensures var last := replies[cycles - 1]; var n := DecodeLength(last.frame);
      n < len && NulFree(last.data[..n]) ==> NUL in out && CStr(out) == Scrub(last.data[..n])
  {
    out := buf;
    trace := [];
    cycles := 0;
    var more := true;
    while more
      invariant cycles <= FirstLow(hs) + 1
      invariant more <==> cycles == 0 || hs[cycles - 1]
      invariant out == AfterCycles(buf, len, replies[..cycles])
      invariant trace == RecvTrace(len, replies[..cycles])
      decreases FirstLow(hs) + 1 - cycles
    {
      var o, t := RecvCycle(out, len, replies[cycles]);
      assert replies[..cycles + 1][..cycles] == replies[..cycles];
      out, trace := o, trace + t;
      more := hs[cycles];
      cycles := cycles + 1;
    }
    RecvTraceWaits(len, replies[..cycles]);
    LastCycleString(buf, len, replies[..cycles]);
  }
}
