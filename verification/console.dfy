/** The interactive console of the firmware: the line reader `tty_gets` and
    one round of the AT command loop in `main`. */
module Console {
  import opened Bytes
  import opened Frames
  import opened Transparent
  import Send
  import Recv

  /** `STR_LEN`: the size of the line buffer the console reads into. */
  const LineSize: uint32 := 1024

  /** `sizeof(at_cmd)`: twice `STR_LEN`. */
  const CommandSize: nat := 2 * 1024

  /** `BUF_LEN`: the size of the response buffer. */
  const ResponseSize: uint32 := 4096

  /** A code that ends the line. */
  predicate IsStop(c: int32) {
    c == LF as int || c == CR as int
  }

  /** A code `tty_gets` stores and reads past. */
  predicate Plain(c: int32) {
    !IsStop(c) && c <= 0xFF
  }

  /** The octets `str_p[i] = c` stores: conversion to the unsigned `char`
      keeps the code modulo 256. */
  function Chars(cs: seq<int32>): (r: seq<uint8>)
    ensures |r| == |cs|
    ensures forall j :: 0 <= j < |cs| ==> r[j] == cs[j] % 256
  {
    seq(|cs|, j requires 0 <= j < |cs| => cs[j] % 256)
  }

  /** The codes on hand are enough for `tty_gets(_, size)` to return: `size`
      of them, or a code that is not plain. */
  predicate Completes(codes: seq<int32>, size: nat) {
    size <= |codes| || exists p :: 0 <= p < |codes| && !Plain(codes[p])
  }

  /** `tty_gets(str_p, size)` with `buf` as the storage behind `str_p` and
      `codes` as the values `uart_getchar` returns in turn. `ok` is false
      when the result is `NULL`; `read` is the number of codes consumed. */
  method TtyGets(buf: seq<uint8>, size: uint32, codes: seq<int32>)
    returns (out: seq<uint8>, ok: bool, read: nat)
    requires size <= |buf|
    requires Completes(codes, size)
    ensures read <= size && read <= |codes|
    ensures read == 0 <==> size == 0
    // it reads on exactly as long as the codes are plain and room is left
    ensures forall j :: 0 <= j < read - 1 ==> Plain(codes[j])
    ensures read < size ==> !Plain(codes[read - 1])
    // NULL exactly on a code above 0xFF
    ensures ok <==> read == 0 || codes[read - 1] <= 0xFF
    ensures read == 0 ==> out == buf
    ensures read > 0 && ok ==> out == Chars(codes[..read - 1]) + [NUL] + buf[read..]
    ensures read > 0 && !ok ==> out == Chars(codes[..read - 1]) + buf[read - 1..]
  {
    var a := new uint8[|buf|](i requires 0 <= i < |buf| => buf[i]);
    var i: uint32 := 0;
    while i < size
      invariant i <= size && i <= |codes|
      invariant forall j :: 0 <= j < i ==> Plain(codes[j])
      invariant a[..] == Chars(codes[..i]) + buf[i..]
    {
      assert i < |codes| by {
        if |codes| < size {
          var p :| 0 <= p < |codes| && !Plain(codes[p]);
          assert p >= i;
        }
      }
      var c := codes[i];
      if c == LF as int || c == CR as int {
        Store(a, i, NUL, Chars(codes[..i]), buf[i..]);
        out, ok, read := a[..], true, i + 1;
        return;
      } else if c > 0xFF {
        out, ok, read := a[..], false, i + 1;
        return;
      }
      Store(a, i, c % 256, Chars(codes[..i]), buf[i..]);
      CharsSnoc(codes, i);
      i := i + 1;
    }
    if size > 0 {
      CharsSnoc(codes, size - 1);
      Store(a, size - 1, NUL, Chars(codes[..size - 1]), [codes[size - 1] % 256] + buf[size..]);
    }
    out, ok, read := a[..], true, size;
  }

  /** `str_p[i] = x` on a buffer made of a prefix of length `i` and a rest. */
  method Store(a: array<uint8>, i: nat, x: uint8, prefix: seq<uint8>, rest: seq<uint8>)
    requires |prefix| == i < a.Length && a[..] == prefix + rest
    modifies a
    ensures a[..] == prefix + [x] + rest[1..]
  {
    a[i] := x;
    assert a[..] == a[..i] + [x] + a[i + 1..];
  }

  lemma CharsSnoc(codes: seq<int32>, i: nat)
    requires i < |codes|
    ensures Chars(codes[..i + 1]) == Chars(codes[..i]) + [codes[i] % 256]
  {
  }

  /** A successful `tty_gets` with room for at least one octet leaves a C
      string shorter than the buffer: the characters typed before the end of
      the line, cut to `size - 1` when no terminator came in time, and cut
      again at the first typed code that stores as NUL. */
  lemma GetsString(buf: seq<uint8>, size: nat, codes: seq<int32>, out: seq<uint8>, read: nat)
    requires 0 < read <= size <= |buf| && read <= |codes|
    requires out == Chars(codes[..read - 1]) + [NUL] + buf[read..]
    ensures NUL in out && StrLen(out) < size
    ensures CStr(out) <= Chars(codes[..read - 1])
    ensures |CStr(out)| < read - 1 ==> codes[|CStr(out)|] % 256 == 0
    ensures NulFree(Chars(codes[..read - 1])) ==> CStr(out) == Chars(codes[..read - 1])
  {
    var line := Chars(codes[..read - 1]);
    assert out[|line|] == NUL;
    StrLenFirst(out, |line|);
    var n := StrLen(out);
    assert out[..n] == line[..n];
    if n < |line| {
      assert out[n] == line[n];
    }
    if NulFree(line) {
      CStrOfTerminated(line, buf[read..]);
    }
  }

  lemma LineShape(line: seq<uint8>, rest: seq<uint8>)
    ensures (line + [NUL] + rest)[|line|] == NUL
    ensures (line + [NUL] + rest)[..|line|] == line
  {
  }

  /** The codes hold a line terminator at or after `from`. */
  predicate StopAhead(codes: seq<int32>, from: nat) {
    exists p :: from <= p < |codes| && IsStop(codes[p])
  }

  /** `p` is where a call of `tty_gets` starts when every call before it
      failed: at the first code, or right after a code above 0xFF. */
  predicate CallStart(codes: seq<int32>, p: nat) {
    p == 0 || (p <= |codes| && codes[p - 1] > 0xFF)
  }

  /** Every call of `tty_gets(buf, size)` that starts before `from` fails: a
      code above 0xFF comes among its first `size` codes, before `from`. */
  predicate CallsFail(codes: seq<int32>, size: nat, from: nat) {
    forall p :: 0 <= p < from && CallStart(codes, p) ==>
      exists q :: p <= q < from && q < p + size && q < |codes| && codes[q] > 0xFF
  }

  /** The codes `from` to `upto` are those of the call that ends
      `while (NULL == tty_gets(buf, size)) {}`. */
  predicate LineCall(codes: seq<int32>, size: nat, from: nat, upto: nat) {
    && from <= upto <= |codes| && upto - from <= size
    && (size > 0 ==> from < upto)
    // every call before it failed, meeting no line terminator; the last of
    // them ended on a code above 0xFF
    && CallsFail(codes, size, from)
    && (forall j :: 0 <= j < from ==> !IsStop(codes[j]))
    && (from > 0 ==> codes[from - 1] > 0xFF)
    // it read plain codes up to its last one, which ends the line unless the
    // buffer filled first
    && (forall j :: from <= j < upto - 1 ==> Plain(codes[j]))
    && (size > 0 ==> codes[upto - 1] <= 0xFF)
    && (size > 0 && upto - from < size ==> IsStop(codes[upto - 1]))
  }

  /** `while (NULL == tty_gets(buf, size)) {}`: calls `tty_gets` on the codes
      not yet consumed until it returns the buffer. `from` is where the codes
      of the successful call start and `upto` where they end. */
  method ReadLine(buf: seq<uint8>, size: uint32, codes: seq<int32>)
    returns (out: seq<uint8>, from: nat, upto: nat)
    requires size <= |buf|
    requires StopAhead(codes, 0)
    ensures LineCall(codes, size, from, upto)
    ensures size == 0 ==> out == buf
    ensures size > 0 ==> |out| == |buf| && out[upto - from - 1] == NUL
    ensures size > 0 ==> out[..upto - from - 1] == Chars(codes[from..upto - 1])
  {
    out := buf;
    from := 0;
    while true
      invariant from <= |codes| && |out| == |buf|
      invariant StopAhead(codes, from)
      invariant CallsFail(codes, size, from)
      invariant forall j :: 0 <= j < from ==> !IsStop(codes[j])
      invariant from > 0 ==> codes[from - 1] > 0xFF
      invariant size == 0 ==> out == buf
      decreases |codes| - from
    {
      var rest := codes[from..];
      assert Completes(rest, size) by {
        var p :| from <= p < |codes| && IsStop(codes[p]);
        assert !Plain(rest[p - from]);
      }
      var o, ok, read := TtyGets(out, size, rest);
      if ok {
        if size > 0 {
          LineShape(Chars(rest[..read - 1]), out[read..]);
          assert rest[..read - 1] == codes[from..from + read - 1];
          assert codes[from + read - 1] == rest[read - 1];
        }
        out, upto := o, from + read;
        return;
      }
      assert StopAhead(codes, from + read) by {
        var p :| from <= p < |codes| && IsStop(codes[p]);
        assert p >= from + read;
      }
      assert codes[from + read - 1] > 0xFF by { assert codes[from + read - 1] == rest[read - 1]; }
      assert forall j :: from <= j < from + read ==> !IsStop(codes[j]) && (j < from + read - 1 ==> Plain(codes[j])) by {
        forall j | from <= j < from + read ensures !IsStop(codes[j]) && (j < from + read - 1 ==> Plain(codes[j])) {
          assert codes[j] == rest[j - from];
        }
      }
      FailedCall(codes, size, from, read);
      out := o;
      from := from + read;
    }
  }

  /** A failed call of `read` codes, starting where the earlier calls left
      off, keeps every call start before its end a failing one. */
  lemma FailedCall(codes: seq<int32>, size: nat, from: nat, read: nat)
    requires 0 < read <= size && from + read <= |codes|
    requires CallsFail(codes, size, from) && CallStart(codes, from)
    requires forall j :: from <= j < from + read - 1 ==> Plain(codes[j])
    requires codes[from + read - 1] > 0xFF
    ensures CallsFail(codes, size, from + read)
  {
    forall p | 0 <= p < from + read
      ensures CallStart(codes, p) ==>
        exists q :: p <= q < from + read && q < p + size && q < |codes| && codes[q] > 0xFF
    {
      if p > from {
        assert Plain(codes[p - 1]);
      } else if p == from {
        var q := from + read - 1;
        assert p <= q < from + read && q < p + size && codes[q] > 0xFF;
      } else if CallStart(codes, p) {
        var q :| p <= q < from && q < p + size && q < |codes| && codes[q] > 0xFF;
        assert q < from + read;
      }
    }
  }

  /** The retry loop has one outcome: the codes fix where the successful call
      starts and ends. */
  lemma LineCallUnique(codes: seq<int32>, size: nat, from: nat, upto: nat, from': nat, upto': nat)
    requires LineCall(codes, size, from, upto) && LineCall(codes, size, from', upto')
    ensures from == from' && upto == upto'
  {
    FirstSuccess(codes, size, from, upto, from');
    FirstSuccess(codes, size, from', upto', from);
    if upto < upto' {
      assert false;
    } else if upto' < upto {
      assert false;
    }
  }

  /** No call that starts after a successful one can be reached by failing
      calls only. */
  lemma FirstSuccess(codes: seq<int32>, size: nat, from: nat, upto: nat, from': nat)
    requires LineCall(codes, size, from, upto)
    requires from' <= |codes| && CallsFail(codes, size, from')
    requires forall j :: 0 <= j < from' ==> !IsStop(codes[j])
    ensures from' <= from
  {
    if from < from' {
      assert CallStart(codes, from);
      var q :| from <= q < from' && q < from + size && q < |codes| && codes[q] > 0xFF;
      assert false;
    }
  }

  /** `snprintf(at_cmd, sizeof(at_cmd), "%s\r\n", line)`: the line and CR LF,
      cut so that the result and its terminator fit in the command buffer. */
  function Format(line: seq<uint8>): (r: seq<uint8>)
    ensures |r| < CommandSize
    ensures r <= line + CRLF
    ensures |line| + 2 < CommandSize ==> r == line + CRLF
    ensures |line| + 2 >= CommandSize ==> |r| == CommandSize - 1
  {
    var full := line + CRLF;
    if |full| < CommandSize then full else full[..CommandSize - 1]
  }

  /** A line becomes a sentinel command exactly when it is the sentinel
      without its CR LF. */
  lemma SentinelLines(line: seq<uint8>)
    ensures line + CRLF == EnableCmd <==> line == Ascii("AT+CIPSEND")
    ensures line + CRLF == EndCmd <==> line == Ascii("+++")
  {
    assert EnableCmd == Ascii("AT+CIPSEND") + CRLF;
    assert EndCmd == Ascii("+++") + CRLF;
    if line + CRLF == EnableCmd {
      assert line == EnableCmd[..|line|];
    }
    if line + CRLF == EndCmd {
      assert line == EndCmd[..|line|];
    }
  }

  /** One round of the console loop once a line has been read: format the
      command, send it, and receive the response only when the link is back
      in framed mode. `line` is the C string `tty_gets` left in the line
      buffer; the slave's replies and handshake levels are inputs as for
      `Recv.Recv`. */
  method ConsoleStep(m: Mode, line: seq<uint8>, response: seq<uint8>,
                     replies: seq<Recv.Reply>, hs: seq<bool>)
    returns (m': Mode, command: seq<uint8>, sent: seq<Event>,
             received: bool, response': seq<uint8>, heard: seq<Event>, cycles: nat)
    requires NulFree(line) && |line| < LineSize
    requires |response| == ResponseSize
    requires NextMode(m, line + CRLF) == Off ==> Recv.Supplied(ResponseSize, replies, hs)
    ensures command == line + CRLF
    ensures m' == NextMode(m, command)
    ensures Written(sent) == SendHeader.Octets()
                           + EncodeLength(PayloadLength(command)).Octets()
                           + command[..PayloadLength(command)]
    // a response is read exactly when the new mode is framed again
    ensures received <==> m' == Off
    ensures received <==> m != On && line != Ascii("AT+CIPSEND") && line != Ascii("+++")
    ensures !received ==> response' == response && heard == [] && cycles == 0
    // one receive cycle per high handshake level and one for the first low
    ensures received ==> cycles == Recv.FirstLow(hs) + 1
    ensures received ==> response' == Recv.AfterCycles(response, ResponseSize, replies[..cycles])
    ensures received ==> heard == Recv.RecvTrace(ResponseSize, replies[..cycles])
  {
    command := Format(line);
    assert NulFree(command) by {
      assert command == line + [CR, LF];
    }
    m', sent := Send.Send(m, command);
    SentinelLines(line);
    received := m' == Off;
    if received {
      response', heard, cycles := Recv.Recv(response, ResponseSize, replies, hs);
    } else {
      response', heard, cycles := response, [], 0;
    }
  }

  /** The round trip into transparent mode and out again: the enable line
      switches the link on and nothing is received; `+++` ends it, again
      without a receive; the next ordinary line settles the link and its
      response is read. */
  lemma ConsoleScenario(m: Mode, other: seq<uint8>)
    requires other != Ascii("AT+CIPSEND") && other != Ascii("+++")
    ensures var m1 := NextMode(m, Ascii("AT+CIPSEND") + CRLF);
            var m2 := NextMode(m1, Ascii("+++") + CRLF);
            var m3 := NextMode(m2, other + CRLF);
            m1 == On && m2 == Ending && m3 == Off
  {
    SentinelLines(Ascii("AT+CIPSEND"));
    SentinelLines(Ascii("+++"));
    SentinelLines(other);
  }
}
