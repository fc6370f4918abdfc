/** Machine integers, octets and the C-string conventions the firmware relies on.
    On RV32 `char` is unsigned, so a C string is a sequence of octets. */
module Bytes {

  /** An unsigned 8-bit value: `uint8_t`, or `char`. */
  type uint8 = x: int | 0 <= x < 0x100

  /** An unsigned 32-bit value: `uint32_t`, and `unsigned long` on RV32. */
  type uint32 = x: int | 0 <= x < 0x1_0000_0000

  /** A signed 32-bit value: `int32_t`, and `int` on RV32. */
  type int32 = x: int | -0x8000_0000 <= x < 0x8000_0000

  const NUL: uint8 := 0
  const LF: uint8 := 10
  const CR: uint8 := 13
  const SPACE: uint8 := 32

  const CRLF: seq<uint8> := [CR, LF]

  datatype Option<T> = None | Some(value: T)

  /** The octets of a literal written with ASCII characters only. */
  function Ascii(s: string): seq<uint8>
    requires forall i :: 0 <= i < |s| ==> s[i] as int < 0x80
  {
    seq(|s|, i requires 0 <= i < |s| => s[i] as int)
  }

  /** The content of a C string holds no terminator. */
  predicate NulFree(s: seq<uint8>) {
    NUL !in s
  }

  /** `strlen`: the index of the first terminator of a buffer. */
  function StrLen(buf: seq<uint8>): (n: nat)
    requires NUL in buf
    ensures n < |buf| && buf[n] == NUL
    ensures NulFree(buf[..n])
  {
    if buf[0] == NUL then 0
    else
      assert NUL in buf[1..];
      assert buf[1..][..StrLen(buf[1..])] == buf[1..StrLen(buf[1..]) + 1];
      1 + StrLen(buf[1..])
  }

  /** `strlen` stops at the first terminator: no later one is reached. */
  lemma StrLenFirst(buf: seq<uint8>, k: nat)
    requires k < |buf| && buf[k] == NUL
    ensures NUL in buf && StrLen(buf) <= k
  {
    if buf[0] != NUL {
      StrLenFirst(buf[1..], k - 1);
    }
  }

  /** The C string a terminated buffer holds: everything before the first NUL. */
  function CStr(buf: seq<uint8>): seq<uint8>
    requires NUL in buf
  {
    buf[..StrLen(buf)]
  }

  /** A NUL-free content followed by a terminator reads back as that content,
      whatever follows the terminator. */
  lemma CStrOfTerminated(s: seq<uint8>, rest: seq<uint8>)
    requires NulFree(s)
    ensures NUL in s + [NUL] + rest
    ensures CStr(s + [NUL] + rest) == s
  {
    var buf := s + [NUL] + rest;
    assert buf[|s|] == NUL;
    assert buf[..|s|] == s;
  }
}
