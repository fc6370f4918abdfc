/** The transparent-mode state machine that `spi_send` drives with two
    sentinel commands. */
module Transparent {
  import opened Bytes

  /** `trans_t`: framed commands, transparent streaming, or streaming that
      ends with the next send. The link starts in `Off`. */
  datatype Mode = Off | On | Ending

  const Initial := Off

  /** The command that enables transparent transmission. */
  const EnableCmd: seq<uint8> := Ascii("AT+CIPSEND\r\n")

  /** The sentinel that ends it; only its first three octets go out. */
  const EndCmd: seq<uint8> := Ascii("+++\r\n")

  predicate IsSentinel(s: seq<uint8>) {
    s == EnableCmd || s == EndCmd
  }

  /** First thing every send does: an `Ending` mode becomes `Off`. */
  function Settle(m: Mode): (r: Mode)
    ensures m == Ending ==> r == Off
    ensures m != Ending ==> r == m
  {
    if m == Ending then Off else m
  }

  /** The mode after sending `s` in mode `m`. The comparisons are exact
      (`strcmp`), apply whatever the prior mode, and are made after the
      `Ending` mode has been cleared. */
  function NextMode(m: Mode, s: seq<uint8>): (r: Mode)
    ensures r == On <==> s == EnableCmd || (m == On && !IsSentinel(s))
    ensures r == Ending <==> s == EndCmd
    ensures r == Off <==> !IsSentinel(s) && m != On
  {
    var settled := Settle(m);
    if s == EnableCmd then On
    else if s == EndCmd then Ending
    else settled
  }

  /** The length the send frames: the string's length, except for the end
      sentinel, whose CR and LF must not go out. */
  function PayloadLength(s: seq<uint8>): (n: nat)
    ensures n <= |s|
    ensures s == EndCmd ==> n == 3 && s[..n] == Ascii("+++")
    ensures s != EndCmd ==> n == |s|
  {
    if s == EndCmd then 3 else |s|
  }

  /** The mode after a run of sends starting from `m`. */
  function ModeAfter(m: Mode, ms: seq<seq<uint8>>): Mode {
    if |ms| == 0 then m else NextMode(ModeAfter(m, ms[..|ms| - 1]), ms[|ms| - 1])
  }

  /** The enable command was sent, and no sentinel after it. */
  predicate EnabledSince(ms: seq<seq<uint8>>) {
    exists i :: 0 <= i < |ms| && ms[i] == EnableCmd &&
      forall j :: i < j < |ms| ==> !IsSentinel(ms[j])
  }

  /** Over a whole session from power-up: the link is `Ending` exactly when
      the last send was the end sentinel, `On` exactly when the last sentinel
      sent was the enable command, and `Off` otherwise. */
  lemma {:induction false} SessionMode(ms: seq<seq<uint8>>)
    ensures ModeAfter(Initial, ms) == Ending <==> |ms| > 0 && ms[|ms| - 1] == EndCmd
    ensures ModeAfter(Initial, ms) == On <==> EnabledSince(ms)
  {
    if |ms| > 0 {
      var init := ms[..|ms| - 1];
      var last := ms[|ms| - 1];
      SessionMode(init);
      if last == EnableCmd {
        assert EnabledSince(ms);
      } else if last == EndCmd {
        if EnabledSince(ms) {
          var i :| 0 <= i < |ms| && ms[i] == EnableCmd &&
            forall j :: i < j < |ms| ==> !IsSentinel(ms[j]);
          assert false;
        }
      } else {
        if EnabledSince(init) {
          var i :| 0 <= i < |init| && init[i] == EnableCmd &&
            forall j :: i < j < |init| ==> !IsSentinel(init[j]);
          assert ms[i] == EnableCmd;
          assert forall j :: i < j < |ms| ==> !IsSentinel(ms[j]);
        }
        if EnabledSince(ms) {
          var i :| 0 <= i < |ms| && ms[i] == EnableCmd &&
            forall j :: i < j < |ms| ==> !IsSentinel(ms[j]);
          assert i < |ms| - 1;
          assert init[i] == EnableCmd;
          assert forall j :: i < j < |init| ==> !IsSentinel(init[j]) by {
            forall j | i < j < |init| ensures !IsSentinel(init[j]) {
              assert init[j] == ms[j];
            }
          }
          assert EnabledSince(init);
        }
      }
    }
  }

  /** `Ending` never outlives the next send, whatever that send is. */
  lemma EndingLastsOneSend(s: seq<uint8>)
    ensures NextMode(Ending, s) != Ending <==> s != EndCmd
    ensures !IsSentinel(s) ==> NextMode(Ending, s) == Off
  {
  }
}
