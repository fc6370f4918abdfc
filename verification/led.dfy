/** The three board LEDs as bits of the 32-bit GPIO output-enable register.
    A register value is modelled by the set of positions of its 1-bits, so
    `|` is union, `&` intersection and `& ~` difference. Each operation maps
    the register's old value to its new one. */
module Led {

  /** A 32-bit register value: the positions of its set bits. */
  type Word = set<nat>

  predicate IsWord(w: Word) {
    forall b :: b in w ==> b < 32
  }

  /** `led_t`: one colour, or all three at once. */
  datatype Led = Green | Blue | Red | All {
    function Mask(): (m: Word)
      ensures m != {} && m <= AllMask
    {
      match this
      case Green => GreenMask
      case Blue => BlueMask
      case Red => RedMask
      case All => AllMask
    }
  }

  /** `1U << 19`, `1U << 21`, `1U << 22` and their union. */
  const GreenMask: Word := {19}
  const BlueMask: Word := {21}
  const RedMask: Word := {22}
  const AllMask: Word := GreenMask + BlueMask + RedMask

  /** `LED_on`: `reg | led` lights every bit of the LED and keeps every
      other bit. */
  function On(reg: Word, led: Led): (r: Word)
    ensures led.Mask() <= r
    ensures r - led.Mask() == reg - led.Mask()
  {
    reg + led.Mask()
  }

  /** `LED_off`: `reg & ~led` darkens every bit of the LED and keeps every
      other bit. */
  function Off(reg: Word, led: Led): (r: Word)
    ensures led.Mask() !! r
    ensures r - led.Mask() == reg - led.Mask()
  {
    reg - led.Mask()
  }

  /** `LED_toggle`: reads which LEDs are lit (`reg & LED_ALL`), switches the
      LED off when it shares a lit bit with them and on otherwise. So all of
      the LED's bits go off when any of them was on, all go on when none was,
      and the other bits are kept. */
  function Toggle(reg: Word, led: Led): (r: Word)
    ensures reg * led.Mask() != {} ==> led.Mask() !! r
    ensures reg * led.Mask() == {} ==> led.Mask() <= r
    ensures r - led.Mask() == reg - led.Mask()
  {
    var current := reg * AllMask;
    assert led.Mask() * current == reg * led.Mask();
    if led.Mask() * current != {} then Off(reg, led) else On(reg, led)
  }

  /** The LED operations keep a register value within 32 bits. */
  lemma StaysWord(reg: Word, led: Led)
    requires IsWord(reg)
    ensures IsWord(On(reg, led)) && IsWord(Off(reg, led)) && IsWord(Toggle(reg, led))
  {
  }

  /** `LED_toggle` is `LED_off` when any of the LED's bits is lit and `LED_on`
      when none is. */
  lemma ToggleChoice(reg: Word, led: Led)
    ensures reg * led.Mask() != {} ==> Toggle(reg, led) == Off(reg, led)
    ensures reg * led.Mask() == {} ==> Toggle(reg, led) == On(reg, led)
  {
    var m := led.Mask();
    assert m * (reg * AllMask) == reg * m;
  }

  /** Toggling one colour twice gives the register back. */
  lemma ToggleTwice(reg: Word, led: Led)
    requires led != All
    ensures Toggle(Toggle(reg, led), led) == reg
  {
    var m := led.Mask();
    var once := Toggle(reg, led);
    ToggleChoice(reg, led);
    ToggleChoice(once, led);
    if reg * m != {} {
      assert m <= reg;
      assert once * m == {};
    } else {
      assert once * m == m;
    }
  }

  /** Not so for all three at once: with only red lit, the first toggle turns
      everything off and the second turns everything on. */
  lemma ToggleAllTwice()
    ensures Toggle(Toggle(RedMask, All), All) == AllMask != RedMask
  {
    ToggleChoice(RedMask, All);
    assert 22 in RedMask * AllMask;
    ToggleChoice({}, All);
    assert 19 in AllMask && 19 !in RedMask;
  }

  lemma OnIdempotent(reg: Word, led: Led)
    ensures On(On(reg, led), led) == On(reg, led)
  {
  }

  lemma OffIdempotent(reg: Word, led: Led)
    ensures Off(Off(reg, led), led) == Off(reg, led)
  {
  }
}
