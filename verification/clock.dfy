/** The serial clock divider `spi_init` programs. */
module Clock {
  import opened Bytes

  /** The core clock after PLL setup: 320 MHz. */
  const CpuFreq: uint32 := 320_000_000

  /** The serial clock the console firmware asks for: 80 kHz. */
  const SpiClock80k: uint32 := 80_000

  /** `2UL * spi_clock` in 32-bit unsigned arithmetic (`unsigned long` is 32
      bits wide on RV32), so the product wraps. */
  function Period(spi: uint32): uint32 {
    (2 * spi) % 0x1_0000_0000
  }

  /** `(cpu_freq() / (2UL * spi_clock)) - 1UL`, all in 32-bit unsigned
      arithmetic. A zero divisor is undefined behaviour in C and is excluded.
      The divider plus one is the number of whole `2 * spi_clock` periods in
      the core clock; when there is none, the subtraction wraps to the
      largest value. */
  function SckDiv(cpu: uint32, spi: uint32): (r: uint32)
    requires Period(spi) != 0
    ensures cpu >= Period(spi) ==>
      (r as int + 1) * Period(spi) <= cpu < (r as int + 2) * Period(spi)
    ensures cpu < Period(spi) ==> r == 0xFFFF_FFFF
  {
    var r := (cpu / Period(spi) - 1) % 0x1_0000_0000;
    DecrementedQuotient(cpu, Period(spi), r);
    r
  }

  /** The quotient less one, taken modulo 2^32, brackets the dividend
      between whole multiples of the divisor, or wraps when the quotient is
      zero. */
  lemma DecrementedQuotient(n: uint32, d: nat, r: int)
    requires 0 < d && r == (n / d - 1) % 0x1_0000_0000
    ensures n >= d ==> (r + 1) * d <= n < (r + 2) * d
    ensures n < d ==> r == 0xFFFF_FFFF
  {
    var q := n / d;
    QuotientBounds(n, d);
    if q >= 1 {
      WholeQuotient(q, d, r);
    } else {
      assert (q - 1) % 0x1_0000_0000 == 0xFFFF_FFFF;
    }
  }

  lemma WholeQuotient(q: nat, d: nat, r: int)
    requires q >= 1 && r == (q - 1) % 0x1_0000_0000 && q <= 0xFFFF_FFFF
    ensures r + 1 == q
    ensures (r + 1) * d == q * d && (r + 2) * d == (q + 1) * d
  {
    assert (q - 1) % 0x1_0000_0000 == q - 1;
  }

  /** Floor division brackets its dividend. */
  lemma QuotientBounds(n: nat, d: nat)
    requires 0 < d
    ensures n / d <= n
    ensures (n / d) * d <= n < (n / d + 1) * d
    ensures n >= d <==> n / d >= 1
  {
    var q, m := n / d, n % d;
    assert n == q * d + m && 0 <= m < d;
    MulStep(q, d);
    MulAtLeast(q, d);
  }

  lemma MulStep(q: nat, d: nat)
    ensures (q + 1) * d == q * d + d
  {
  }

  lemma MulAtLeast(q: nat, d: nat)
    requires 0 < d
    ensures q * d >= q
    ensures q >= 1 ==> q * d >= d
  {
    var k := d - 1;
    assert q * d == q * k + q;
    if q >= 1 {
      var j := q - 1;
      assert q * d == j * d + d;
    }
  }

  /** The console firmware's setting: 320 MHz / (2 * 80 kHz) - 1 = 1999. */
  lemma DividerAt80k()
    ensures SckDiv(CpuFreq, SpiClock80k) == 1999
  {
    assert Period(SpiClock80k) == 160_000;
    assert CpuFreq / 160_000 == 2000;
  }
}
