/**
 * The USART1_BRR value of src/main.c:79-84. The divisor is clock / (16 * baud); its
 * integer part (the mantissa) goes to bits 4..15 and its fractional part, in
 * sixteenths and rounded to the nearest, to bits 0..3.
 */
module BaudRate {
  import opened Registers

  /** The integer part of clock / (16 * baud). */
  function Mantissa(clock: nat, baud: nat): (m: int)
    requires baud > 0
    ensures 0 <= m && 16 * baud * m <= clock < 16 * baud * (m + 1)
  {
    clock / (16 * baud)
  }

  /** The fractional part of clock / (16 * baud) times 16, rounded half up. */
  function Fraction(clock: nat, baud: nat): (f: int)
    requires baud > 0
    ensures 0 <= f <= 16
  {
    (2 * (clock % (16 * baud)) + baud) / (2 * baud)
  }

  /** `mantissa << 4 | fraction`: both fields can be read back from the packed value. */
  function PackBrr(mantissa: bv32, fraction: bv32): (brr: bv32)
    requires mantissa < 0x1000 && fraction < 0x10
    ensures brr >> 4 == mantissa
    ensures brr & 0xF == fraction
    ensures brr < 0x1_0000
  {
    (mantissa << 4) | fraction
  }

  /**
   * Read as a count of sixteenths, mantissa and fraction together are the integer
   * nearest to clock / baud; the rounded fraction can reach 16, in which case it no
   * longer fits its 4-bit field.
   */
  lemma DivisorIsNearest(clock: nat, baud: nat)
    requires baud > 0
    ensures Fraction(clock, baud) <= 16
    ensures 2 * baud * (16 * Mantissa(clock, baud) + Fraction(clock, baud)) <= 2 * clock + baud
    ensures 2 * clock + baud < 2 * baud * (16 * Mantissa(clock, baud) + Fraction(clock, baud) + 1)
  {
    var d := 16 * baud;
    var m, r := clock / d, clock % d;
    var f := (2 * r + baud) / (2 * baud);
    assert clock == m * d + r && 0 <= r < d;
    assert 2 * baud * f <= 2 * r + baud < 2 * baud * (f + 1);
    assert 2 * baud * (16 * m + f) == 2 * m * d + 2 * baud * f;
    assert 2 * clock + baud == 2 * m * d + 2 * r + baud;
    assert 2 * r + baud < 2 * baud * 17;
  }

  /**
   * For PCLK2 = 8 MHz and 9600 baud the mantissa is 52 and the fraction 1, both fit
   * their fields, and packed they give 0x341, the constant src/main.c writes.
   */
  lemma Reference9600()
    ensures Mantissa(8_000_000, 9600) == 52 && Fraction(8_000_000, 9600) == 1
    ensures PackBrr(52, 1) == BRR_9600
    ensures BRR_9600 as int == 16 * Mantissa(8_000_000, 9600) + Fraction(8_000_000, 9600)
  {
  }
}
