/**
 * The register map of src/main.c: the bit masks it writes into RCC_APB2ENR,
 * GPIOA_CRH, USART1_CR1 and tests in USART1_SR.
 * Registers are 32 bits wide (`volatile unsigned int` on the Cortex-M3).
 */
module Registers {

  // RCC_APB2ENR: peripheral clock enables on the APB2 bus
  const AFIOEN: bv32 := 1 << 0      // alternate-function I/O
  const IOPAEN: bv32 := 1 << 2      // GPIO port A
  const USART1EN: bv32 := 1 << 14   // USART1
  const APB2_CLOCKS: bv32 := IOPAEN | USART1EN | AFIOEN

  // GPIOA_CRH: pin PA9 is governed by the 4-bit group at bits 4..7 (MODE9, CNF9)
  const PA9_FIELD: bv32 := 0xF << 4
  /** MODE9 = 11 (output, 50 MHz), CNF9 = 10 (alternate-function push-pull). */
  const PA9_AF_PUSH_PULL: bv32 := 0xB << 4

  // USART1_CR1
  const TE: bv32 := 1 << 3          // transmitter enable
  const UE: bv32 := 1 << 13         // USART enable

  // USART1_SR
  const TXE: bv32 := 1 << 7          // transmit data register empty

  /** The value src/main.c writes into USART1_BRR: 9600 baud from an 8 MHz clock. */
  const BRR_9600: bv32 := 0x341

  /** OR-ing in bits that are already set leaves a register as it was. */
  lemma SetIdempotent(x: bv32, m: bv32)
    ensures x & m == m ==> x | m == x
  {
  }

  /** A pin group holding the alternate-function push-pull pattern reads back as 0xB in bits 4..7. */
  lemma Pa9FieldValue(x: bv32)
    requires x & PA9_FIELD == PA9_AF_PUSH_PULL
    ensures (x >> 4) & 0xF == 0xB
  {
  }

  /** A byte as C's `char` carries it to USART1_DR. */
  type byte = x: int | 0 <= x < 0x100

  /** A 32-bit unsigned value, as `unsigned int` holds it. */
  type word = x: int | 0 <= x < 0x1_0000_0000

  /** True when a reading of USART1_SR has TXE (bit 7) set: DR may take the next byte. */
  predicate TxeSet(sr: word)
  {
    (sr / 0x80) % 2 == 1
  }

  /** TxeSet is the C test `USART1_SR & (1 << 7)`, taken on the 32-bit register value. */
  lemma TxeSetIsBit7(sr: word)
    ensures TxeSet(sr) == ((sr as bv32) & TXE != 0)
  {
  }
}
