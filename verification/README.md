# USART1 "hellokitty" firmware for the STM32F1, modelled in Dafny

`src/main.c` is a bare-metal program for an STM32F1 running on its 8 MHz internal
clock. It first brings up the peripherals:

- it enables the clocks of GPIO port A, USART1 and the alternate-function block in `RCC_APB2ENR`;
- it configures pin PA9 (USART1 TX) as an alternate-function push-pull output in `GPIOA_CRH`;
- it disables USART1, writes the 9600-baud divisor `0x341` into `USART1_BRR`, then sets
  the transmitter-enable (TE) and USART-enable (UE) bits of `USART1_CR1`.

It then loops forever. Each pass sends the NUL-terminated string `"hellokitty\r\n"`
byte by byte and calls a busy-wait `delay(800000)`. Before each byte goes to `USART1_DR`,
`uart_send_char` polls `USART1_SR` until the TXE flag (bit 7) is set.

The model has five modules:

- `Registers` (registers.dfy) holds the bit masks the program uses, the TXE test on an SR
  value, and the `byte` and `word` (unsigned 32-bit) value types.
- `BaudRate` (baud.dfy) computes the mantissa and fraction of the USART divisor and
  packs them into BRR. It proves that 8 MHz / 9600 gives 52 and 1, which pack to `0x341`.
- `CStrings` (cstrings.dfy) models C strings. A string is what `while (*str)` visits,
  and a literal is its characters followed by a NUL.
- `Polling` (polling.dfy) models the transmit traffic as a list of accesses: SR reads
  with the value read, and DR writes with the byte written. `Transmission` gives the
  accesses of sending some bytes one after another, against the SR values the hardware
  shows. Its lemmas cover what reaches DR, the TXE handshake, and how transmissions compose.
- `Firmware` (firmware.dfy) holds `delay`, and the class `RegisterFile`. The class keeps
  `RCC_APB2ENR`, `GPIOA_CRH`, `USART1_CR1` and `USART1_BRR` as 32-bit fields that its
  methods update in place. `USART1_SR` is the sequence of values the coming reads will
  return. Every SR read and DR write is appended to an access log; `TxLog()` is the DR
  part of that log. The bring-up steps, `uart_send_char`, `uart_send_string`, one loop
  pass and the main program are methods. Each method is proved against the functions of
  `Polling` and `CStrings`.

The TXE busy-wait is driven by the finite sequence of SR values. When some coming value
has TXE set, the wait reads up to and including that value, and then the byte is written.
When none has it, the wait reads every value and writes nothing. This is what the
endless poll on real hardware shows for as long as one looks at it.

The doc comment of `delay` (src/main.c:50-51) calls `count` the number of cycles to
wait. In `while (count--);` the empty body runs `count` times, but the post-decrement
runs once more, on the test that reads 0. That last decrement wraps the unsigned counter to
`0xFFFFFFFF`, and `Firmware.Delay` states both facts.

The comment at the top of `src/main.c` says the program sends "STM32 UART OK". The code
sends `"hellokitty\r\n"` (line 93), and that is what the model sends.

## Model

| member | source | states |
|---|---|---|
| Registers.TxeSetIsBit7 | src/main.c:33 | the TXE test on an SR value is exactly `SR & (1 << 7) != 0` on the 32-bit register |
| BaudRate.Mantissa | src/main.c:80-81 | the mantissa is the integer part of clock / (16 × baud): 16 × baud × mantissa ≤ clock < 16 × baud × (mantissa + 1) |
| BaudRate.Fraction | src/main.c:82 | the fraction, the remainder in sixteenths rounded to the nearest, lies between 0 and 16 |
| BaudRate.PackBrr | src/main.c:79-84 | packing a mantissa below 2^12 and a fraction below 2^4 by shifting the mantissa left 4 bits and OR-ing in the fraction gives a 16-bit value; both fields can be read back unchanged |
| BaudRate.DivisorIsNearest | src/main.c:79-83 | 16 × mantissa + rounded fraction is the integer nearest to clock / baud (half rounds up); the rounded fraction is at most 16, so it can overflow its 4-bit field |
| BaudRate.Reference9600 | src/main.c:79-84 | for 8 MHz and 9600 baud the mantissa is 52 and the fraction 1; packed they give the BRR constant 0x341, which is 16 × 52 + 1 |
| CStrings.UntilNul | src/main.c:43-47 | the bytes `while (*str)` visits are a prefix of the string and contain no NUL; the byte after them is a NUL; they stop before the end whenever the string holds a NUL |
| CStrings.LiteralUntilNul | src/main.c:93 | walking a literal without an embedded NUL visits exactly its characters |
| Polling.FirstReady | src/main.c:33 | the poll stops at the first SR value with TXE set: no earlier value has TXE, and the value at the stop has it (or there is none) |
| Polling.ReadyAfterPoll | src/main.c:33 | a poll finds TXE exactly when some coming SR value has it; one poll uses up exactly one TXE value |
| Polling.StatusReadsWriteNothing | src/main.c:33 | the polling reads alone write nothing to DR |
| Polling.CharAccessesWrite | src/main.c:30-37 | one uart_send_char(c) writes exactly `c` to DR when TXE shows, and nothing when it never shows |
| Polling.CharAccessesHandshake | src/main.c:30-37 | in one uart_send_char the DR write comes right after the SR read that showed TXE; every SR read that showed TXE is followed by the write; the accesses start with an SR read |
| Polling.TransmissionOne | src/main.c:43-47 | sending a one-byte string is one uart_send_char, and it leaves the SR values after that one poll |
| Polling.ReadyLeftAfter | src/main.c:43-47 | sending n bytes uses up min(n, available) TXE values |
| Polling.TransmissionWrites | src/main.c:43-47 | sending bytes one by one writes them to DR in order, as many of them as there are TXE values: all when TXE shows often enough, a prefix otherwise |
| Polling.TransmissionHandshake | src/main.c:43-47 | any number of uart_send_char calls in a row keep the TXE handshake: nothing is written to DR unless the read just before it showed TXE |
| Polling.TransmissionAppend | src/main.c:43-47 | sending `a` and then `b` is sending `a + b`, both for the accesses and for the SR values left over |
| Firmware.MessageCodes | src/main.c:93 | "hellokitty\r\n" is ASCII without a NUL, and its bytes are 68 65 6C 6C 6F 6B 69 74 74 79 0D 0A |
| Firmware.MessageBytes | src/main.c:93 | "hellokitty\r\n" is ASCII without a NUL; its bytes are 68 65 6C 6C 6F 6B 69 74 74 79 0D 0A; uart_send_string visits exactly these bytes |
| Firmware.Delay | src/main.c:53-55 | `while (count--);` runs its empty body `count` times and leaves the counter wrapped to 0xFFFFFFFF; it has no register in its frame |
| Firmware.SendsAB | src/main.c:30-47 | uart_send_string("AB") against SR values 0x00, 0x80, 0x80 makes two poll/write cycles: read, read (TXE), write 'A', read (TXE), write 'B' |
| Firmware.FirstCycleOfAB | src/main.c:30-37 | the two uart_send_char cycles of SendsAB one at a time: 'A' after two polls, 'B' after one |
| Firmware.SendCharKeepsHandshake | src/main.c:30-37 | appending one uart_send_char to a log that keeps the handshake keeps it, and adds `c` to the DR writes exactly when TXE shows |
| Firmware.SendStep | src/main.c:43-47 | sending byte i after bytes 0 to i-1 yields the accesses and leftover SR values of sending bytes 0 to i |
| Firmware.RepeatStep | src/main.c:92-96 | loop pass k+1 carries on from where k passes left the SR values; the log is that of sending the message k+1 times |
| Firmware.RepeatWrites | src/main.c:92-96 | after n loop passes the DR writes are the message repeated n times, cut at the number of TXE values seen |
| Firmware.RegisterFile.constructor | src/main.c:10-22 | a register file with the given register values and coming SR values and an empty, handshake-keeping access log |
| Firmware.RegisterFile.EnableClocks | src/main.c:63 | after OR-ing the IOPAEN, USART1EN and AFIOEN masks into RCC_APB2ENR, bits 0, 2 and 14 are set and every other bit is unchanged; on a register that already has them it changes nothing |
| Firmware.RegisterFile.ConfigureTxPin | src/main.c:68-73 | after the clear-then-set of PA9's group, bits 4..7 of GPIOA_CRH hold 0xB and every other bit is unchanged; on a pin already configured it changes nothing |
| Registers.Pa9FieldValue | src/main.c:68-73 | a GPIOA_CRH value whose PA9 group holds the alternate-function push-pull pattern reads back 0xB from bits 4..7 |
| Firmware.RegisterFile.DisableUsart | src/main.c:77 | UE is clear afterwards and every other CR1 bit is unchanged |
| Firmware.RegisterFile.WriteBaudRate | src/main.c:84 | BRR takes the written value; the write is only allowed while UE is clear |
| Firmware.RegisterFile.EnableTransmitter | src/main.c:89 | TE and UE are set afterwards and every other CR1 bit is unchanged |
| Firmware.RegisterFile.SetupUsart | src/main.c:76-89 | BRR is written while UE is clear; afterwards BRR is 0x341, TE and UE are set, and the other CR1 bits are unchanged |
| Firmware.RegisterFile.Init | src/main.c:58-89 | after the bring-up the clocks are on, PA9 is configured, BRR is 0x341, and TE and UE are set; every bit outside those fields keeps its value |
| Firmware.RegisterFile.ReadStatus | src/main.c:33 | a read of USART1_SR returns the next value the hardware shows and logs the read |
| Firmware.RegisterFile.WriteData | src/main.c:36 | a write of a byte to USART1_DR is logged; it is only allowed while TE is set |
| Firmware.RegisterFile.WaitForTxe | src/main.c:33 | the busy-wait reads SR up to and including the first value with TXE, and reports whether it found one |
| Firmware.RegisterFile.SendChar | src/main.c:30-37 | uart_send_char, run while TE is set, keeps the handshake and adds exactly its polls and the write of `c` to the log; `c` is added to the DR writes exactly when TXE shows |
| Firmware.RegisterFile.SendString | src/main.c:43-47 | uart_send_string sends the bytes before the first NUL, in order, one uart_send_char each, and keeps the handshake; the DR writes grow by those bytes, as many as TXE values allow |
| Firmware.RegisterFile.LoopIteration | src/main.c:92-96 | one loop pass sends exactly the bytes of "hellokitty\r\n" (as TXE values allow) and keeps the handshake; the delay touches no register |
| Firmware.RegisterFile.Loop | src/main.c:92-96 | n loop passes, run while TE is set, send the message n times over, in order, as TXE values allow, and keep the handshake; the SR values left are those after sending the repeated message |
| Firmware.RegisterFile.Run | src/main.c:58-96 | main leaves the peripherals configured with every bit outside the configured fields unchanged, sends only after TE is set, keeps the handshake, and its DR writes are the message repeated, as TXE values allow; the SR values left are those after sending the repeated message |

## Left out

- Volatile accesses at fixed addresses: the registers are fields of one object, and each read or write is one method call.
- The endless `while (1)` loop: `Firmware.RegisterFile.Loop` and `Run` stop after a given number of passes.
- The unbounded TXE busy-wait: the SR values are a finite sequence, so a transmitter that never sets TXE shows up as all values read and nothing written.
- The wall-clock meaning of `delay`: the model counts loop passes; CPU speed and timing are not modelled.
- Register bits the hardware itself changes, and the serial frame on the TX pin (start, data, stop bits): the model stops at the writes to `USART1_DR`.
- The signedness of `char` in `USART1_DR = c`: the model writes bytes 0 to 255, which is what the store carries where plain `char` is unsigned, as in the ARM EABI this Cortex-M3 firmware is built for; a compiler with a signed `char` would sign-extend bytes above 0x7F, which the model does not cover.
- The real-number divisor and its rounding are stated in integers (`BaudRate.DivisorIsNearest`).
- The ordering requirement that the clocks be on before the pin and the USART are configured is kept only as the order of calls in `Init`; the clock's effect on the other registers is not modelled.
