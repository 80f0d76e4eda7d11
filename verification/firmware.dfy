/**
 * src/main.c over a simulated register file: peripheral bring-up (main, lines 58-89),
 * uart_send_char, uart_send_string, delay, and the body of the endless loop.
 *
 * The registers are fields of one RegisterFile object instead of volatile pointers at
 * fixed addresses. USART1_SR is the sequence of values the hardware will show on the
 * coming reads, and every SR read and DR write is appended to an access log, from
 * which the DR write log (TxLog) is read off.
 */
module Firmware {
  import opened Registers
  import opened Polling
  import opened CStrings

  /** The text the endless loop sends (src/main.c:93). */
  const MESSAGE: string := "hellokitty\r\n"

  /** The number of spins passed to delay, about one second at 8 MHz (src/main.c:95). */
  const ONE_SECOND: word := 800000

  /** The message is plain ASCII without a NUL, so the literal carries it followed by one NUL. */
  lemma MessageBytes()
    ensures IsAscii(MESSAGE) && '\0' !in MESSAGE
    ensures Ascii(MESSAGE) == [0x68, 0x65, 0x6C, 0x6C, 0x6F, 0x6B, 0x69, 0x74, 0x74, 0x79, 0x0D, 0x0A]
    ensures UntilNul(Literal(MESSAGE)) == Ascii(MESSAGE)
  {
    MessageCodes();
    LiteralUntilNul(MESSAGE);
  }

  /** The character codes of the message, one by one. */
  lemma MessageCodes()
    ensures IsAscii(MESSAGE) && '\0' !in MESSAGE
    ensures Ascii(MESSAGE) == [0x68, 0x65, 0x6C, 0x6C, 0x6F, 0x6B, 0x69, 0x74, 0x74, 0x79, 0x0D, 0x0A]
  {
  }

  /**
   * `delay(count)`: `while (count--);` on an unsigned 32-bit count. The empty body runs
   * `count` times; the post-decrement runs once more, on the final test that sees 0,
   * and wraps the variable to 0xFFFFFFFF. No register is touched.
   */
  method Delay(count: word) returns (spins: nat, final: word)
    ensures spins == count
    ensures final == 0xFFFF_FFFF
  {
    spins := 0;
    var c := count;
    var tested := c;
    c := if c == 0 then 0xFFFF_FFFF else c - 1;
    while tested != 0
      invariant spins + tested == count
      invariant c == if tested == 0 then 0xFFFF_FFFF else tested - 1
      decreases tested
    {
      spins := spins + 1;
      tested := c;
      c := if c == 0 then 0xFFFF_FFFF else c - 1;
    }
    final := c;
  }

  /** The registers src/main.c touches, with the USART1 traffic of the transmit routines. */
  class RegisterFile {
    var rccApb2enr: bv32
    var gpioaCrh: bv32
    var usart1Cr1: bv32
    var usart1Brr: bv32
    /** The values USART1_SR shows on the coming reads, in order. */
    var srReadings: seq<word>
    /** Every read of USART1_SR and write of USART1_DR so far, in order. */
    var accesses: seq<Access>

    /** A register file in any state, with the SR values the hardware is going to show. */
    constructor (rcc: bv32, crh: bv32, cr1: bv32, brr: bv32, readings: seq<word>)
      ensures rccApb2enr == rcc && gpioaCrh == crh && usart1Cr1 == cr1 && usart1Brr == brr
      ensures srReadings == readings && accesses == []
      ensures Valid()
    {
      rccApb2enr, gpioaCrh, usart1Cr1, usart1Brr := rcc, crh, cr1, brr;
      srReadings, accesses := readings, [];
    }

    /** The USART1 traffic so far keeps the TXE handshake. */
    predicate Valid()
      reads this
    {
      Handshake(accesses)
    }

    /** The bytes written to USART1_DR so far, in order. */
    function TxLog(): seq<byte>
      reads this
    {
      Written(accesses)
    }

    /** The state the initialisation of main leaves behind and the endless loop relies on. */
    predicate Configured()
      reads this
    {
      && rccApb2enr & APB2_CLOCKS == APB2_CLOCKS
      && gpioaCrh & PA9_FIELD == PA9_AF_PUSH_PULL
      && usart1Brr == BRR_9600
      && usart1Cr1 & (TE | UE) == TE | UE
    }

    /** `RCC_APB2ENR |= (1 << 2) | (1 << 14) | (1 << 0)` (src/main.c:63). */
    method EnableClocks()
      modifies this`rccApb2enr
      ensures rccApb2enr & APB2_CLOCKS == APB2_CLOCKS
      ensures rccApb2enr & !APB2_CLOCKS == old(rccApb2enr) & !APB2_CLOCKS
      ensures old(rccApb2enr) & APB2_CLOCKS == APB2_CLOCKS ==> rccApb2enr == old(rccApb2enr)
    {
      SetIdempotent(rccApb2enr, APB2_CLOCKS);
      rccApb2enr := rccApb2enr | APB2_CLOCKS;
    }

    /**
     * PA9 as alternate-function push-pull output, 50 MHz (src/main.c:68-73): clear the
     * pin's 4-bit group, then OR in 1011b. Running it on a configured pin changes nothing.
     */
    method ConfigureTxPin()
      modifies this`gpioaCrh
      ensures gpioaCrh & PA9_FIELD == PA9_AF_PUSH_PULL
      ensures gpioaCrh & !PA9_FIELD == old(gpioaCrh) & !PA9_FIELD
      ensures old(gpioaCrh) & PA9_FIELD == PA9_AF_PUSH_PULL ==> gpioaCrh == old(gpioaCrh)
    {
      gpioaCrh := gpioaCrh & !PA9_FIELD;
      gpioaCrh := gpioaCrh | PA9_AF_PUSH_PULL;
    }

    /** `USART1_CR1 &= ~(1 << 13)`: clear UE, keep every other CR1 bit (src/main.c:77). */
    method DisableUsart()
      modifies this`usart1Cr1
      ensures usart1Cr1 & UE == 0
      ensures usart1Cr1 & !UE == old(usart1Cr1) & !UE
    {
      usart1Cr1 := usart1Cr1 & !UE;
    }

    /** A write to USART1_BRR, which the hardware accepts only while UE is clear (src/main.c:84). */
    method WriteBaudRate(brr: bv32)
      requires usart1Cr1 & UE == 0
      modifies this`usart1Brr
      ensures usart1Brr == brr
    {
      usart1Brr := brr;
    }

    /** `USART1_CR1 |= (1 << 3) | (1 << 13)`: set TE and UE, keep every other bit (src/main.c:89). */
    method EnableTransmitter()
      modifies this`usart1Cr1
      ensures usart1Cr1 & (TE | UE) == TE | UE
      ensures usart1Cr1 & !(TE | UE) == old(usart1Cr1) & !(TE | UE)
    {
      usart1Cr1 := usart1Cr1 | TE | UE;
    }

    /**
     * The USART1 set-up of main (src/main.c:76-89): disable, program 0x341 into BRR
     * while disabled, then enable the transmitter and the USART.
     */
    method SetupUsart()
      modifies this`usart1Cr1, this`usart1Brr
      ensures usart1Brr == BRR_9600
      ensures usart1Cr1 & (TE | UE) == TE | UE
      ensures usart1Cr1 & !(TE | UE) == old(usart1Cr1) & !(TE | UE)
    {
      DisableUsart();
      WriteBaudRate(BRR_9600);
      EnableTransmitter();
    }

    /** The initialisation of main (src/main.c:58-89), in its order. */
    method Init()
      modifies this`rccApb2enr, this`gpioaCrh, this`usart1Cr1, this`usart1Brr
      ensures Configured()
      ensures rccApb2enr & !APB2_CLOCKS == old(rccApb2enr) & !APB2_CLOCKS
      ensures gpioaCrh & !PA9_FIELD == old(gpioaCrh) & !PA9_FIELD
      ensures usart1Cr1 & !(TE | UE) == old(usart1Cr1) & !(TE | UE)
    {
      EnableClocks();
      ConfigureTxPin();
      SetupUsart();
    }

    /** One read of USART1_SR: the hardware shows its next value. */
    method ReadStatus() returns (sr: word)
      requires srReadings != []
      modifies this`srReadings, this`accesses
      ensures sr == old(srReadings)[0]
      ensures srReadings == old(srReadings)[1..]
      ensures accesses == old(accesses) + [StatusRead(sr)]
    {
      sr := srReadings[0];
      srReadings := srReadings[1..];
      accesses := accesses + [StatusRead(sr)];
    }

    /** One write of a byte to USART1_DR. */
    method WriteData(c: byte)
      requires usart1Cr1 & TE != 0
      modifies this`accesses
      ensures accesses == old(accesses) + [DataWrite(c)]
    {
      accesses := accesses + [DataWrite(c)];
    }

    /**
     * `while (!(USART1_SR & (1 << 7)));` (src/main.c:33): read SR until a reading shows
     * TXE. When no coming reading does, every one of them is read and `ready` is false.
     */
    method WaitForTxe() returns (ready: bool)
      modifies this`srReadings, this`accesses
      ensures ready == (FirstReady(old(srReadings)) < |old(srReadings)|)
      ensures accesses == old(accesses) + StatusReads(old(srReadings)[..PollLength(old(srReadings))])
      ensures srReadings == old(srReadings)[PollLength(old(srReadings))..]
    {
      ghost var rs := srReadings;
      ready := false;
      var n := 0;
      while !ready && srReadings != []
        invariant n <= |rs| && srReadings == rs[n..]
        invariant accesses == old(accesses) + StatusReads(rs[..n])
        invariant ready ==> n == FirstReady(rs) + 1
        invariant !ready ==> n <= FirstReady(rs)
        decreases |srReadings|
      {
        var sr := ReadStatus();
        assert rs[..n + 1] == rs[..n] + [sr];
        n, ready := n + 1, TxeSet(sr);
      }
    }

    /**
     * `uart_send_char(c)` (src/main.c:30-37): wait for TXE, then write `c` to DR.
     * When no coming reading has TXE the wait uses them all and nothing is written.
     */
    method SendChar(c: byte)
      requires usart1Cr1 & TE != 0
      requires Valid()
      modifies this`srReadings, this`accesses
      ensures Valid()
      ensures accesses == old(accesses) + CharAccesses(old(srReadings), c)
      ensures srReadings == old(srReadings)[PollLength(old(srReadings))..]
      ensures TxLog() == old(TxLog()) + if CountReady(old(srReadings)) > 0 then [c] else []
    {
      ghost var log, rs := accesses, srReadings;
      SendCharKeepsHandshake(log, rs, c);
      var ready := WaitForTxe();
      if ready {
        WriteData(c);
      }
      assert accesses == log + CharAccesses(rs, c);
    }

    /**
     * `uart_send_string(str)` (src/main.c:43-47): send the bytes before the first NUL,
     * in order, each with its own TXE wait. The NUL and what follows it are never sent.
     */
    method SendString(s: seq<byte>)
      requires 0 in s
      requires usart1Cr1 & TE != 0
      requires Valid()
      modifies this`srReadings, this`accesses
      ensures Valid()
      ensures accesses == old(accesses) + Transmission(old(srReadings), UntilNul(s))
      ensures srReadings == ReadingsAfter(old(srReadings), UntilNul(s))
      ensures TxLog() == old(TxLog()) + UntilNul(s)[..Min(|UntilNul(s)|, CountReady(old(srReadings)))]
    {
      ghost var rs := srReadings;
      ghost var text := UntilNul(s);
      var i := 0;
      while s[i] != 0
        invariant i <= |text|
        invariant accesses == old(accesses) + Transmission(rs, s[..i])
        invariant srReadings == ReadingsAfter(rs, s[..i])
        invariant Valid()
        decreases |s| - i
      {
        assert i < |text|;
        ghost var before := accesses;
        SendChar(s[i]);
        SendStep(old(accesses), before, accesses, rs, s, i);
        i := i + 1;
      }
      assert s[..i] == text;
      TransmissionWrites(rs, text);
      WrittenAppend(old(accesses), Transmission(rs, text));
    }

    /**
     * One pass of the endless loop (src/main.c:92-96): send "hellokitty\r\n", then
     * delay. The registers configured by the initialisation stay as they are.
     */
    method LoopIteration()
      requires usart1Cr1 & TE != 0
      requires Valid()
      modifies this`srReadings, this`accesses
      ensures Valid()
      ensures accesses == old(accesses) + Transmission(old(srReadings), Ascii(MESSAGE))
      ensures srReadings == ReadingsAfter(old(srReadings), Ascii(MESSAGE))
      ensures TxLog() == old(TxLog()) + Ascii(MESSAGE)[..Min(12, CountReady(old(srReadings)))]
    {
      MessageBytes();
      SendString(Literal(MESSAGE));
      var _, _ := Delay(ONE_SECOND);
    }

    /**
     * The endless loop of main (src/main.c:92-96) cut off after `iterations` passes:
     * the message `iterations` times, as far as TXE readings last.
     */
    method Loop(iterations: nat)
      requires usart1Cr1 & TE != 0
      requires Valid()
      modifies this`srReadings, this`accesses
      ensures Valid()
      ensures accesses == old(accesses) + Transmission(old(srReadings), Repeat(Ascii(MESSAGE), iterations))
      ensures srReadings == ReadingsAfter(old(srReadings), Repeat(Ascii(MESSAGE), iterations))
      ensures TxLog() == old(TxLog()) + Repeat(Ascii(MESSAGE), iterations)[..Min(12 * iterations, CountReady(old(srReadings)))]
    {
      ghost var rs := srReadings;
      ghost var message := Ascii(MESSAGE);
      ghost var done: seq<byte> := [];
      var k := 0;
      while k < iterations
        invariant k <= iterations && Valid()
        invariant done == Repeat(message, k)
        invariant accesses == old(accesses) + Transmission(rs, done)
        invariant srReadings == ReadingsAfter(rs, done)
      {
        ghost var before := accesses;
        LoopIteration();
        RepeatStep(old(accesses), before, accesses, rs, message, k);
        done, k := Repeat(message, k + 1), k + 1;
      }
      RepeatWrites(old(accesses), rs, iterations);
    }

    /** main (src/main.c:58-96) with its endless loop cut off after `iterations` passes. */
    method Run(iterations: nat)
      requires Valid()
      modifies this
      ensures Valid() && Configured()
      ensures rccApb2enr & !APB2_CLOCKS == old(rccApb2enr) & !APB2_CLOCKS
      ensures gpioaCrh & !PA9_FIELD == old(gpioaCrh) & !PA9_FIELD
      ensures usart1Cr1 & !(TE | UE) == old(usart1Cr1) & !(TE | UE)
      ensures accesses == old(accesses) + Transmission(old(srReadings), Repeat(Ascii(MESSAGE), iterations))
      ensures srReadings == ReadingsAfter(old(srReadings), Repeat(Ascii(MESSAGE), iterations))
      ensures TxLog() == old(TxLog()) + Repeat(Ascii(MESSAGE), iterations)[..Min(12 * iterations, CountReady(old(srReadings)))]
    {
      Init();
      Loop(iterations);
    }
  }

  /** `message` repeated `n` times. */
  function Repeat(message: seq<byte>, n: nat): (r: seq<byte>)
    ensures |r| == n * |message|
  {
    if n == 0 then [] else Repeat(message, n - 1) + message
  }

  /**
   * Pass k + 1 of the loop carries on from where the first k passes left the SR
   * readings, so the log after it is the log of sending the message k + 1 times.
   */
  lemma RepeatStep(log: seq<Access>, before: seq<Access>, after: seq<Access>, rs: seq<word>, message: seq<byte>, k: nat)
    requires before == log + Transmission(rs, Repeat(message, k))
    requires after == before + Transmission(ReadingsAfter(rs, Repeat(message, k)), message)
    ensures after == log + Transmission(rs, Repeat(message, k + 1))
    ensures ReadingsAfter(rs, Repeat(message, k + 1)) == ReadingsAfter(ReadingsAfter(rs, Repeat(message, k)), message)
  {
    var done := Repeat(message, k);
    TransmissionAppend(rs, done, message);
    Associative(log, Transmission(rs, done), Transmission(ReadingsAfter(rs, done), message));
  }

  /**
   * Sending byte i of `s` after bytes 0 to i - 1 carries on from where those left the SR
   * readings, so the log after it is the log of sending bytes 0 to i.
   */
  lemma SendStep(log: seq<Access>, before: seq<Access>, after: seq<Access>, rs: seq<word>, s: seq<byte>, i: nat)
    requires i < |s|
    requires before == log + Transmission(rs, s[..i])
    requires after == before + CharAccesses(ReadingsAfter(rs, s[..i]), s[i])
    ensures after == log + Transmission(rs, s[..i + 1])
    ensures ReadingsAfter(rs, s[..i + 1]) == ReadingsAfter(rs, s[..i])[PollLength(ReadingsAfter(rs, s[..i]))..]
  {
    var sent, rest := s[..i], ReadingsAfter(rs, s[..i]);
    assert s[..i + 1] == sent + [s[i]];
    TransmissionAppend(rs, sent, [s[i]]);
    TransmissionOne(rest, s[i]);
    Associative(log, Transmission(rs, sent), CharAccesses(rest, s[i]));
  }

  /** uart_send_string("AB") against SR readings 0x00, 0x80, 0x80: two poll/write cycles, 'A' then 'B'. */
  lemma SendsAB()
    ensures UntilNul(Literal("AB")) == [0x41, 0x42]
    ensures Transmission([0x00, 0x80, 0x80], [0x41, 0x42])
      == [StatusRead(0x00), StatusRead(0x80), DataWrite(0x41), StatusRead(0x80), DataWrite(0x42)]
  {
    LiteralUntilNul("AB");
    var rs: seq<word> := [0x00, 0x80, 0x80];
    FirstCycleOfAB();
    TransmissionOne(rs[2..], 0x42);
    assert [0x41, 0x42][1..] == [0x42];
  }

  /** The cycles of SendsAB one at a time: 'A' after two polls, 'B' after one. */
  lemma FirstCycleOfAB()
    ensures PollLength([0x00, 0x80, 0x80]) == 2
    ensures CharAccesses([0x00, 0x80, 0x80], 0x41) == [StatusRead(0x00), StatusRead(0x80), DataWrite(0x41)]
    ensures CharAccesses([0x80], 0x42) == [StatusRead(0x80), DataWrite(0x42)]
  {
    var rs: seq<word> := [0x00, 0x80, 0x80];
    assert FirstReady(rs) == 1;
    assert FirstReady([0x80]) == 0;
  }

  /** What `n` passes of the loop add to the DR write log. */
  lemma RepeatWrites(log: seq<Access>, rs: seq<word>, n: nat)
    ensures Written(log + Transmission(rs, Repeat(Ascii(MESSAGE), n)))
      == Written(log) + Repeat(Ascii(MESSAGE), n)[..Min(12 * n, CountReady(rs))]
  {
    MessageBytes();
    TransmissionWrites(rs, Repeat(Ascii(MESSAGE), n));
    WrittenAppend(log, Transmission(rs, Repeat(Ascii(MESSAGE), n)));
  }

  /**
   * Appending the accesses of one uart_send_char to a log that keeps the handshake
   * keeps it, and adds `c` to the DR write log exactly when TXE shows.
   */
  lemma SendCharKeepsHandshake(log: seq<Access>, rs: seq<word>, c: byte)
    requires Handshake(log)
    ensures Handshake(log + CharAccesses(rs, c))
    ensures Written(log + CharAccesses(rs, c)) == Written(log) + if CountReady(rs) > 0 then [c] else []
  {
    CharAccessesHandshake(rs, c);
    HandshakeAppend(log, CharAccesses(rs, c));
    CharAccessesWrite(rs, c);
    WrittenAppend(log, CharAccesses(rs, c));
  }
}
