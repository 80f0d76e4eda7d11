/**
 * The transmit handshake of uart_send_char and uart_send_string (src/main.c:30-47),
 * stated over the values USART1_SR shows on successive reads.
 *
 * uart_send_char re-reads SR until TXE (bit 7) is set and then writes its byte to DR.
 * On hardware the wait is unbounded; here the readings are a finite sequence, and
 * when none of them has TXE set the poll consumes them all and writes nothing,
 * which is what a routine stuck in the busy-wait shows to the outside.
 */
module Polling {
  import opened Registers

  /** One access of the transmit routines to USART1, in program order. */
  datatype Access = StatusRead(sr: word) | DataWrite(data: byte)

  function Min(a: nat, b: nat): nat
  {
    if a <= b then a else b
  }

  /** The accesses made by reading the values `rs` from SR, one after another. */
  function StatusReads(rs: seq<word>): seq<Access>
  {
    seq(|rs|, i requires 0 <= i < |rs| => StatusRead(rs[i]))
  }

  /** The bytes written to DR by a sequence of accesses, in order. */
  function Written(t: seq<Access>): seq<byte>
  {
    if t == [] then []
    else (if t[0].DataWrite? then [t[0].data] else []) + Written(t[1..])
  }

  /** Index of the first reading with TXE set; |rs| when no reading has it. */
  function FirstReady(rs: seq<word>): (k: nat)
    ensures k <= |rs|
    ensures forall i :: 0 <= i < k ==> !TxeSet(rs[i])
    ensures k < |rs| ==> TxeSet(rs[k])
  {
    if rs == [] then 0
    else if TxeSet(rs[0]) then 0
    else 1 + FirstReady(rs[1..])
  }

  /** How many readings one TXE busy-wait consumes. */
  function PollLength(rs: seq<word>): nat
  {
    if FirstReady(rs) < |rs| then FirstReady(rs) + 1 else |rs|
  }

  /** How many of the readings have TXE set. */
  function CountReady(rs: seq<word>): nat
  {
    if rs == [] then 0
    else (if TxeSet(rs[0]) then 1 else 0) + CountReady(rs[1..])
  }

  /** The accesses of uart_send_char(c): poll SR until TXE, then one write of `c` to DR. */
  function CharAccesses(rs: seq<word>, c: byte): seq<Access>
  {
    StatusReads(rs[..PollLength(rs)]) + if FirstReady(rs) < |rs| then [DataWrite(c)] else []
  }

  /** The SR readings still to come after sending `bytes` one by one. */
  function ReadingsAfter(rs: seq<word>, bytes: seq<byte>): (rest: seq<word>)
    ensures |rest| <= |rs|
  {
    if bytes == [] then rs
    else ReadingsAfter(rs[PollLength(rs)..], bytes[1..])
  }

  /** The accesses of sending `bytes` one by one, each with its own TXE busy-wait. */
  function Transmission(rs: seq<word>, bytes: seq<byte>): seq<Access>
  {
    if bytes == [] then []
    else CharAccesses(rs, bytes[0]) + Transmission(rs[PollLength(rs)..], bytes[1..])
  }

  /**
   * The handshake the transmit routines keep: every DR write comes right after an SR
   * read that showed TXE set, and every SR read that showed TXE set is followed right
   * away by a DR write. In particular nothing is written while TXE reads 0.
   */
  predicate Handshake(t: seq<Access>)
  {
    && (forall i :: 0 <= i < |t| && t[i].DataWrite? ==>
          0 < i && t[i - 1].StatusRead? && TxeSet(t[i - 1].sr))
    && (forall i :: 0 <= i < |t| && t[i].StatusRead? && TxeSet(t[i].sr) ==>
          i + 1 < |t| && t[i + 1].DataWrite?)
  }

  /** A reading with TXE exists exactly when the count is positive; one poll uses one up. */
  lemma {:induction false} ReadyAfterPoll(rs: seq<word>)
    ensures (FirstReady(rs) < |rs|) == (CountReady(rs) > 0)
    ensures CountReady(rs[PollLength(rs)..]) == if CountReady(rs) > 0 then CountReady(rs) - 1 else 0
  {
    if rs != [] && !TxeSet(rs[0]) {
      ReadyAfterPoll(rs[1..]);
      assert rs[PollLength(rs)..] == rs[1..][PollLength(rs[1..])..];
    }
  }

  lemma {:induction false} WrittenAppend(a: seq<Access>, b: seq<Access>)
    ensures Written(a + b) == Written(a) + Written(b)
  {
    if a == [] {
      assert a + b == b;
    } else {
      WrittenAppend(a[1..], b);
      assert (a + b)[1..] == a[1..] + b;
      assert (a + b)[0] == a[0];
    }
  }

  /** Polling alone writes nothing. */
  lemma {:induction false} StatusReadsWriteNothing(rs: seq<word>)
    ensures Written(StatusReads(rs)) == []
  {
    if rs != [] {
      assert StatusReads(rs)[1..] == StatusReads(rs[1..]);
      StatusReadsWriteNothing(rs[1..]);
    }
  }

  /**
   * uart_send_char(c) writes exactly one byte, `c`, when some reading shows TXE,
   * and writes nothing when TXE never shows.
   */
  lemma CharAccessesWrite(rs: seq<word>, c: byte)
    ensures Written(CharAccesses(rs, c)) == if CountReady(rs) > 0 then [c] else []
  {
    ReadyAfterPoll(rs);
    var polls := StatusReads(rs[..PollLength(rs)]);
    StatusReadsWriteNothing(rs[..PollLength(rs)]);
    if FirstReady(rs) < |rs| {
      WrittenAppend(polls, [DataWrite(c)]);
    } else {
      assert CharAccesses(rs, c) == polls;
    }
  }

  /**
   * One uart_send_char keeps the handshake: the reads before the first TXE reading
   * are not followed by a write, the TXE reading is, and the access list starts with
   * a read whenever it is not empty.
   */
  lemma CharAccessesHandshake(rs: seq<word>, c: byte)
    ensures Handshake(CharAccesses(rs, c))
    ensures CharAccesses(rs, c) != [] ==> CharAccesses(rs, c)[0].StatusRead?
  {
    var t := CharAccesses(rs, c);
    var k := FirstReady(rs);
    var n := PollLength(rs);
    assert forall i :: 0 <= i < n ==> t[i] == StatusRead(rs[i]);
    assert k < |rs| ==> |t| == n + 1 && t[n] == DataWrite(c);
    assert k == |rs| ==> |t| == n;
  }

  lemma HandshakeAppend(a: seq<Access>, b: seq<Access>)
    requires Handshake(a) && Handshake(b)
    requires b != [] ==> b[0].StatusRead?
    ensures Handshake(a + b)
  {
    var t := a + b;
    forall i | 0 <= i < |t| && t[i].DataWrite?
      ensures 0 < i && t[i - 1].StatusRead? && TxeSet(t[i - 1].sr)
    {
      if i >= |a| {
        assert t[i] == b[i - |a|];
      }
    }
    forall i | 0 <= i < |t| && t[i].StatusRead? && TxeSet(t[i].sr)
      ensures i + 1 < |t| && t[i + 1].DataWrite?
    {
      if i >= |a| {
        assert t[i] == b[i - |a|];
      }
    }
  }

  /** Sending `bytes` one by one uses up one TXE reading per byte, while there are any. */
  lemma {:induction false} ReadyLeftAfter(rs: seq<word>, bytes: seq<byte>)
    ensures CountReady(ReadingsAfter(rs, bytes)) == CountReady(rs) - Min(|bytes|, CountReady(rs))
  {
    if bytes != [] {
      ReadyAfterPoll(rs);
      ReadyLeftAfter(rs[PollLength(rs)..], bytes[1..]);
    }
  }

  /** Sending a first byte adds it to the DR writes when TXE shows, then the rest follows. */
  lemma WrittenFirst(rs: seq<word>, bytes: seq<byte>)
    requires bytes != []
    ensures Written(Transmission(rs, bytes))
      == (if CountReady(rs) > 0 then [bytes[0]] else []) + Written(Transmission(rs[PollLength(rs)..], bytes[1..]))
  {
    CharAccessesWrite(rs, bytes[0]);
    WrittenAppend(CharAccesses(rs, bytes[0]), Transmission(rs[PollLength(rs)..], bytes[1..]));
  }

  /**
   * Sending bytes one by one writes them to DR in order, as many of them as there are
   * TXE readings: all of them when TXE shows often enough, none when it never shows.
   */
  lemma {:induction false} TransmissionWrites(rs: seq<word>, bytes: seq<byte>)
    ensures Written(Transmission(rs, bytes)) == bytes[..Min(|bytes|, CountReady(rs))]
  {
    if bytes != [] {
      var rest, tail := rs[PollLength(rs)..], bytes[1..];
      TransmissionWrites(rest, tail);
      WrittenFirst(rs, bytes);
      ReadyAfterPoll(rs);
      PrefixOfTail(bytes, Min(|tail|, CountReady(rest)));
    }
  }

  /** Taking the first byte and then n bytes of the tail is taking n + 1 bytes. */
  lemma PrefixOfTail(bytes: seq<byte>, n: nat)
    requires n < |bytes|
    ensures [bytes[0]] + bytes[1..][..n] == bytes[..n + 1]
  {
    assert forall i :: 0 <= i <= n ==> ([bytes[0]] + bytes[1..][..n])[i] == bytes[i];
  }

  /** Any number of uart_send_char calls in a row keep the handshake. */
  lemma {:induction false} TransmissionHandshake(rs: seq<word>, bytes: seq<byte>)
    ensures Handshake(Transmission(rs, bytes))
    ensures Transmission(rs, bytes) != [] ==> Transmission(rs, bytes)[0].StatusRead?
  {
    if bytes != [] {
      var rest := rs[PollLength(rs)..];
      TransmissionHandshake(rest, bytes[1..]);
      CharAccessesHandshake(rs, bytes[0]);
      HandshakeAppend(CharAccesses(rs, bytes[0]), Transmission(rest, bytes[1..]));
    }
  }

  /**
   * Concatenation is associative. Stated on plain sequences, it spares the step lemmas
   * from deriving it through the Transmission terms they concatenate.
   */
  lemma Associative<T>(a: seq<T>, b: seq<T>, c: seq<T>)
    ensures (a + b) + c == a + (b + c)
  {
  }

  /** Sending a single byte is one uart_send_char. */
  lemma TransmissionOne(rs: seq<word>, c: byte)
    ensures Transmission(rs, [c]) == CharAccesses(rs, c)
    ensures ReadingsAfter(rs, [c]) == rs[PollLength(rs)..]
  {
    assert [c][1..] == [];
  }

  /** Sending `a` and then `b` is sending `a + b`. */
  lemma {:induction false} TransmissionAppend(rs: seq<word>, a: seq<byte>, b: seq<byte>)
    ensures ReadingsAfter(rs, a + b) == ReadingsAfter(ReadingsAfter(rs, a), b)
    ensures Transmission(rs, a + b) == Transmission(rs, a) + Transmission(ReadingsAfter(rs, a), b)
  {
    if a == [] {
      assert a + b == b;
    } else {
      var rest := rs[PollLength(rs)..];
      assert (a + b)[0] == a[0] && (a + b)[1..] == a[1..] + b;
      TransmissionAppend(rest, a[1..], b);
    }
  }
}
