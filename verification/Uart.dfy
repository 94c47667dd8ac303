/** The handlers of sw/uart.c: what the receive handler stores, what one transmit service pushes, and
    the message that start_transmit builds. */
module Uart {
  import opened Bytes

  const NEWLINE: byte := 10
  const RETURN: byte := 13
  const RX_CAPACITY := 64
  const TX_CAPACITY := RX_CAPACITY + 8
  const FIFO_CAPACITY := 16

  const HELLO: seq<byte> := [104, 101, 108, 108, 111, 32]
  const TIMEOUT: seq<byte> := [116, 105, 109, 101, 111, 117, 116]

  // ---- Receiving ----

  /** rx_line[..rx_length] and line_ready. */
  datatype Line = Line(bytes: seq<byte>, ready: bool)

  /** What uart_receive does with one byte. */
  function Received(l: Line, b: byte): Line {
    if l.ready then l
    else if b == NEWLINE then Line(Stripped(l.bytes), true)
    else if |l.bytes| < RX_CAPACITY then Line(l.bytes + [b], false)
    else l
  }

  /** Without one trailing carriage return. */
  function Stripped(s: seq<byte>): seq<byte> {
    if s != [] && s[|s| - 1] == RETURN then s[..|s| - 1] else s
  }

  function ReceivedAll(l: Line, bytes: seq<byte>): Line {
    if bytes == [] then l else Received(ReceivedAll(l, bytes[..|bytes| - 1]), bytes[|bytes| - 1])
  }

  /** How many bytes there are before the first newline. */
  function BeforeNewline(bytes: seq<byte>): (n: nat)
    ensures n <= |bytes|
    ensures n < |bytes| ==> bytes[n] == NEWLINE
    ensures forall i :: 0 <= i < n ==> bytes[i] != NEWLINE
  {
    if bytes == [] || bytes[0] == NEWLINE then 0 else 1 + BeforeNewline(bytes[1..])
  }

  function Take(s: seq<byte>, n: nat): seq<byte> { if n < |s| then s[..n] else s }

  /** The first line of the input: at most 64 bytes, and one trailing return of those dropped once the
      newline has come. */
  function FirstLine(bytes: seq<byte>): Line {
    var n := BeforeNewline(bytes);
    var kept := Take(bytes[..n], RX_CAPACITY);
    if n < |bytes| then Line(Stripped(kept), true) else Line(kept, false)
  }

  lemma {:induction false} BeforeNewlineIs(bytes: seq<byte>, n: nat)
    requires n <= |bytes| && (n < |bytes| ==> bytes[n] == NEWLINE) && forall i :: 0 <= i < n ==> bytes[i] != NEWLINE
    ensures BeforeNewline(bytes) == n
  {
  }

  lemma {:induction false} BeforeNewlineAppended(bytes: seq<byte>, b: byte)
    ensures BeforeNewline(bytes + [b]) ==
              if BeforeNewline(bytes) < |bytes| || b == NEWLINE then BeforeNewline(bytes) else |bytes| + 1
  {
    var n := BeforeNewline(bytes);
    BeforeNewlineIs(bytes + [b], if n < |bytes| || b == NEWLINE then n else |bytes| + 1);
  }

  /** Byte by byte, the handler stores the first line, and nothing that comes later changes it. */
  lemma {:induction false} ReceivesFirstLine(bytes: seq<byte>)
    ensures ReceivedAll(Line([], false), bytes) == FirstLine(bytes)
  {
    if bytes == [] {
    } else {
      var front, b := bytes[..|bytes| - 1], bytes[|bytes| - 1];
      ReceivesFirstLine(front);
      assert bytes == front + [b];
      BeforeNewlineAppended(front, b);
      var n := BeforeNewline(bytes);
      if n <= |front| {
        assert bytes[..n] == front[..n];
      } else {
        assert bytes[..n] == front + [b] && front[..|front|] == front;
      }
    }
  }

  /** What the first line is: the bytes before the newline, the first 64 of them, less a trailing return. */
  lemma {:induction false} LineIs(text: seq<byte>, rest: seq<byte>)
    requires NEWLINE !in text
    ensures var kept := if |text| <= 64 then text else text[..64];
            FirstLine(text + [NEWLINE] + rest) ==
              Line(if |kept| > 0 && kept[|kept| - 1] == 13 then kept[..|kept| - 1] else kept, true)
    ensures FirstLine(text) == Line(if |text| <= 64 then text else text[..64], false)
  {
    var bytes := text + [NEWLINE] + rest;
    assert forall i :: 0 <= i < |text| ==> text[i] in text;
    BeforeNewlineIs(bytes, |text|);
    BeforeNewlineIs(text, |text|);
    assert bytes[..|text|] == text && text[..|text|] == text;
  }

  // ---- Transmitting ----

  /** tx_buffer[..tx_length], tx_position, tx_done and the transmit bit of the interrupt enable
      register. */
  datatype Transmitter = Transmitter(message: seq<byte>, position: nat, done: bool, enabled: bool)

  function Batch(t: Transmitter): nat
    requires t.position <= |t.message|
  {
    if |t.message| - t.position < FIFO_CAPACITY then |t.message| - t.position else FIFO_CAPACITY
  }

  /** One transmit service: it pushes the next batch, and is the last if there was none to push. */
  function Serviced(t: Transmitter): Transmitter
    requires t.position <= |t.message|
  {
    if t.position == |t.message| then t.(done := true, enabled := false) else t.(position := t.position + Batch(t))
  }

  // ---- The message ----

  /** The message for this prefix; line_ready is looked at after the prefix has been copied. */
  function Message(prefix: seq<byte>, l: Line): seq<byte> {
    prefix + (if l.ready then l.bytes else []) + [NEWLINE]
  }

  class Device {
    const rxLine: array<byte>
    var rxLength: nat
    var lineReady: bool
    const txBuffer: array<byte>
    var txLength: nat
    var txPosition: nat
    var txDone: bool
    var enabled: bool

    constructor ()
      ensures Valid() && fresh(rxLine) && fresh(txBuffer)
      ensures Stored() == Line([], false) && Sending() == Transmitter([], 0, false, false)
    {
      rxLine, txBuffer := new byte[RX_CAPACITY + 1](_ => 0), new byte[TX_CAPACITY](_ => 0);
      rxLength, lineReady, txLength, txPosition, txDone, enabled := 0, false, 0, 0, false, false;
    }

    ghost predicate Valid()
      reads this
    {
      && rxLine.Length == RX_CAPACITY + 1 && txBuffer.Length == TX_CAPACITY && rxLine != txBuffer
      && rxLength <= RX_CAPACITY && txPosition <= txLength <= TX_CAPACITY
    }

    ghost function Stored(): Line
      requires Valid()
      reads this, rxLine
    {
      Line(rxLine[..rxLength], lineReady)
    }

    ghost function Sending(): Transmitter
      requires Valid()
      reads this, txBuffer
    {
      Transmitter(txBuffer[..txLength], txPosition, txDone, enabled)
    }

    /** The body of the receive loop. */
    method ReceiveByte(b: byte)
      requires Valid()
      modifies this`rxLength, this`lineReady, rxLine
      ensures Valid() && Stored() == Received(old(Stored()), b) && Sending() == old(Sending())
    {
      if lineReady {
        return;
      }
      if b == NEWLINE {
        if rxLength != 0 && rxLine[rxLength - 1] == RETURN {
          rxLength := rxLength - 1;
        }
        rxLine[rxLength] := 0;
        lineReady := true;
      } else if rxLength < RX_CAPACITY {
        rxLine[rxLength] := b;
        rxLength := rxLength + 1;
      }
    }

    /** uart_receive, with the bytes that the receive buffer delivers before it runs empty. */
    method Receive(input: seq<byte>)
      requires Valid()
      modifies this`rxLength, this`lineReady, rxLine
      ensures Valid() && Stored() == ReceivedAll(old(Stored()), input) && Sending() == old(Sending())
    {
      hide Received;
      var at := 0;
      assert input[..0] == [];
      while at < |input|
        invariant at <= |input| && Valid() && Stored() == ReceivedAll(old(Stored()), input[..at])
        invariant Sending() == old(Sending())
      {
        assert input[..at + 1][..at] == input[..at];
        ReceiveByte(input[at]);
        at := at + 1;
      }
      assert input[..at] == input;
    }

    /** uart_transmit: pushed lists the bytes written to the transmit holding register, never more
        than the FIFO takes. */
    method Transmit() returns (pushed: seq<byte>)
      requires Valid()
      modifies this`txPosition, this`txDone, this`enabled
      ensures Valid() && Sending() == Serviced(old(Sending())) && Stored() == old(Stored())
      ensures |pushed| <= FIFO_CAPACITY && (|pushed| < FIFO_CAPACITY ==> txPosition == txLength)
      ensures txLength == old(txLength) && txPosition == old(txPosition) + |pushed|
      ensures txDone == (old(txDone) || pushed == []) && enabled == (old(enabled) && pushed != [])
      ensures pushed == old(Sending()).message[old(txPosition)..old(txPosition) + Batch(old(Sending()))]
    {
      ghost var before := Sending();
      pushed := [];
      while txPosition < txLength && |pushed| < FIFO_CAPACITY
        invariant txPosition == old(txPosition) + |pushed| <= txLength && |pushed| <= FIFO_CAPACITY
        invariant pushed == txBuffer[old(txPosition)..txPosition] && txDone == old(txDone) && enabled == old(enabled)
      {
        pushed := pushed + [txBuffer[txPosition]];
        txPosition := txPosition + 1;
      }
      assert |pushed| == Batch(before) && txBuffer[..txLength] == before.message;
      assert pushed == before.message[before.position..before.position + Batch(before)];
      if txPosition == txLength && |pushed| == 0 {
        enabled := false;
        txDone := true;
      }
    }

    /** start_transmit, with a prefix that leaves room for a whole line and the newline, as both prefixes
        do. */
    method StartTransmit(prefix: seq<byte>)
      requires Valid() && |prefix| + RX_CAPACITY < TX_CAPACITY
      modifies this`txLength, this`txPosition, this`txDone, this`enabled, txBuffer
      ensures Valid() && Stored() == old(Stored())
      ensures Sending() == Transmitter(Message(prefix, Stored()), 0, false, true)
    {
      hide Stripped;
      var outputLength, inputIndex := 0, 0;
      while outputLength < |prefix| && outputLength < TX_CAPACITY
        invariant Valid() && outputLength <= |prefix| && txBuffer[..outputLength] == prefix[..outputLength]
        invariant Stored() == old(Stored())
      {
        txBuffer[outputLength] := prefix[outputLength];
        outputLength := outputLength + 1;
      }
      if lineReady {
        while inputIndex < rxLength && outputLength < TX_CAPACITY - 1
          invariant Valid() && inputIndex <= rxLength && outputLength == |prefix| + inputIndex
          invariant Stored() == old(Stored()) && txBuffer[..outputLength] == prefix + rxLine[..inputIndex]
        {
          txBuffer[outputLength] := rxLine[inputIndex];
          outputLength := outputLength + 1;
          inputIndex := inputIndex + 1;
        }
      }
      if outputLength < TX_CAPACITY {
        txBuffer[outputLength] := NEWLINE;
        outputLength := outputLength + 1;
      }
      assert txBuffer[..outputLength] == Message(prefix, Stored());
      txPosition := 0;
      txLength := outputLength;
      txDone := false;
      enabled := true;
    }
  }
}
