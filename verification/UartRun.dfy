/** Whole runs of sw/uart.c: main interleaved at every shared access with receive, timer, fault and
    transmit interrupts, and with the hardware that empties the transmit FIFO. */
module UartRun {
  import opened Bytes
  import opened Uart

  datatype Pc =
    | WaitReady | WaitTimer | WaitTrap | AfterWait | Choose
    | CopyPrefix | CheckReady | CopyLine | PutNewline | SetPosition | SetLength | ClearDone | Enable
    | WaitDone | WaitDoneTrap | Return | Exit(code: nat)

  /** What the receive, timer and fault handlers write. received is history: all bytes read from the
      receive buffer. */
  datatype Rx = Rx(line: Line, received: seq<byte>, timedOut: bool, fault: bool)

  /** buffer is tx_buffer[..output_length] of start_transmit. chosen and late are history: whether main
      saw line_ready, and whether start_transmit did. */
  datatype Main = Main(pc: Pc, prefix: seq<byte>, buffer: seq<byte>, index: nat, chosen: bool, late: bool)

  datatype Trap = NoTrap | Service(pushed: nat)

  /** fifo is the transmit FIFO, and wire lists the bytes that have left it. */
  datatype Tx = Tx(length: nat, position: nat, done: bool, enabled: bool, trap: Trap, fifo: seq<byte>, wire: seq<byte>)

  datatype State = State(rx: Rx, main: Main, tx: Tx)

  datatype Event = MainStep | Receive(b: byte) | Timer | Fault | Begin | Push | EndService | Drain

  function Initial(): State {
    State(Rx(Line([], false), [], false, false), Main(WaitReady, [], [], 0, false, false),
          Tx(0, 0, false, false, NoTrap, [], []))
  }

  function AdvanceMain(rx: Rx, m: Main, tx: Tx): Main {
    match m.pc
    case WaitReady => m.(pc := if rx.line.ready then AfterWait else WaitTimer)
    case WaitTimer => m.(pc := if rx.timedOut then AfterWait else WaitTrap)
    case WaitTrap => m.(pc := if rx.fault then AfterWait else WaitReady)
    case AfterWait => m.(pc := if rx.fault then Exit(1) else Choose)
    case Choose => m.(prefix := if rx.line.ready then HELLO else TIMEOUT, chosen := rx.line.ready, pc := CopyPrefix)
    case CopyPrefix =>
      if |m.buffer| < |m.prefix| && |m.buffer| < TX_CAPACITY then m.(buffer := m.buffer + [m.prefix[|m.buffer|]])
      else m.(pc := CheckReady)
    case CheckReady => m.(late := rx.line.ready, pc := if rx.line.ready then CopyLine else PutNewline)
    case CopyLine =>
      if m.index < |rx.line.bytes| && |m.buffer| < TX_CAPACITY - 1 then
        m.(buffer := m.buffer + [rx.line.bytes[m.index]], index := m.index + 1)
      else m.(pc := PutNewline)
    case PutNewline => m.(buffer := if |m.buffer| < TX_CAPACITY then m.buffer + [NEWLINE] else m.buffer, pc := SetPosition)
    case SetPosition => m.(pc := SetLength)
    case SetLength => m.(pc := ClearDone)
    case ClearDone => m.(pc := Enable)
    case Enable => m.(pc := WaitDone)
    case WaitDone => m.(pc := if tx.done then Return else WaitDoneTrap)
    case WaitDoneTrap => m.(pc := if rx.fault then Return else WaitDone)
    case Return => m.(pc := Exit(if rx.fault then 1 else 0))
    case Exit(_) => m
  }

  /** What main's step writes for the transmit handler. */
  function Arm(m: Main, tx: Tx): Tx {
    match m.pc
    case SetPosition => tx.(position := 0)
    case SetLength => tx.(length := |m.buffer|)
    case ClearDone => tx.(done := false)
    case Enable => tx.(enabled := true)
    case _ => tx
  }

  /** While a handler runs, main does not; after main has disabled interrupts, no handler starts. The
      transmit interrupt is raised only when it is enabled and the FIFO is empty. */
  predicate Possible(s: State, e: Event) {
    match e
    case MainStep => s.tx.trap.NoTrap?
    case Receive(_) | Timer | Fault => s.tx.trap.NoTrap? && !s.main.pc.Exit?
    case Begin => s.tx.trap.NoTrap? && !s.main.pc.Exit? && s.tx.enabled && s.tx.fifo == []
    case Push =>
      s.tx.trap.Service? && s.tx.position < s.tx.length && s.tx.position < |s.main.buffer| && s.tx.trap.pushed < FIFO_CAPACITY
    case EndService => s.tx.trap.Service? && !(s.tx.position < s.tx.length && s.tx.trap.pushed < FIFO_CAPACITY)
    case Drain => s.tx.fifo != []
  }

  function Handle(tx: Tx, buffer: seq<byte>, e: Event): Tx {
    match e
    case Begin => tx.(trap := Service(0))
    case Push =>
      if tx.trap.Service? && tx.position < |buffer| then
        tx.(fifo := tx.fifo + [buffer[tx.position]], position := tx.position + 1, trap := Service(tx.trap.pushed + 1))
      else tx
    case EndService =>
      if tx.trap.Service? && tx.position == tx.length && tx.trap.pushed == 0 then
        tx.(trap := NoTrap, done := true, enabled := false)
      else tx.(trap := NoTrap)
    case Drain => if tx.fifo == [] then tx else tx.(wire := tx.wire + [tx.fifo[0]], fifo := tx.fifo[1..])
    case _ => tx
  }

  function Next(s: State, e: Event): State {
    if !Possible(s, e) then s else
      match e
      case MainStep => State(s.rx, AdvanceMain(s.rx, s.main, s.tx), Arm(s.main, s.tx))
      case Receive(b) => s.(rx := s.rx.(line := Received(s.rx.line, b), received := s.rx.received + [b]))
      case Timer => s.(rx := s.rx.(timedOut := true))
      case Fault => s.(rx := s.rx.(fault := true))
      case _ => s.(tx := Handle(s.tx, s.main.buffer, e))
  }

  // ---- Invariant ----

  predicate Waiting(pc: Pc) { pc in {WaitReady, WaitTimer, WaitTrap, AfterWait, Choose} }

  predicate Sending(pc: Pc) { pc in {WaitDone, WaitDoneTrap, Return} }

  /** The line that goes into the message. */
  function Included(rx: Rx, m: Main): Line { if m.late then rx.line else Line([], false) }

  ghost predicate Receiving(line: Line, received: seq<byte>, seen: bool) {
    line == ReceivedAll(Line([], false), received) && |line.bytes| <= RX_CAPACITY && (seen ==> line.ready)
  }

  /** Nothing has been sent yet. */
  ghost predicate Quiet(tx: Tx) { !tx.enabled && tx.fifo == [] && tx.wire == [] && tx.trap.NoTrap? && !tx.done }

  /** What has been put into the buffer. */
  ghost predicate Building(rx: Rx, m: Main) {
    && m.prefix == (if m.chosen then HELLO else TIMEOUT) && (!m.chosen ==> rx.timedOut)
    && match m.pc
       case CopyPrefix => !m.late && m.index == 0 && |m.buffer| <= |m.prefix| && m.buffer == m.prefix[..|m.buffer|]
       case CheckReady => !m.late && m.index == 0 && m.buffer == m.prefix
       case CopyLine => m.late && m.index <= |rx.line.bytes| && m.buffer == m.prefix + rx.line.bytes[..m.index]
       case PutNewline => (m.chosen ==> m.late) && m.buffer == m.prefix + (if m.late then rx.line.bytes else [])
       case _ => (m.chosen ==> m.late) && m.buffer == Message(m.prefix, Included(rx, m))
  }

  /** How far the message has got. */
  ghost predicate Progress(tx: Tx, buffer: seq<byte>) {
    && tx.length == |buffer| && tx.position <= tx.length && tx.wire + tx.fifo == buffer[..tx.position]
    && |tx.fifo| <= FIFO_CAPACITY && (tx.done <==> !tx.enabled)
    && (tx.trap.Service? ==> tx.enabled && tx.trap.pushed <= FIFO_CAPACITY && |tx.fifo| <= tx.trap.pushed)
    && (tx.done ==> tx.position == tx.length && tx.fifo == [])
  }

  ghost predicate Idle(rx: Rx, m: Main) {
    && !m.chosen && !m.late && m.buffer == [] && m.index == 0
    && (m.pc.AfterWait? ==> rx.line.ready || rx.timedOut || rx.fault)
    && (m.pc.Choose? ==> rx.line.ready || rx.timedOut)
  }

  ghost predicate Armed(m: Main, tx: Tx) {
    && (m.pc in {SetLength, ClearDone, Enable} ==> tx.position == 0)
    && (m.pc in {ClearDone, Enable} ==> tx.length == |m.buffer|)
  }

  ghost predicate Stage(rx: Rx, m: Main, tx: Tx) {
    if Waiting(m.pc) then Idle(rx, m) && Quiet(tx)
    else if Sending(m.pc) then Building(rx, m) && Progress(tx, m.buffer) && (m.pc.Return? ==> tx.done || rx.fault)
    else if m.pc.Exit? then (m.pc.code == 0 ==> tx.done) && (Quiet(tx) || (Building(rx, m) && Progress(tx, m.buffer)))
    else Building(rx, m) && Quiet(tx) && Armed(m, tx)
  }

  ghost predicate Inv(s: State) {
    Receiving(s.rx.line, s.rx.received, s.main.chosen || s.main.late) && Stage(s.rx, s.main, s.tx)
  }

  lemma IdleStep(s: State)
    requires Inv(s) && Waiting(s.main.pc)
    ensures Inv(Next(s, MainStep))
  {
    hide ReceivedAll, Message;
  }

  lemma PrefixStep(s: State)
    requires Inv(s) && s.main.pc in {CopyPrefix, CheckReady}
    ensures Inv(Next(s, MainStep))
  {
    hide ReceivedAll, Progress, Quiet, Message;
    var m := s.main;
    if m.pc.CopyPrefix? && |m.buffer| < |m.prefix| {
      assert m.prefix[..|m.buffer| + 1] == m.prefix[..|m.buffer|] + [m.prefix[|m.buffer|]];
    }
  }

  lemma LineStep(s: State)
    requires Inv(s) && s.main.pc in {CopyLine, PutNewline}
    ensures Inv(Next(s, MainStep))
  {
    hide ReceivedAll, Progress, Quiet;
    var line, k := s.rx.line.bytes, s.main.index;
    assert |s.main.prefix| <= 7;
    if s.main.pc.CopyLine? {
      if k < |line| {
        assert line[..k + 1] == line[..k] + [line[k]];
      } else {
        assert line[..k] == line;
      }
    }
  }

  lemma ArmingStep(s: State)
    requires Inv(s) && s.main.pc in {SetPosition, SetLength, ClearDone, Enable}
    ensures Inv(Next(s, MainStep))
  {
    hide ReceivedAll, Message, Receiving;
  }

  lemma SendingStep(s: State)
    requires Inv(s) && (Sending(s.main.pc) || s.main.pc.Exit?)
    ensures Inv(Next(s, MainStep))
  {
    hide Message, Receiving, Progress, Quiet;
  }

  lemma ReceivingGoesOn(line: Line, received: seq<byte>, seen: bool, b: byte)
    requires Receiving(line, received, seen)
    ensures Receiving(Received(line, b), received + [b], seen) && (line.ready ==> Received(line, b) == line)
    ensures seen ==> line.ready
  {
    assert (received + [b])[..|received|] == received;
  }

  lemma ReceiveInv(s: State, b: byte)
    requires Inv(s)
    ensures Inv(Next(s, Receive(b)))
  {
    hide Message, Progress, Quiet, Receiving, Received, Armed;
    var seen := s.main.chosen || s.main.late;
    ReceivingGoesOn(s.rx.line, s.rx.received, seen, b);
    ReadyStays(s.rx.line, b);
  }

  lemma ReadyStays(line: Line, b: byte)
    ensures line.ready ==> Received(line, b).ready
  {
  }

  lemma FlagInv(s: State, e: Event)
    requires Inv(s) && (e.Timer? || e.Fault?)
    ensures Inv(Next(s, e))
  {
    hide ReceivedAll, Message, Progress, Quiet;
  }

  lemma HandlerInv(s: State, e: Event)
    requires Inv(s) && e in {Begin, Push, EndService, Drain}
    ensures Inv(Next(s, e))
  {
    hide Message, Receiving, Building;
  }

  lemma StepInv(s: State, e: Event)
    requires Inv(s)
    ensures Inv(Next(s, e))
  {
    hide Inv, AdvanceMain, Arm, Handle;
    match e
    case MainStep =>
      if Waiting(s.main.pc) {
        IdleStep(s);
      } else if s.main.pc in {CopyPrefix, CheckReady} {
        PrefixStep(s);
      } else if s.main.pc in {CopyLine, PutNewline} {
        LineStep(s);
      } else if Sending(s.main.pc) || s.main.pc.Exit? {
        SendingStep(s);
      } else {
        ArmingStep(s);
      }
    case Receive(b) => ReceiveInv(s, b);
    case Timer | Fault => FlagInv(s, e);
    case Begin | Push | EndService | Drain => HandlerInv(s, e);
  }

  // ---- Whole runs ----

  function Run(events: seq<Event>): State {
    if events == [] then Initial() else Next(Run(events[..|events| - 1]), events[|events| - 1])
  }

  lemma {:induction false} RunInv(events: seq<Event>)
    ensures Inv(Run(events))
  {
    if events == [] {
    } else {
      RunInv(events[..|events| - 1]);
      StepInv(Run(events[..|events| - 1]), events[|events| - 1]);
    }
    hide Next, Inv;
  }

  /** Once line_ready is set, the stored line is the first line of the input, and nothing changes it. */
  lemma {:induction false} LineStays(events: seq<Event>, more: seq<Event>)
    requires Run(events).rx.line.ready
    ensures Run(events + more).rx.line == Run(events).rx.line == FirstLine(Run(events).rx.received)
  {
    hide AdvanceMain, Arm, Handle, FirstLine;
    if more == [] {
      assert events + more == events;
      RunInv(events);
      ReceivesFirstLine(Run(events).rx.received);
    } else {
      LineStays(events, more[..|more| - 1]);
      assert (events + more)[..|events + more| - 1] == events + more[..|more| - 1];
    }
  }

  /** No service pushes more than 16 bytes, and the FIFO never holds more. */
  lemma {:induction false} FifoNeverOverflows(events: seq<Event>)
    ensures var tx := Run(events).tx; |tx.fifo| <= FIFO_CAPACITY && (tx.trap.Service? ==> tx.trap.pushed <= FIFO_CAPACITY)
  {
    hide Run, Receiving, Building;
    RunInv(events);
  }

  /** The message of a run, with the first line of its input as far as it was ready when looked at. */
  function Intended(s: State): seq<byte> {
    var line := FirstLine(s.rx.received).bytes;
    if s.main.chosen then HELLO + line + [NEWLINE] else TIMEOUT + (if s.main.late then line else []) + [NEWLINE]
  }

  /** Whatever happens, the bytes sent are the beginning of the message; when tx_done is set, the whole
      message has left the FIFO. Without a line in time the timer has fired, and main returns zero only
      after tx_done. */
  lemma {:induction false} SendsTheMessage(events: seq<Event>)
    ensures var s := Run(events);
            && (s.tx.wire + s.tx.fifo != [] || s.tx.done ==> s.tx.wire + s.tx.fifo <= Intended(s))
            && (s.tx.done ==> s.tx.wire == Intended(s) && s.tx.fifo == [])
            && (s.tx.done && !s.main.chosen ==> s.rx.timedOut)
            && (s.tx.done && s.main.chosen ==> FirstLine(s.rx.received).ready)
            && (s.main.pc == Exit(0) ==> s.tx.done)
  {
    hide Run, FirstLine, ReceivedAll;
    RunInv(events);
    var s := Run(events);
    ReceivesFirstLine(s.rx.received);
    if s.tx.wire + s.tx.fifo != [] || s.tx.done {
      assert s.main.buffer == Message(s.main.prefix, Included(s.rx, s.main)) == Intended(s);
      assert s.tx.done ==> s.main.buffer[..s.tx.position] == s.main.buffer;
    }
  }

  // ---- One transmit service ----

  function RunFrom(s: State, events: seq<Event>): State {
    if events == [] then s else Next(RunFrom(s, events[..|events| - 1]), events[|events| - 1])
  }

  function Transmitting(s: State): Transmitter { Transmitter(s.main.buffer, s.tx.position, s.tx.done, s.tx.enabled) }

  lemma ServiceStep(s: State, e: Event, from: nat)
    requires e != EndService && s.tx.trap.Service? && from <= s.tx.position <= s.tx.length == |s.main.buffer|
    requires s.tx.trap == Service(s.tx.position - from)
    ensures var s', buffer := Next(s, e), s.main.buffer;
            && s'.rx == s.rx && s'.main == s.main && s'.tx.done == s.tx.done && s'.tx.enabled == s.tx.enabled
            && s'.tx.length == s.tx.length && s.tx.position <= s'.tx.position <= s'.tx.length
            && s'.tx.trap == Service(s'.tx.position - from)
            && (s'.tx.position == s.tx.position || s.tx.position - from < FIFO_CAPACITY)
            && (s'.tx.position <= s.tx.position + 1)
            && s'.tx.wire + s'.tx.fifo == s.tx.wire + s.tx.fifo + buffer[s.tx.position..s'.tx.position]
            && buffer[from..s'.tx.position] == buffer[from..s.tx.position] + buffer[s.tx.position..s'.tx.position]
  {
    var wire, fifo := s.tx.wire, s.tx.fifo;
    if e.Drain? && fifo != [] {
      assert wire + [fifo[0]] + fifo[1..] == wire + fifo;
    } else if e.Push? && Possible(s, e) {
      assert wire + (fifo + [s.main.buffer[s.tx.position]]) == wire + fifo + [s.main.buffer[s.tx.position]];
    }
  }

  /** During a service only bytes move: from the buffer to the FIFO, and from there to the wire. */
  lemma {:induction false} InService(s: State, body: seq<Event>)
    requires Possible(s, Begin) && s.tx.position <= s.tx.length == |s.main.buffer| && EndService !in body
    ensures var mid := RunFrom(Next(s, Begin), body);
            && mid.rx == s.rx && mid.main == s.main && mid.tx.done == s.tx.done && mid.tx.enabled == s.tx.enabled
            && mid.tx.length == s.tx.length && s.tx.position <= mid.tx.position <= mid.tx.length
            && mid.tx.trap == Service(mid.tx.position - s.tx.position)
            && mid.tx.position - s.tx.position <= FIFO_CAPACITY
            && mid.tx.wire + mid.tx.fifo == s.tx.wire + s.tx.fifo + s.main.buffer[s.tx.position..mid.tx.position]
  {
    if body != [] {
      var front, e := body[..|body| - 1], body[|body| - 1];
      InService(s, front);
      assert e in body;
      hide RunFrom;
      ServiceStep(RunFrom(Next(s, Begin), front), e, s.tx.position);
    }
  }

  /** From its first step to its last, whatever the hardware takes from the FIFO meanwhile, a service does
      what uart_transmit does: it ends as Serviced says, and the FIFO has gained exactly the next batch. */
  lemma {:induction false} ServiceRefines(s: State, body: seq<Event>)
    requires Possible(s, Begin) && s.tx.position <= s.tx.length == |s.main.buffer| && EndService !in body
    requires Possible(RunFrom(Next(s, Begin), body), EndService)
    ensures var s' := Next(RunFrom(Next(s, Begin), body), EndService);
            && s'.rx == s.rx && s'.main == s.main && s'.tx.trap.NoTrap? && s'.tx.length == s.tx.length
            && Transmitting(s') == Serviced(Transmitting(s))
            && s'.tx.wire + s'.tx.fifo ==
               s.tx.wire + s.tx.fifo + s.main.buffer[s.tx.position..s.tx.position + Batch(Transmitting(s))]
  {
    hide RunFrom;
    InService(s, body);
  }

  lemma {:induction false} ServiceBegins(events: seq<Event>)
    requires Possible(Run(events), Begin)
    ensures var s := Run(events); s.tx.position <= s.tx.length == |s.main.buffer|
  {
    hide Run, Receiving, Building;
    RunInv(events);
  }

  /** Every service of every run is such a service. */
  lemma {:induction false} RunServices(events: seq<Event>, body: seq<Event>)
    requires Possible(Run(events), Begin) && EndService !in body
    requires Possible(RunFrom(Next(Run(events), Begin), body), EndService)
    ensures var s := Run(events);
            var s' := Next(RunFrom(Next(s, Begin), body), EndService);
            && s.tx.position <= |s.main.buffer| && Transmitting(s') == Serviced(Transmitting(s))
            && s'.tx.wire + s'.tx.fifo ==
               s.tx.wire + s.tx.fifo + s.main.buffer[s.tx.position..s.tx.position + Batch(Transmitting(s))]
  {
    hide Run, RunFrom, Possible, Next;
    ServiceBegins(events);
    ServiceRefines(Run(events), body);
  }

  /** What the handler or the hardware does next. */
  function Onward(tx: Tx): Event {
    if tx.trap.NoTrap? then if tx.fifo == [] then Begin else Drain
    else if tx.position < tx.length && tx.trap.pushed < FIFO_CAPACITY then Push else EndService
  }

  predicate BySending(e: Event) { e in {Drain, Begin, Push, EndService} }

  /** How far the transmit handler and the FIFO are from the next push. */
  function Distance(tx: Tx): nat {
    match tx.trap case NoTrap => 1 + |tx.fifo| case Service(pushed) => if pushed == 0 then 0 else 2 + |tx.fifo|
  }

  /** The bytes that have not been pushed. */
  function Left(s: State): nat { if s.tx.position <= s.tx.length then s.tx.length - s.tx.position else 0 }

  /** Sending never gets stuck: until tx_done is set, the hardware or the transmit handler can go on, and
      comes closer to the end. */
  lemma SendingMovesOn(s: State)
    requires Inv(s) && Sending(s.main.pc) && !s.tx.done
    ensures var e := Onward(s.tx);
            && BySending(e) && Possible(s, e) && Next(s, e).main == s.main
            && (|| Next(s, e).tx.done || Left(Next(s, e)) < Left(s)
                || (Left(Next(s, e)) == Left(s) && Distance(Next(s, e).tx) < Distance(s.tx)))
  {
    hide Receiving, Building, Message;
  }

  lemma {:induction false} RunOne(events: seq<Event>, e: Event)
    ensures Run(events + [e]) == Next(Run(events), e)
  {
    hide Next;
    assert (events + [e])[..|events|] == events;
  }

  /** The handler and the hardware alone bring every message to its end. */
  lemma {:induction false} SendingFinishes(events: seq<Event>) returns (more: seq<Event>)
    requires Sending(Run(events).main.pc) && !Run(events).tx.done
    ensures Run(events + more).tx.done && Run(events + more).tx.wire == Intended(Run(events + more))
    ensures forall k :: 0 <= k < |more| ==> BySending(more[k])
    decreases Left(Run(events)), Distance(Run(events).tx)
  {
    hide Run, Inv, Next, Onward, Possible, Distance, Intended, Left;
    var s := Run(events);
    RunInv(events);
    SendingMovesOn(s);
    var e := Onward(s.tx);
    RunOne(events, e);
    if Run(events + [e]).tx.done {
      more := [e];
    } else {
      var rest := SendingFinishes(events + [e]);
      more := [e] + rest;
      assert events + more == events + [e] + rest;
    }
    SendsTheMessage(events + more);
  }
}
