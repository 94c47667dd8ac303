/** test_vm_remap and worker_vm_remap in sw/linux-user-tests/openrv64_user_stress.c: one thread
    moves and replaces a page while another uses it, for any number of rounds. Every shared
    access, system call and plain-variable access is a step of its own. */
module VmRemap {
  /** One of the two virtual pages of the mapping. */
  type Va = bool

  datatype Entry = Unmapped | Mapped(page: nat, writable: bool)

  datatype Table = Table(low: Entry, high: Entry) {
    function At(va: Va): Entry { if va then high else low }

    function With(va: Va, e: Entry): Table { if va then this.(high := e) else this.(low := e) }
  }

  /** stamp(round) is the value the test stores in the replaced page. */
  datatype Config = Config(rounds: nat, first: int, second: int, stamp: nat -> int)

  datatype MainPc =
    | ReadOld | SetCurrent | SetOther | SetOld | PublishWarm | WaitWarm
    | ProtectRead | ProtectWrite | Remap | Replace | StoreNew
    | ResetCurrent | ResetOther | ResetOld | SetNew | PublishVerify | WaitVerify
    | Abort | Join | End

  datatype WorkerPc =
    | SpinWarm | AbortWarm | LoadCurrent | LoadOld | ReadWarm | CompareWarm | StoreBack | AckWarm
    | SpinVerify | AbortVerify | ReloadCurrent | LoadOther | ReadNew | CompareNew | ReadOldValue | CompareOld | AckVerify
    | Done

  datatype Main = Main(pc: MainPc, round: nat, current: Va, other: Va, oldValue: int, failed: bool)

  datatype Worker = Worker(pc: WorkerPc, round: nat, current: Va, other: Va, oldValue: int, read: int)

  /** vmCurrent, vmOther, vmOld and vmNew are the plain variables; failures counts the worker's
      failed comparisons, and faulted records an access the page table does not allow. */
  datatype Memory = Memory(table: Table, pages: seq<int>, phase: nat, ack: nat, abort: bool,
                           vmCurrent: Va, vmOther: Va, vmOld: int, vmNew: int, failures: nat, faulted: bool) {
    predicate Readable(va: Va) { table.At(va).Mapped? && table.At(va).page < |pages| }

    predicate Writable(va: Va) { Readable(va) && table.At(va).writable }

    function Value(va: Va): int { if Readable(va) then pages[table.At(va).page] else 0 }

    function Touch(va: Va): Memory { if Readable(va) then this else this.(faulted := true) }

    function Store(va: Va, value: int): Memory {
      if Writable(va) then this.(pages := pages[table.At(va).page := value]) else this.(faulted := true)
    }

    /** A comparison by the worker, which counts a mismatch and carries on. */
    function Expect(seen: int, wanted: int): Memory {
      if seen == wanted then this else this.(failures := failures + 1)
    }
  }

  datatype State = State(m: Memory, main: Main, worker: Worker)

  function Initial(c: Config): State {
    State(Memory(Table(Mapped(0, true), Mapped(1, true)), [c.first, c.second], 0, 0, false,
                 false, true, c.first, 0, 0, false),
          Main(if c.rounds > 0 then ReadOld else Join, 0, false, true, 0, false),
          Worker(if c.rounds > 0 then SpinWarm else Done, 0, false, true, 0, 0))
  }

  // ---- Steps ----

  /** What a system call does: it may fail, and then leaves any page table behind. */
  datatype Event = MainStep(ok: bool, wreck: Table) | WorkerStep

  function Call(m: Memory, main: Main, e: Event, onSuccess: Memory, next: MainPc): (Memory, Main)
    requires e.MainStep?
  {
    if e.ok then (onSuccess, main.(pc := next)) else (m.(table := e.wreck), main.(pc := Abort, failed := true))
  }

  /** The moved page keeps its frame; mapping over an address gives it a fresh zero page. */
  function AdvanceMain(c: Config, m: Memory, main: Main, worker: Worker, e: Event): (Memory, Main)
    requires e.MainStep?
  {
    var va := main.current;
    match main.pc
    case ReadOld => (m.Touch(va), main.(oldValue := m.Value(va), pc := SetCurrent))
    case SetCurrent => (m.(vmCurrent := va), main.(pc := SetOther))
    case SetOther => (m.(vmOther := main.other), main.(pc := SetOld))
    case SetOld => (m.(vmOld := main.oldValue), main.(pc := PublishWarm))
    case PublishWarm => (m.(phase := main.round * 2 + 1), main.(pc := WaitWarm))
    case WaitWarm => if m.ack == main.round * 2 + 1 then (m, main.(pc := ProtectRead)) else (m, main)
    case ProtectRead => Call(m, main, e, m.(table := Protect(m.table, va, false)), ProtectWrite)
    case ProtectWrite => Call(m, main, e, m.(table := Protect(m.table, va, true)), Remap)
    case Remap => Call(m, main, e, m.(table := m.table.With(main.other, m.table.At(va)).With(va, Unmapped)), Replace)
    case Replace =>
      Call(m, main, e, m.(pages := m.pages + [0], table := m.table.With(va, Mapped(|m.pages|, true))), StoreNew)
    case StoreNew => (m.Store(va, c.stamp(main.round)), main.(pc := ResetCurrent))
    case ResetCurrent => (m.(vmCurrent := va), main.(pc := ResetOther))
    case ResetOther => (m.(vmOther := main.other), main.(pc := ResetOld))
    case ResetOld => (m.(vmOld := main.oldValue), main.(pc := SetNew))
    case SetNew => (m.(vmNew := c.stamp(main.round)), main.(pc := PublishVerify))
    case PublishVerify => (m.(phase := main.round * 2 + 2), main.(pc := WaitVerify))
    case WaitVerify =>
      if m.ack == main.round * 2 + 2 then
        (m, main.(pc := if main.round + 1 < c.rounds then ReadOld else Join, round := main.round + 1,
                  current := main.other, other := va))
      else (m, main)
    case Abort => (m.(abort := true), main.(pc := Join))
    case Join => if worker.pc.Done? then (m, main.(pc := End)) else (m, main)
    case End => (m, main)
  }

  function Protect(table: Table, va: Va, writable: bool): Table {
    match table.At(va)
    case Mapped(page, _) => table.With(va, Mapped(page, writable))
    case Unmapped => table
  }

  function AdvanceWorker(c: Config, m: Memory, w: Worker): (Memory, Worker) {
    match w.pc
    case SpinWarm => (m, w.(pc := if m.phase == w.round * 2 + 1 then LoadCurrent else AbortWarm))
    case AbortWarm => (m, w.(pc := if m.abort then Done else SpinWarm))
    case LoadCurrent => (m, w.(current := m.vmCurrent, pc := LoadOld))
    case LoadOld => (m, w.(oldValue := m.vmOld, pc := ReadWarm))
    case ReadWarm => (m.Touch(w.current), w.(read := m.Value(w.current), pc := CompareWarm))
    case CompareWarm => (m.Expect(w.read, w.oldValue), w.(pc := StoreBack))
    case StoreBack => (m.Store(w.current, w.oldValue), w.(pc := AckWarm))
    case AckWarm => (m.(ack := w.round * 2 + 1), w.(pc := SpinVerify))
    case SpinVerify => (m, w.(pc := if m.phase == w.round * 2 + 2 then ReloadCurrent else AbortVerify))
    case AbortVerify => (m, w.(pc := if m.abort then Done else SpinVerify))
    case ReloadCurrent => (m, w.(current := m.vmCurrent, pc := LoadOther))
    case LoadOther => (m, w.(other := m.vmOther, pc := ReadNew))
    case ReadNew => (m.Touch(w.current), w.(read := m.Value(w.current), pc := CompareNew))
    case CompareNew => (m.Expect(w.read, m.vmNew), w.(pc := ReadOldValue))
    case ReadOldValue => (m.Touch(w.other), w.(read := m.Value(w.other), pc := CompareOld))
    case CompareOld => (m.Expect(w.read, m.vmOld), w.(pc := AckVerify))
    case AckVerify =>
      (m.(ack := w.round * 2 + 2), w.(pc := if w.round + 1 < c.rounds then SpinWarm else Done, round := w.round + 1))
    case Done => (m, w)
  }

  function Next(c: Config, s: State, e: Event): State {
    if e.WorkerStep? then
      var (m, worker) := AdvanceWorker(c, s.m, s.worker);
      State(m, s.main, worker)
    else
      var (m, main) := AdvanceMain(c, s.m, s.main, s.worker, e);
      State(m, main, s.worker)
  }

  // ---- Invariant ----

  predicate Preparing(pc: MainPc) { pc in {ReadOld, SetCurrent, SetOther, SetOld, PublishWarm} }

  predicate Remapping(pc: MainPc) {
    pc in {ProtectRead, ProtectWrite, Remap, Replace, StoreNew, ResetCurrent, ResetOther, ResetOld, SetNew, PublishVerify}
  }

  predicate Warming(pc: WorkerPc) { pc in {LoadCurrent, LoadOld, ReadWarm, CompareWarm, StoreBack, AckWarm} }

  predicate Verifying(pc: WorkerPc) {
    pc in {ReloadCurrent, LoadOther, ReadNew, CompareNew, ReadOldValue, CompareOld, AckVerify}
  }

  predicate AtWarm(pc: WorkerPc) { pc in {SpinWarm, AbortWarm} }

  predicate AtVerify(pc: WorkerPc) { pc in {SpinVerify, AbortVerify} }

  /** Where the worker can be, given where the main thread is: the phases and acknowledgements
      take turns. */
  ghost predicate Rendezvous(c: Config, s: State) {
    var r, w := s.main.round, s.worker;
    var k := r * 2;
    if Preparing(s.main.pc) then
      r < c.rounds && s.m.phase == k && s.m.ack == k && w.round == r && AtWarm(w.pc)
    else if s.main.pc.WaitWarm? then
      && r < c.rounds && s.m.phase == k + 1 && w.round == r
      && (if s.m.ack == k + 1 then AtVerify(w.pc) else s.m.ack == k && (AtWarm(w.pc) || Warming(w.pc)))
    else if Remapping(s.main.pc) || s.main.pc.Abort? then
      r < c.rounds && s.m.phase == k + 1 && s.m.ack == k + 1 && w.round == r && AtVerify(w.pc)
    else if s.main.pc.WaitVerify? then
      && r < c.rounds && s.m.phase == k + 2
      && (if s.m.ack == k + 2 then w.round == r + 1 && (if r + 1 < c.rounds then AtWarm(w.pc) else w.pc.Done?)
          else s.m.ack == k + 1 && w.round == r && (AtVerify(w.pc) || Verifying(w.pc)))
    else if s.main.failed then
      r < c.rounds && s.m.phase == k + 1 && s.m.ack == k + 1 && w.round == r && (AtVerify(w.pc) || w.pc.Done?)
    else
      r == c.rounds && s.m.phase == k && s.m.ack == k && w.round == r && w.pc.Done?
  }

  ghost predicate Flags(s: State) {
    && s.m.failures == 0 && !s.m.faulted
    && (s.m.abort <==> s.main.failed && !s.main.pc.Abort?)
    && (s.main.failed ==> s.main.pc in {Abort, Join, End})
    && (s.main.pc.Abort? ==> s.main.failed)
    && (s.main.pc.End? ==> s.worker.pc.Done?)
  }

  /** The page at va is the original one, with its first value. */
  ghost predicate HoldsOriginal(c: Config, m: Memory, va: Va, writable: bool) {
    m.table.At(va) == Mapped(0, writable) && |m.pages| > 1 && m.pages[0] == c.first
  }

  ghost predicate HoldsValue(m: Memory, va: Va, value: int) {
    && m.table.At(va).Mapped? && m.table.At(va).writable
    && 0 < m.table.At(va).page < |m.pages| && m.pages[m.table.At(va).page] == value
  }

  /** The value the replaced page holds once `rounds` rounds are complete. */
  function Replaced(c: Config, rounds: nat): int {
    if rounds == 0 then c.second else c.stamp(rounds - 1)
  }

  /** What is mapped, round by round: the original page swings between the two addresses. */
  ghost predicate Mapping(c: Config, m: Memory, main: Main) {
    var cur, oth, r := main.current, main.other, main.round;
    match main.pc
    case ProtectWrite => HoldsOriginal(c, m, cur, false) && HoldsValue(m, oth, Replaced(c, r))
    case Replace => m.table.At(cur).Unmapped? && HoldsOriginal(c, m, oth, true)
    case StoreNew => HoldsOriginal(c, m, oth, true) && HoldsValue(m, cur, 0)
    case ResetCurrent | ResetOther | ResetOld | SetNew | PublishVerify | WaitVerify =>
      HoldsOriginal(c, m, oth, true) && HoldsValue(m, cur, c.stamp(r))
    case Abort => true
    case _ => !main.failed ==> HoldsOriginal(c, m, cur, true) && HoldsValue(m, oth, Replaced(c, r))
  }

  ghost predicate Fields(c: Config, m: Memory, main: Main) {
    && main.other == !main.current && main.current == (main.round % 2 == 1) && m.vmOld == c.first
    && (main.pc in {ReadOld, Join, End} || main.oldValue == c.first)
    && (main.pc in {WaitWarm, WaitVerify} ==> m.vmCurrent == main.current && m.vmOther == main.other)
    && (main.pc.SetOther? ==> m.vmCurrent == main.current)
    && (main.pc in {SetOld, PublishWarm} ==> m.vmCurrent == main.current && m.vmOther == main.other)
    && (main.pc.ResetOther? ==> m.vmCurrent == main.current)
    && (main.pc in {ResetOld, SetNew, PublishVerify} ==> m.vmCurrent == main.current && m.vmOther == main.other)
    && (main.pc in {PublishVerify, WaitVerify} ==> m.vmNew == c.stamp(main.round))
  }

  /** What the worker has read so far in this round. */
  ghost predicate Registers(c: Config, s: State) {
    var w, main := s.worker, s.main;
    && (w.pc in {LoadOld, ReadWarm, CompareWarm, StoreBack} ==> w.current == main.current)
    && (w.pc in {ReadWarm, CompareWarm, StoreBack} ==> w.oldValue == c.first)
    && (w.pc.CompareWarm? ==> w.read == c.first)
    && (w.pc in {LoadOther, ReadNew, CompareNew} ==> w.current == main.current)
    && (w.pc in {ReadNew, CompareNew, ReadOldValue} ==> w.other == main.other)
    && (w.pc.CompareNew? ==> w.read == c.stamp(main.round))
    && (w.pc.CompareOld? ==> w.read == c.first)
  }

  ghost predicate Inv(c: Config, s: State) {
    Rendezvous(c, s) && Flags(s) && Mapping(c, s.m, s.main) && Fields(c, s.m, s.main) && Registers(c, s)
  }

  /** A step of the worker changes at most the acknowledgement: its loads are allowed, its
      comparisons succeed, and it stores back the value that is there. */
  lemma WorkerTouches(c: Config, s: State)
    requires Inv(c, s)
    ensures var m := Next(c, s, WorkerStep).m; m == s.m.(ack := m.ack)
    ensures s.worker.pc !in {AckWarm, AckVerify} ==> Next(c, s, WorkerStep).m == s.m
  {
    if s.worker.pc.StoreBack? {
      assert s.m.pages[0 := c.first] == s.m.pages;
    }
  }

  lemma WorkerTakesTurns(c: Config, s: State)
    requires Inv(c, s)
    ensures Rendezvous(c, Next(c, s, WorkerStep))
  {
    hide Mapping, Fields, Registers, Memory.Touch, Memory.Store, Memory.Expect, Memory.Value;
    WorkerTouches(c, s);
  }

  lemma WorkerWarms(c: Config, s: State)
    requires Inv(c, s) && (AtWarm(s.worker.pc) || Warming(s.worker.pc))
    ensures Registers(c, Next(c, s, WorkerStep))
  {
    hide Memory.Writable, HoldsValue, Replaced;
    if Warming(s.worker.pc) {
      assert s.main.pc.WaitWarm?;
    }
  }

  lemma WorkerVerifies(c: Config, s: State)
    requires Inv(c, s) && !AtWarm(s.worker.pc) && !Warming(s.worker.pc)
    ensures Registers(c, Next(c, s, WorkerStep))
  {
    hide Flags, Memory.Writable;
    if Verifying(s.worker.pc) {
      assert s.main.pc.WaitVerify?;
    }
  }

  lemma WorkerKeeps(c: Config, s: State)
    requires Inv(c, s)
    ensures Inv(c, Next(c, s, WorkerStep))
  {
    WorkerTakesTurns(c, s);
    WorkerTouches(c, s);
    if AtWarm(s.worker.pc) || Warming(s.worker.pc) {
      WorkerWarms(c, s);
    } else {
      WorkerVerifies(c, s);
    }
    hide Rendezvous, Registers, AdvanceWorker;
  }

  lemma MainPrepares(c: Config, s: State, e: Event)
    requires Inv(c, s) && e.MainStep? && Preparing(s.main.pc)
    ensures Inv(c, Next(c, s, e))
  {
    hide Protect;
  }

  predicate Standing(pc: MainPc) { pc in {WaitWarm, WaitVerify, Abort, Join, End} }

  lemma MainWaits(c: Config, s: State, e: Event)
    requires Inv(c, s) && e.MainStep? && Standing(s.main.pc)
    ensures Inv(c, Next(c, s, e))
  {
    hide Protect, HoldsValue, HoldsOriginal;
  }

  predicate Calling(pc: MainPc) { pc in {ProtectRead, ProtectWrite, Remap, Replace} }

  lemma MainCallFails(c: Config, s: State, e: Event)
    requires Inv(c, s) && e.MainStep? && Calling(s.main.pc) && !e.ok
    ensures Inv(c, Next(c, s, e))
  {
    hide Protect, HoldsValue, HoldsOriginal;
  }

  lemma MainProtects(c: Config, s: State, e: Event)
    requires Inv(c, s) && e.MainStep? && s.main.pc in {ProtectRead, ProtectWrite} && e.ok
    ensures Inv(c, Next(c, s, e))
  {
  }

  lemma MainMoves(c: Config, s: State, e: Event)
    requires Inv(c, s) && e.MainStep? && s.main.pc in {Remap, Replace} && e.ok
    ensures Inv(c, Next(c, s, e))
  {
    hide Protect;
  }

  lemma MainFills(c: Config, s: State, e: Event)
    requires Inv(c, s) && e.MainStep?
    requires !Preparing(s.main.pc) && !Calling(s.main.pc) && !Standing(s.main.pc)
    ensures Inv(c, Next(c, s, e))
  {
    hide Protect;
  }

  lemma StepInv(c: Config, s: State, e: Event)
    requires Inv(c, s)
    ensures Inv(c, Next(c, s, e))
  {
    hide Inv, Next;
    if e.WorkerStep? {
      WorkerKeeps(c, s);
    } else if Preparing(s.main.pc) {
      MainPrepares(c, s, e);
    } else if Calling(s.main.pc) {
      if !e.ok {
        MainCallFails(c, s, e);
      } else if s.main.pc in {Remap, Replace} {
        MainMoves(c, s, e);
      } else {
        MainProtects(c, s, e);
      }
    } else if Standing(s.main.pc) {
      MainWaits(c, s, e);
    } else {
      MainFills(c, s, e);
    }
  }

  // ---- Whole runs ----

  function Run(c: Config, events: seq<Event>): State {
    if events == [] then Initial(c) else Next(c, Run(c, events[..|events| - 1]), events[|events| - 1])
  }

  lemma {:induction false} RunInv(c: Config, events: seq<Event>)
    ensures Inv(c, Run(c, events))
  {
    hide Next;
    if events != [] {
      hide Inv;
      RunInv(c, events[..|events| - 1]);
      StepInv(c, Run(c, events[..|events| - 1]), events[|events| - 1]);
    }
  }

  /** The worker never reports a wrong value and never touches a page it may not: not while the
      page is read-only, unmapped, or being moved. */
  lemma {:induction false} NeverFailsOrFaults(c: Config, events: seq<Event>)
    ensures var m := Run(c, events).m; m.failures == 0 && !m.faulted
  {
    hide Run;
    RunInv(c, events);
  }

  /** Pcs at which the worker's next step reads one of the plain variables. */
  predicate ReadsPlain(pc: WorkerPc) { pc in {LoadCurrent, LoadOld, ReloadCurrent, LoadOther, CompareNew, CompareOld} }

  predicate WritesPlain(pc: MainPc) { pc in {SetCurrent, SetOther, SetOld, ResetCurrent, ResetOther, ResetOld, SetNew} }

  /** The plain variables are written only while the worker spins on the phase; the page tables
      change only then too. */
  lemma {:induction false} NoPlainRace(c: Config, events: seq<Event>)
    ensures var s := Run(c, events);
            WritesPlain(s.main.pc) || Calling(s.main.pc) ==>
              (AtWarm(s.worker.pc) || AtVerify(s.worker.pc)) && !ReadsPlain(s.worker.pc)
  {
    hide Run, Mapping, Fields, Registers, Flags;
    RunInv(c, events);
  }

  /** During the verification of round r the moved page is the original one and shows the old
      value through its new address, and the replaced page shows the new one. */
  lemma {:induction false} WorkerSeesBothPages(c: Config, events: seq<Event>)
    ensures var s := Run(c, events);
            Verifying(s.worker.pc) ==>
              && s.m.vmOther == !s.m.vmCurrent
              && s.m.table.At(s.m.vmOther) == Mapped(0, true) && s.m.Value(s.m.vmOther) == s.m.vmOld == c.first
              && s.m.Value(s.m.vmCurrent) == s.m.vmNew == c.stamp(s.worker.round)
  {
    hide Run, Registers, Flags;
    RunInv(c, events);
  }

  function StepsLeft(pc: WorkerPc): nat { if pc.Done? then 0 else if pc.AbortVerify? then 1 else 2 }

  function WorkerSteps(events: seq<Event>): nat {
    if events == [] then 0
    else WorkerSteps(events[..|events| - 1]) + if events[|events| - 1].WorkerStep? then 1 else 0
  }

  lemma AbortStep(c: Config, s: State, e: Event)
    requires Inv(c, s) && s.m.abort
    ensures var s' := Next(c, s, e);
            && s'.m.abort
            && StepsLeft(s'.worker.pc) <= if e.WorkerStep? && !s.worker.pc.Done? then StepsLeft(s.worker.pc) - 1
                                           else StepsLeft(s.worker.pc)
  {
    hide Mapping, Fields, Registers;
  }

  /** Once the abort flag is set the worker ends after at most two more steps of its own, however
      the main thread's steps fall between them. */
  lemma {:induction false} AbortReleasesWorker(c: Config, events: seq<Event>, more: seq<Event>)
    requires Run(c, events).m.abort
    ensures var s := Run(c, events + more);
            && s.m.abort && StepsLeft(s.worker.pc) <= 2
            && (WorkerSteps(more) < 2 ==> StepsLeft(s.worker.pc) <= 2 - WorkerSteps(more))
            && (WorkerSteps(more) >= 2 ==> s.worker.pc.Done?)
  {
    hide Next;
    if more == [] {
      assert events + more == events;
    } else {
      var front, e := more[..|more| - 1], more[|more| - 1];
      AbortReleasesWorker(c, events, front);
      RunInv(c, events + front);
      AbortStep(c, Run(c, events + front), e);
      assert (events + more)[..|events + more| - 1] == events + front;
      hide Inv;
    }
  }

  predicate MainWaiting(m: Memory, main: Main, worker: Worker) {
    match main.pc
    case WaitWarm => m.ack != main.round * 2 + 1
    case WaitVerify => m.ack != main.round * 2 + 2
    case Join => !worker.pc.Done?
    case End => true
    case _ => false
  }

  predicate WorkerWaiting(m: Memory, w: Worker) {
    match w.pc
    case SpinWarm | AbortWarm => m.phase != w.round * 2 + 1 && !m.abort
    case SpinVerify | AbortVerify => m.phase != w.round * 2 + 2 && !m.abort
    case Done => true
    case _ => false
  }

  /** The two threads wait for each other only when both have finished, whatever calls failed. */
  lemma {:induction false} NoDeadlock(c: Config, events: seq<Event>)
    ensures var s := Run(c, events);
            MainWaiting(s.m, s.main, s.worker) && WorkerWaiting(s.m, s.worker) ==>
              s.main.pc.End? && s.worker.pc.Done?
  {
    hide Run, Mapping, Fields, Registers;
    RunInv(c, events);
  }

  /** A run with no failed call ends after all rounds with the original page, still holding its
      first value, at one address and the last new value at the other. */
  lemma {:induction false} Outcome(c: Config, events: seq<Event>)
    requires Run(c, events).main.pc.End? && !Run(c, events).main.failed
    ensures var s := Run(c, events);
            var home := c.rounds % 2 == 1;
            && s.worker.round == c.rounds
            && s.m.table.At(home) == Mapped(0, true) && s.m.Value(home) == c.first
            && s.m.Value(!home) == (if c.rounds == 0 then c.second else c.stamp(c.rounds - 1))
  {
    hide Run, Registers;
    RunInv(c, events);
  }
}
