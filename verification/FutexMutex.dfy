/** The three-state futex mutex of sw/linux-user-tests/openrv64_user_stress.c under test_futex_mutex:
    `workers` threads and the test's own thread, which starts as the holder, interleaved at every
    shared access. The protected increment is a separate read and write. */
module FutexMutex {
  import opened Options

  datatype Config = Config(workers: nat, iterations: nat)

  datatype Pc =
    | Poll          // the test thread waits until every worker has been seen waiting
    | Lock          // compare-exchange 0 -> 1
    | Exchange      // exchange with 2
    | CountWait     // futex_wait_calls += 1
    | FutexWait     // FUTEX_WAIT while the word is 2
    | Asleep
    | ReadCounter   // futex_counter++ reads ...
    | WriteCounter  // ... and writes
    | Unlock        // fetch_sub 1
    | StoreZero     // the mutex was contended
    | Wake          // FUTEX_WAKE one sleeper
    | Done

  /** incs and waits are history: increments and wait calls made by this thread. */
  datatype Thread = Thread(pc: Pc, read: nat, left: nat, incs: nat, waits: nat)

  /** holder and released are history: who acquired last without releasing, and whether the test
      thread has stopped polling. */
  datatype Shared = Shared(word: int, counter: nat, waitCalls: nat, holder: Option<nat>, released: bool)

  /** Workers are threads 0 .. workers - 1, the test thread is number `workers`. */
  datatype State = State(shared: Shared, threads: seq<Thread>)

  /** A thread runs one step, waking `woken` if that step is a wake; or a sleeping FUTEX_WAIT
      returns on its own. */
  datatype Event = Run(thread: nat, woken: Option<nat>) | Return(thread: nat)

  ghost function Initial(c: Config): State {
    State(Shared(1, 0, 0, Some(c.workers), false),
          seq(c.workers, _ => Thread(if c.iterations > 0 then Lock else Done, 0, c.iterations, 0, 0))
          + [Thread(Poll, 0, 1, 0, 0)])
  }

  predicate CanRun(th: Thread) { !th.pc.Asleep? && !th.pc.Done? && th.left > 0 }

  /** Leave raw_futex_unlock: the next iteration, or the end. */
  function Leave(th: Thread): Thread
    requires th.left > 0
  {
    th.(pc := if th.left > 1 then Lock else Done, left := th.left - 1)
  }

  /** One atomic step of thread t. */
  function Advance(c: Config, t: nat, g: Shared, th: Thread): (Shared, Thread)
    requires CanRun(th)
  {
    match th.pc
    case Poll =>
      if g.waitCalls >= c.workers then (g.(released := true), th.(pc := Unlock)) else (g, th)
    case Lock =>
      if g.word == 0 then (g.(word := 1, holder := Some(t)), th.(pc := ReadCounter))
      else (g, th.(pc := Exchange))
    case Exchange =>
      if g.word == 0 then (g.(word := 2, holder := Some(t)), th.(pc := ReadCounter))
      else (g.(word := 2), th.(pc := CountWait))
    case CountWait => (g.(waitCalls := g.waitCalls + 1), th.(pc := FutexWait, waits := th.waits + 1))
    case FutexWait => (g, th.(pc := if g.word == 2 then Asleep else Exchange))
    case ReadCounter => (g, th.(pc := WriteCounter, read := g.counter))
    case WriteCounter => (g.(counter := th.read + 1), th.(pc := Unlock, incs := th.incs + 1))
    case Unlock =>
      if g.word == 1 then (g.(word := 0, holder := None), Leave(th))
      else (g.(word := g.word - 1), th.(pc := StoreZero))
    case StoreZero => (g.(word := 0, holder := None), th.(pc := Wake))
    case Wake => (g, Leave(th))
  }

  ghost predicate Sleeping(s: State, u: nat) { u < |s.threads| && s.threads[u].pc.Asleep? }

  /** FUTEX_WAKE 1 wakes a sleeper when there is one. */
  ghost predicate WakesOne(s: State, woken: Option<nat>) {
    match woken
    case None => forall u: nat :: !Sleeping(s, u)
    case Some(u) => Sleeping(s, u)
  }

  function WakeUp(threads: seq<Thread>, u: nat): seq<Thread>
    requires u < |threads|
  {
    threads[u := threads[u].(pc := Exchange)]
  }

  ghost predicate Step(c: Config, s: State, e: Event, s': State) {
    && e.thread < |s.threads|
    && match e
       case Return(t) => Sleeping(s, t) && s' == s.(threads := WakeUp(s.threads, t))
       case Run(t, woken) =>
         && CanRun(s.threads[t])
         && var (g, th) := Advance(c, t, s.shared, s.threads[t]);
            var moved := s.threads[t := th];
            if s.threads[t].pc.Wake? then
              && WakesOne(s, woken)
              && s' == State(g, if woken.Some? && woken.value < |moved| then WakeUp(moved, woken.value) else moved)
            else s' == State(g, moved)
  }

  // ---- Invariant ----

  predicate InCritical(pc: Pc) { pc in {Poll, ReadCounter, WriteCounter, Unlock, StoreZero} }

  /** What holds of one thread, given the shared words. */
  predicate Local(c: Config, g: Shared, t: nat, th: Thread) {
    && (InCritical(th.pc) <==> g.holder == Some(t))
    && (th.pc.Done? <==> th.left == 0)
    && (th.pc.WriteCounter? ==> th.read == g.counter)
    && (if t < c.workers then
          && !th.pc.Poll?
          && th.incs + th.left == c.iterations + (if th.pc in {Unlock, StoreZero, Wake} then 1 else 0)
          && (!g.released && !th.pc.Done? ==> th.pc in {Lock, Exchange, CountWait, FutexWait, Asleep} && th.left == c.iterations)
          && (!g.released && th.pc.Done? ==> c.iterations == 0)
          && (th.pc in {FutexWait, Asleep} ==> th.waits >= 1)
        else
          && th.pc in {Poll, Unlock, StoreZero, Wake, Done} && th.left <= 1 && th.incs == 0 && th.waits == 0
          && (th.pc.Poll? <==> !g.released))
  }

  function Incs(threads: seq<Thread>): nat {
    if threads == [] then 0 else Incs(threads[..|threads| - 1]) + threads[|threads| - 1].incs
  }

  function Waits(threads: seq<Thread>): nat {
    if threads == [] then 0 else Waits(threads[..|threads| - 1]) + threads[|threads| - 1].waits
  }

  /** The word is 0, 1 or 2, and nonzero exactly while someone holds the mutex or has yet to
      store the zero of a contended unlock. */
  predicate WordOk(c: Config, g: Shared) {
    && 0 <= g.word <= 2 && (g.word != 0 <==> g.holder.Some?)
    && (g.holder.Some? ==> g.holder.value <= c.workers)
    && (if g.released then g.waitCalls >= c.workers else g.holder == Some(c.workers))
  }

  ghost predicate Signals(s: State, u: nat) {
    u < |s.threads| && s.threads[u].pc in {StoreZero, Wake, Exchange}
  }

  /** A sleeper implies a contended word, an unlocker that has yet to wake, or an awake thread
      that is about to mark the word contended again. */
  ghost predicate NoLostWakeup(s: State) {
    (exists t: nat :: Sleeping(s, t)) ==> s.shared.word == 2 || exists u: nat :: Signals(s, u)
  }

  ghost predicate Locals(c: Config, s: State) {
    && |s.threads| == c.workers + 1
    && forall t :: 0 <= t <= c.workers ==> Local(c, s.shared, t, s.threads[t])
  }

  ghost predicate Inv(c: Config, s: State) {
    && Locals(c, s) && WordOk(c, s.shared) && NoLostWakeup(s)
    && s.shared.counter == Incs(s.threads) && s.shared.waitCalls == Waits(s.threads)
  }

  lemma {:induction false} TalliesUpdate(threads: seq<Thread>, i: nat, th: Thread)
    requires i < |threads|
    ensures Incs(threads[i := th]) == Incs(threads) - threads[i].incs + th.incs
    ensures Waits(threads[i := th]) == Waits(threads) - threads[i].waits + th.waits
  {
    var last := |threads| - 1;
    if i < last {
      assert threads[i := th][..last] == threads[..last][i := th];
      TalliesUpdate(threads[..last], i, th);
    } else {
      assert threads[i := th][..last] == threads[..last];
    }
  }

  lemma {:induction false} TalliesOfFresh(threads: seq<Thread>)
    requires forall t :: 0 <= t < |threads| ==> threads[t].incs == threads[t].waits == 0
    ensures Incs(threads) == Waits(threads) == 0
  {
    if threads != [] {
      TalliesOfFresh(threads[..|threads| - 1]);
    }
  }

  lemma InitialInv(c: Config)
    ensures Inv(c, Initial(c))
  {
    TalliesOfFresh(Initial(c).threads);
  }

  /** A thread's own step, and a step of another thread, keep its local facts. */
  lemma AdvanceKeeps(c: Config, t: nat, g: Shared, th: Thread)
    requires CanRun(th) && t <= c.workers && Local(c, g, t, th) && WordOk(c, g)
    ensures var (g', th') := Advance(c, t, g, th);
            && Local(c, g', t, th') && WordOk(c, g')
            && g'.counter == g.counter + th'.incs - th.incs && g'.waitCalls == g.waitCalls + th'.waits - th.waits
  {
  }

  lemma AdvanceSpares(c: Config, t: nat, g: Shared, th: Thread, u: nat, other: Thread)
    requires CanRun(th) && t <= c.workers && u <= c.workers && t != u
    requires Local(c, g, t, th) && Local(c, g, u, other) && WordOk(c, g)
    ensures Local(c, Advance(c, t, g, th).0, u, other)
  {
  }

  lemma WakeKeeps(c: Config, g: Shared, u: nat, th: Thread)
    requires Local(c, g, u, th) && th.pc.Asleep?
    ensures Local(c, g, u, th.(pc := Exchange))
  {
  }

  lemma StepLocals(c: Config, s: State, e: Event, s': State)
    requires Inv(c, s) && Step(c, s, e, s')
    ensures Locals(c, s') && WordOk(c, s'.shared)
    ensures s'.shared.counter == Incs(s'.threads) && s'.shared.waitCalls == Waits(s'.threads)
  {
    hide NoLostWakeup, Incs, Waits;
    var t := e.thread;
    var th := s.threads[t];
    if e.Run? {
      AdvanceKeeps(c, t, s.shared, th);
      var (g, th') := Advance(c, t, s.shared, th);
      TalliesUpdate(s.threads, t, th');
      forall u | 0 <= u <= c.workers && u != t
        ensures Local(c, g, u, s.threads[u])
      {
        AdvanceSpares(c, t, s.shared, th, u, s.threads[u]);
      }
      hide Advance, Local, WordOk;
      var moved := s.threads[t := th'];
      if th.pc.Wake? && e.woken.Some? && e.woken.value < |moved| {
        WokenKeeps(c, State(g, moved), s, e.woken);
      }
    } else {
      WakeKeeps(c, s.shared, t, th);
      TalliesUpdate(s.threads, t, th.(pc := Exchange));
    }
  }

  lemma WokenKeeps(c: Config, moved: State, s: State, woken: Option<nat>)
    requires Locals(c, moved) && woken.Some? && WakesOne(s, woken) && |s.threads| == |moved.threads|
    requires moved.threads[woken.value] == s.threads[woken.value]
    ensures var threads := WakeUp(moved.threads, woken.value);
            && Locals(c, moved.(threads := threads))
            && Incs(threads) == Incs(moved.threads) && Waits(threads) == Waits(moved.threads)
  {
    var u := woken.value;
    WakeKeeps(c, moved.shared, u, moved.threads[u]);
    TalliesUpdate(moved.threads, u, moved.threads[u].(pc := Exchange));
    hide Local;
  }

  lemma StepNoLostWakeup(c: Config, s: State, e: Event, s': State)
    requires Inv(c, s) && Step(c, s, e, s')
    ensures NoLostWakeup(s')
  {
    hide Local, WordOk, Incs, Waits;
    var t := e.thread;
    if u: nat :| Sleeping(s', u) {
      if Signals(s', t) || s'.shared.word == 2 {
      } else if e.Run? && s.threads[t].pc.Wake? {
        assert Sleeping(s, u);
        assert Signals(s', e.woken.value);
      } else if Sleeping(s, u) {
        OthersStillSignal(c, s, e, s', u);
      }
    }
  }

  lemma OthersStillSignal(c: Config, s: State, e: Event, s': State, u: nat)
    requires Inv(c, s) && Step(c, s, e, s') && Sleeping(s, u)
    requires e.Run? && !s.threads[e.thread].pc.Wake?
    requires !Signals(s', e.thread) && s'.shared.word != 2
    ensures exists w: nat :: Signals(s', w)
  {
    hide Incs, Waits;
    var t := e.thread;
    assert Local(c, s.shared, t, s.threads[t]);
    assert s.shared.word != 2;
    var w: nat :| Signals(s, w);
    assert w != t;
    assert Signals(s', w);
  }

  /** Every step of every interleaving keeps the invariant. */
  lemma StepInv(c: Config, s: State, e: Event, s': State)
    requires Inv(c, s) && Step(c, s, e, s')
    ensures Inv(c, s')
  {
    hide Locals, WordOk, NoLostWakeup, Incs, Waits;
    StepLocals(c, s, e, s');
    StepNoLostWakeup(c, s, e, s');
  }

  // ---- Whole runs ----

  ghost predicate Trace(c: Config, states: seq<State>, events: seq<Event>) {
    && |states| == |events| + 1 && states[0] == Initial(c)
    && forall k :: 0 <= k < |events| ==> Step(c, states[k], events[k], states[k + 1])
  }

  lemma {:induction false} TraceInv(c: Config, states: seq<State>, events: seq<Event>)
    requires Trace(c, states, events)
    ensures Inv(c, states[|events|])
  {
    hide Step, Inv;
    if events == [] {
      InitialInv(c);
    } else {
      var n := |events| - 1;
      TraceInv(c, states[..n + 1], events[..n]);
      StepInv(c, states[n], events[n], states[n + 1]);
    }
  }

  /** Mutual exclusion, and what the word says about it, in every interleaving. */
  lemma MutualExclusion(c: Config, states: seq<State>, events: seq<Event>, t: nat, u: nat)
    requires Trace(c, states, events) && t < u <= c.workers
    ensures var s := states[|events|];
            && |s.threads| == c.workers + 1
            && !(InCritical(s.threads[t].pc) && InCritical(s.threads[u].pc))
            && 0 <= s.shared.word <= 2
            && (s.shared.word != 0 <==> exists h :: 0 <= h < |s.threads| && InCritical(s.threads[h].pc))
  {
    hide Step, NoLostWakeup, Incs, Waits;
    TraceInv(c, states, events);
    var s := states[|events|];
    assert Local(c, s.shared, t, s.threads[t]) && Local(c, s.shared, u, s.threads[u]);
    if s.shared.word != 0 {
      assert Local(c, s.shared, s.shared.holder.value, s.threads[s.shared.holder.value]);
    }
    if h: nat :| h < |s.threads| && InCritical(s.threads[h].pc) {
      assert Local(c, s.shared, h, s.threads[h]);
    }
  }

  ghost predicate Finished(s: State) { forall t :: 0 <= t < |s.threads| ==> s.threads[t].pc.Done? }

  lemma {:induction false} TalliesOfDone(c: Config, g: Shared, threads: seq<Thread>)
    requires |threads| <= c.workers
    requires forall t :: 0 <= t < |threads| ==> Local(c, g, t, threads[t]) && threads[t].pc.Done?
    ensures Incs(threads) == |threads| * c.iterations
  {
    if threads != [] {
      TalliesOfDone(c, g, threads[..|threads| - 1]);
    }
  }

  /** No increment is lost: when all threads are done the counter is workers * iterations, the
      mutex is free, and the test's other check, that some worker waited, passes as well. */
  lemma FinalCounter(c: Config, states: seq<State>, events: seq<Event>)
    requires Trace(c, states, events) && Finished(states[|events|])
    ensures var g := states[|events|].shared;
            && g.counter == c.workers * c.iterations && g.word == 0
            && (c.workers > 0 ==> g.waitCalls > 0)
  {
    hide Step, NoLostWakeup;
    TraceInv(c, states, events);
    var s := states[|events|];
    var workers := s.threads[..c.workers];
    assert forall t :: 0 <= t < c.workers ==> Local(c, s.shared, t, workers[t]) && workers[t].pc.Done?;
    TalliesOfDone(c, s.shared, workers);
    assert Local(c, s.shared, c.workers, s.threads[c.workers]);
    forall h | 0 <= h <= c.workers
      ensures s.shared.holder != Some(h)
    {
      assert Local(c, s.shared, h, s.threads[h]);
    }
    hide Local;
  }

  /** A thread whose next step changes something: awake, and not polling in vain. */
  ghost predicate Moves(c: Config, s: State, t: nat) {
    && t < |s.threads| && CanRun(s.threads[t])
    && (s.threads[t].pc.Poll? ==> s.shared.waitCalls >= c.workers)
  }

  lemma {:induction false} SomeoneUncounted(c: Config, g: Shared, threads: seq<Thread>)
    requires |threads| <= c.workers && Waits(threads) < |threads|
    ensures exists t :: 0 <= t < |threads| && threads[t].waits == 0
  {
    var last := |threads| - 1;
    if threads[last].waits > 0 {
      SomeoneUncounted(c, g, threads[..last]);
      var t :| 0 <= t < last && threads[..last][t].waits == 0;
      assert threads[t].waits == 0;
    }
  }

  /** While the test thread polls, some worker is still on its way to its first wait. */
  lemma PollingIsFed(c: Config, s: State) returns (t: nat)
    requires Inv(c, s) && c.iterations > 0 && !s.shared.released && s.shared.waitCalls < c.workers
    ensures t < |s.threads| && CanRun(s.threads[t]) && s.threads[t].waits == 0
    ensures s.threads[t].pc in {Lock, Exchange, CountWait}
  {
    hide NoLostWakeup;
    var workers := s.threads[..c.workers];
    assert Local(c, s.shared, c.workers, s.threads[c.workers]);
    assert Waits(s.threads) == Waits(workers) + 0;
    SomeoneUncounted(c, s.shared, workers);
    t :| 0 <= t < |workers| && workers[t].waits == 0;
    assert Local(c, s.shared, t, s.threads[t]);
  }

  /** No wakeup is lost and nothing deadlocks: with at least one iteration, until all threads are
      done some thread can take a step that is not a vain poll. */
  lemma DeadlockFree(c: Config, states: seq<State>, events: seq<Event>)
    requires Trace(c, states, events) && c.iterations > 0 && !Finished(states[|events|])
    ensures exists t: nat :: Moves(c, states[|events|], t)
  {
    TraceInv(c, states, events);
    var s := states[|events|];
    hide Step, Incs, Waits;
    if !s.shared.released && s.shared.waitCalls < c.workers {
      var t := PollingIsFed(c, s);
      assert Moves(c, s, t);
    } else {
      var t :| 0 <= t < |s.threads| && !s.threads[t].pc.Done?;
      assert Local(c, s.shared, t, s.threads[t]);
      if Sleeping(s, t) {
        SleeperHasWaker(c, s, t);
      } else {
        assert Moves(c, s, t);
      }
    }
  }

  lemma SleeperHasWaker(c: Config, s: State, t: nat)
    requires Inv(c, s) && Sleeping(s, t) && (s.shared.released || s.shared.waitCalls >= c.workers)
    ensures exists u: nat :: Moves(c, s, u)
  {
    hide Incs, Waits;
    if s.shared.word == 2 {
      var h := s.shared.holder.value;
      assert Local(c, s.shared, h, s.threads[h]);
      assert Moves(c, s, h);
    } else {
      var u: nat :| Signals(s, u);
      assert Local(c, s.shared, u, s.threads[u]);
      assert Moves(c, s, u);
    }
  }

  // ---- The end is reached ----

  function Stage(pc: Pc): nat {
    match pc case Done => 0 case Wake => 1 case StoreZero => 2 case Unlock => 3 case WriteCounter => 4 case Poll => 4
             case ReadCounter => 5 case _ => 6
  }

  /** What a thread still has to do inside the mutex. */
  function Work(th: Thread): nat { 7 * th.left + Stage(th.pc) }

  /** How far a thread outside the mutex is from its next try to get in, or from its first wait. */
  function Away(th: Thread): nat {
    match th.pc
    case Lock => 6
    case Exchange => if th.waits == 0 then 5 else 2
    case CountWait => 4
    case FutexWait => 3
    case _ => 0
  }

  function TotalWork(threads: seq<Thread>): nat {
    if threads == [] then 0 else TotalWork(threads[..|threads| - 1]) + Work(threads[|threads| - 1])
  }

  function TotalAway(threads: seq<Thread>): nat {
    if threads == [] then 0 else TotalAway(threads[..|threads| - 1]) + Away(threads[|threads| - 1])
  }

  lemma {:induction false} TotalsUpdate(threads: seq<Thread>, i: nat, th: Thread)
    requires i < |threads|
    ensures TotalWork(threads[i := th]) == TotalWork(threads) - Work(threads[i]) + Work(th)
    ensures TotalAway(threads[i := th]) == TotalAway(threads) - Away(threads[i]) + Away(th)
  {
    hide Work, Away;
    var last := |threads| - 1;
    if i < last {
      assert threads[i := th][..last] == threads[..last][i := th];
      TotalsUpdate(threads[..last], i, th);
    } else {
      assert threads[i := th][..last] == threads[..last];
    }
  }

  /** No step of any interleaving undoes work. */
  lemma StepWorks(c: Config, s: State, e: Event, s': State)
    requires Inv(c, s) && Step(c, s, e, s')
    ensures TotalWork(s'.threads) <= TotalWork(s.threads)
  {
    hide NoLostWakeup, WordOk, Incs, Waits, TotalWork, TotalAway;
    var t := e.thread;
    var th := s.threads[t];
    assert Local(c, s.shared, t, th);
    if e.Run? {
      var (g, th') := Advance(c, t, s.shared, th);
      TotalsUpdate(s.threads, t, th');
      var moved := s.threads[t := th'];
      if th.pc.Wake? && e.woken.Some? && e.woken.value < |moved| {
        TotalsUpdate(moved, e.woken.value, moved[e.woken.value].(pc := Exchange));
      }
    } else {
      TotalsUpdate(s.threads, t, th.(pc := Exchange));
    }
  }

  /** The wait calls that the test thread polls for. */
  function Missing(c: Config, g: Shared): nat { if g.waitCalls < c.workers then c.workers - g.waitCalls else 0 }

  /** Less work left, or fewer wait calls missing, or closer to one of these. */
  ghost predicate Below(c: Config, s': State, s: State) {
    || TotalWork(s'.threads) < TotalWork(s.threads)
    || (TotalWork(s'.threads) == TotalWork(s.threads)
        && (|| Missing(c, s'.shared) < Missing(c, s.shared)
            || (Missing(c, s'.shared) == Missing(c, s.shared) && TotalAway(s'.threads) < TotalAway(s.threads))))
  }

  /** A thread whose step brings the end closer. */
  ghost predicate Helps(c: Config, s: State, t: nat) {
    && t < |s.threads| && CanRun(s.threads[t])
    && match s.threads[t].pc
       case Poll => s.shared.waitCalls >= c.workers
       case Lock => s.shared.word == 0 || s.threads[t].waits == 0
       case Exchange => s.shared.word == 0 || s.threads[t].waits == 0
       case CountWait => true
       case FutexWait => s.shared.word != 2
       case _ => true
  }

  lemma HelpsLowers(c: Config, s: State, t: nat) returns (e: Event, s': State)
    requires Inv(c, s) && Helps(c, s, t)
    ensures Step(c, s, e, s') && Below(c, s', s)
  {
    hide NoLostWakeup, Incs, Waits, TotalWork, TotalAway;
    var th := s.threads[t];
    assert Local(c, s.shared, t, th);
    var (g, th') := Advance(c, t, s.shared, th);
    var moved := s.threads[t := th'];
    TotalsUpdate(s.threads, t, th');
    if th.pc.Wake? {
      if u: nat :| Sleeping(s, u) {
        e, s' := Run(t, Some(u)), State(g, WakeUp(moved, u));
        TotalsUpdate(moved, u, moved[u].(pc := Exchange));
      } else {
        e, s' := Run(t, None), State(g, moved);
      }
    } else {
      e, s' := Run(t, None), State(g, moved);
    }
  }

  lemma SomeoneHelps(c: Config, s: State) returns (t: nat)
    requires Inv(c, s) && c.iterations > 0 && !Finished(s)
    ensures Helps(c, s, t)
  {
    hide Incs, Waits;
    if !s.shared.released && s.shared.waitCalls < c.workers {
      t := PollingIsFed(c, s);
    } else if s.shared.holder.Some? {
      t := s.shared.holder.value;
      assert Local(c, s.shared, t, s.threads[t]);
    } else {
      t :| 0 <= t < |s.threads| && !s.threads[t].pc.Done?;
      if s.threads[t].pc.Asleep? {
        assert Sleeping(s, t);
        t :| Signals(s, t);
      }
      assert Local(c, s.shared, t, s.threads[t]);
    }
  }

  /** From every reachable state the threads can finish, with at least one iteration: every trace
      extends to a finished one. */
  lemma {:induction false} EndReachable(c: Config, states: seq<State>, events: seq<Event>)
    returns (longer: seq<State>, more: seq<Event>)
    requires Trace(c, states, events) && c.iterations > 0
    ensures Trace(c, longer, more) && states <= longer && events <= more && Finished(longer[|more|])
    decreases TotalWork(states[|events|].threads), Missing(c, states[|events|].shared), TotalAway(states[|events|].threads)
  {
    var s := states[|events|];
    if Finished(s) {
      return states, events;
    }
    TraceInv(c, states, events);
    var t := SomeoneHelps(c, s);
    var e, s' := HelpsLowers(c, s, t);
    hide Inv, Step, Finished, Helps;
    longer, more := EndReachable(c, states + [s'], events + [e]);
  }

  /** With no iterations and some worker, the test thread polls for ever: it never finishes. */
  lemma NothingToWaitFor(c: Config, states: seq<State>, events: seq<Event>)
    requires Trace(c, states, events) && c.iterations == 0 && c.workers > 0
    ensures !Finished(states[|events|]) && forall t: nat :: !Moves(c, states[|events|], t)
    decreases |events|
  {
    hide Step;
    if events == [] {
      assert !states[0].threads[c.workers].pc.Done?;
    } else {
      var n := |events| - 1;
      NothingToWaitFor(c, states[..n + 1], events[..n]);
      TraceInv(c, states[..n + 1], events[..n]);
      VainStep(c, states[n], events[n], states[n + 1]);
    }
  }

  lemma VainStep(c: Config, s: State, e: Event, s': State)
    requires Inv(c, s) && Step(c, s, e, s') && c.iterations == 0 && c.workers > 0
    requires !Finished(s) && forall t: nat :: !Moves(c, s, t)
    ensures s' == s
  {
    hide NoLostWakeup, Incs, Waits;
    var t := e.thread;
    assert Local(c, s.shared, t, s.threads[t]);
    assert !Moves(c, s, t);
    assert s.threads[t := s.threads[t]] == s.threads;
  }
}
