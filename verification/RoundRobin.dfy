/** The two turn-taking workloads of sw/linux-user-tests/openrv64_user_stress.c, worker_cas_turn
    and do_handoff, for any number of workers and iterations. */
module RoundRobin {
  import opened Arithmetic

  datatype Config = Config(workers: nat, iterations: nat)

  /** A position in the round-robin: `round` full rounds, then `turn` workers of the next. */
  datatype Position = Position(round: nat, turn: nat)

  function Next(c: Config, p: Position): Position {
    if p.turn + 1 == c.workers then Position(p.round + 1, 0) else Position(p.round, p.turn + 1)
  }

  /** Rounds that worker t has finished at position p. */
  function RoundsOf(p: Position, t: nat): nat { p.round + if t < p.turn then 1 else 0 }

  ghost predicate InRange(c: Config, p: Position) {
    c.workers > 0 && p.turn < c.workers && (p.round < c.iterations || p == Position(c.iterations, 0))
  }

  /** The number of turns taken at p. */
  function Turns(c: Config, p: Position): nat { p.round * c.workers + p.turn }

  lemma NextTurns(c: Config, p: Position)
    requires c.workers > 0
    ensures Turns(c, Next(c, p)) == Turns(c, p) + 1
  {
    assert (p.round + 1) * c.workers == p.round * c.workers + c.workers;
  }

  /** The value a worker waits for is the current one exactly on its own turn. */
  lemma TargetIsOwnTurn(c: Config, p: Position, t: nat)
    requires t < c.workers && p.turn < c.workers
    ensures RoundsOf(p, t) * c.workers + t == Turns(c, p) <==> t == p.turn
  {
    assert (p.round + 1) * c.workers == p.round * c.workers + c.workers;
  }

  // ---- worker_cas_turn ----

  /** position is history: it advances with each successful compare-exchange. */
  datatype CasState = CasState(counter: nat, index: seq<nat>, position: Position)

  ghost function CasInitial(c: Config): CasState {
    CasState(0, seq(c.workers, _ => 0), Position(0, 0))
  }

  function Target(c: Config, s: CasState, t: nat): nat
    requires t < |s.index|
  {
    s.index[t] * c.workers + t
  }

  /** One compare-exchange attempt of worker t. */
  ghost predicate CasStep(c: Config, s: CasState, t: nat, s': CasState) {
    && t < |s.index| && s.index[t] < c.iterations
    && s' == if s.counter == Target(c, s, t)
             then CasState(Target(c, s, t) + 1, s.index[t := s.index[t] + 1], Next(c, s.position))
             else s
  }

  ghost predicate CasInv(c: Config, s: CasState) {
    && |s.index| == c.workers && InRange(c, s.position) && s.counter == Turns(c, s.position)
    && forall t :: 0 <= t < c.workers ==> s.index[t] == RoundsOf(s.position, t)
  }

  lemma CasStepInv(c: Config, s: CasState, t: nat, s': CasState)
    requires CasInv(c, s) && CasStep(c, s, t, s')
    ensures CasInv(c, s')
    ensures s' != s <==> t == s.position.turn
  {
    TargetIsOwnTurn(c, s.position, t);
    NextTurns(c, s.position);
    hide Turns;
  }

  ghost predicate CasTrace(c: Config, states: seq<CasState>, events: seq<nat>) {
    && |states| == |events| + 1 && states[0] == CasInitial(c)
    && forall k :: 0 <= k < |events| ==> CasStep(c, states[k], events[k], states[k + 1])
  }

  lemma {:induction false} CasTraceInv(c: Config, states: seq<CasState>, events: seq<nat>)
    requires CasTrace(c, states, events) && c.workers > 0
    ensures CasInv(c, states[|events|])
  {
    hide CasStep;
    if events != [] {
      var n := |events| - 1;
      CasTraceInv(c, states[..n + 1], events[..n]);
      CasStepInv(c, states[n], events[n], states[n + 1]);
    }
  }

  /** In every reachable state exactly the worker `counter mod workers` can succeed, while any
      turn is left. */
  lemma CasOneProgresses(c: Config, states: seq<CasState>, events: seq<nat>, t: nat)
    requires CasTrace(c, states, events) && t < c.workers
    ensures var s := states[|events|];
            && |s.index| == c.workers
            && (s.index[t] < c.iterations && s.counter == Target(c, s, t) <==>
                  s.counter < c.workers * c.iterations && t == s.counter % c.workers)
  {
    CasTraceInv(c, states, events);
    var s := states[|events|];
    TargetIsOwnTurn(c, s.position, t);
    Unique(Turns(c, s.position), c.workers, s.position.round, s.position.turn);
    TurnsLeft(c, s.position);
    hide Turns;
  }

  lemma TurnsLeft(c: Config, p: Position)
    requires InRange(c, p)
    ensures p.round < c.iterations <==> Turns(c, p) < c.workers * c.iterations
  {
    if p.round < c.iterations {
      assert (p.round + 1) * c.workers <= c.iterations * c.workers;
      assert (p.round + 1) * c.workers == p.round * c.workers + c.workers;
    }
  }

  /** When all workers are done the counter is workers * iterations. */
  lemma CasFinal(c: Config, states: seq<CasState>, events: seq<nat>)
    requires CasTrace(c, states, events) && c.workers > 0
    requires forall t :: 0 <= t < |states[|events|].index| ==> states[|events|].index[t] >= c.iterations
    ensures states[|events|].counter == c.workers * c.iterations
  {
    CasTraceInv(c, states, events);
    var s := states[|events|];
    assert s.index[c.workers - 1] == s.position.round;
  }

  /** From every reachable state the workers can finish: every trace extends to a finished one. */
  lemma {:induction false} CasEndReachable(c: Config, states: seq<CasState>, events: seq<nat>)
    returns (longer: seq<CasState>, more: seq<nat>)
    requires CasTrace(c, states, events) && c.workers > 0
    ensures CasTrace(c, longer, more) && states <= longer && events <= more
    ensures longer[|more|].counter == c.workers * c.iterations
    ensures forall t :: 0 <= t < |longer[|more|].index| ==> longer[|more|].index[t] == c.iterations
    decreases c.workers * c.iterations - states[|events|].counter
  {
    CasTraceInv(c, states, events);
    var s := states[|events|];
    TurnsLeft(c, s.position);
    if s.position.round == c.iterations {
      return states, events;
    }
    var t := s.position.turn;
    TargetIsOwnTurn(c, s.position, t);
    NextTurns(c, s.position);
    hide Turns;
    var s' := CasState(Target(c, s, t) + 1, s.index[t := s.index[t] + 1], Next(c, s.position));
    longer, more := CasEndReachable(c, states + [s'], events + [t]);
  }

  // ---- do_handoff ----

  datatype Pc = Spin | Check | StorePayload | StoreToken | Done

  datatype Thread = Thread(pc: Pc, round: nat)

  datatype Handoff = Handoff(token: nat, payload: nat, failed: bool, threads: seq<Thread>, position: Position)

  ghost function HandoffInitial(c: Config): Handoff {
    Handoff(0, 0, false, seq(c.workers, _ => Thread(if c.iterations > 0 then Spin else Done, 0)), Position(0, 0))
  }

  function Expected(c: Config, th: Thread, t: nat): nat { th.round * c.workers + t }

  /** A failed comparison is counted and the worker carries on. */
  function HandoffAdvance(c: Config, s: Handoff, t: nat): Handoff
    requires t < |s.threads| && !s.threads[t].pc.Done? && c.workers > 0
  {
    var th := s.threads[t];
    match th.pc
    case Spin => if s.token == t then s.(threads := s.threads[t := th.(pc := Check)]) else s
    case Check =>
      s.(failed := s.failed || s.payload != Expected(c, th, t), threads := s.threads[t := th.(pc := StorePayload)])
    case StorePayload => s.(payload := Expected(c, th, t) + 1, threads := s.threads[t := th.(pc := StoreToken)])
    case StoreToken =>
      s.(token := (t + 1) % c.workers, position := Next(c, s.position),
         threads := s.threads[t := Thread(if th.round + 1 < c.iterations then Spin else Done, th.round + 1)])
  }

  ghost predicate HandoffStep(c: Config, s: Handoff, t: nat, s': Handoff) {
    t < |s.threads| && !s.threads[t].pc.Done? && c.workers > 0 && s' == HandoffAdvance(c, s, t)
  }

  ghost predicate HandoffLocal(c: Config, s: Handoff, t: nat)
    requires t < |s.threads|
  {
    var th := s.threads[t];
    && th.round == RoundsOf(s.position, t)
    && (th.pc.Done? <==> th.round == c.iterations)
    && (t != s.position.turn ==> th.pc in {Spin, Done})
  }

  /** The worker whose turn it is stores the payload between its two stores. */
  ghost predicate HandoffInv(c: Config, s: Handoff) {
    && |s.threads| == c.workers && InRange(c, s.position) && !s.failed && s.token == s.position.turn
    && s.payload == Turns(c, s.position) + (if s.threads[s.position.turn].pc.StoreToken? then 1 else 0)
    && forall t :: 0 <= t < c.workers ==> HandoffLocal(c, s, t)
  }

  lemma LocalKept(c: Config, s: Handoff, t: nat, s': Handoff, u: nat)
    requires HandoffInv(c, s) && HandoffStep(c, s, t, s') && u < c.workers
    ensures |s'.threads| == c.workers && InRange(c, s'.position) && HandoffLocal(c, s', u)
  {
    hide Turns, Expected;
    assert HandoffLocal(c, s, t) && HandoffLocal(c, s, u);
  }

  lemma PayloadKept(c: Config, s: Handoff, t: nat, s': Handoff)
    requires HandoffInv(c, s) && HandoffStep(c, s, t, s')
    ensures |s'.threads| == c.workers && s'.position.turn < c.workers && !s'.failed
    ensures s'.payload == Turns(c, s'.position) + (if s'.threads[s'.position.turn].pc.StoreToken? then 1 else 0)
    ensures s'.token == s'.position.turn
  {
    assert HandoffLocal(c, s, t) && HandoffLocal(c, s, Next(c, s.position).turn);
    TargetIsOwnTurn(c, s.position, t);
    NextTurns(c, s.position);
    if !s.threads[t].pc.StoreToken? {
      assert s'.position == s.position;
    } else {
      Wraps(t, c.workers);
    }
    hide Turns, InRange;
  }

  lemma Wraps(t: nat, n: nat)
    requires t < n
    ensures (t + 1) % n == if t + 1 == n then 0 else t + 1
  {
    if t + 1 < n { Unique(t + 1, n, 0, t + 1); }
  }

  lemma HandoffStepInv(c: Config, s: Handoff, t: nat, s': Handoff)
    requires HandoffInv(c, s) && HandoffStep(c, s, t, s')
    ensures HandoffInv(c, s')
  {
    hide HandoffStep, HandoffLocal;
    PayloadKept(c, s, t, s');
    forall u | 0 <= u < c.workers
      ensures HandoffLocal(c, s', u)
    {
      LocalKept(c, s, t, s', u);
    }
    LocalKept(c, s, t, s', 0);
  }

  ghost predicate HandoffTrace(c: Config, states: seq<Handoff>, events: seq<nat>) {
    && |states| == |events| + 1 && states[0] == HandoffInitial(c)
    && forall k :: 0 <= k < |events| ==> HandoffStep(c, states[k], events[k], states[k + 1])
  }

  lemma {:induction false} HandoffTraceInv(c: Config, states: seq<Handoff>, events: seq<nat>)
    requires HandoffTrace(c, states, events) && c.workers > 0
    ensures HandoffInv(c, states[|events|])
  {
    hide HandoffStep;
    if events != [] {
      var n := |events| - 1;
      HandoffTraceInv(c, states[..n + 1], events[..n]);
      HandoffStepInv(c, states[n], events[n], states[n + 1]);
    }
  }

  /** The failure call is unreachable, at most one worker is past its spin, and it is the one the
      token names. */
  lemma HandoffNeverFails(c: Config, states: seq<Handoff>, events: seq<nat>, t: nat)
    requires HandoffTrace(c, states, events) && t < c.workers
    ensures var s := states[|events|];
            && |s.threads| == c.workers && !s.failed
            && (s.threads[t].pc in {Check, StorePayload, StoreToken} ==> s.token == t)
            && (s.threads[t].pc.Check? ==> s.payload == Expected(c, s.threads[t], t))
  {
    HandoffTraceInv(c, states, events);
    var s := states[|events|];
    assert HandoffLocal(c, s, t);
    TargetIsOwnTurn(c, s.position, t);
  }

  /** When all workers are done the payload is workers * iterations and the token is back at 0. */
  lemma HandoffFinal(c: Config, states: seq<Handoff>, events: seq<nat>)
    requires HandoffTrace(c, states, events) && c.workers > 0
    requires forall t :: 0 <= t < |states[|events|].threads| ==> states[|events|].threads[t].pc.Done?
    ensures states[|events|].payload == c.workers * c.iterations && states[|events|].token == 0
  {
    HandoffTraceInv(c, states, events);
    var s := states[|events|];
    assert HandoffLocal(c, s, c.workers - 1);
    assert s.position.round == c.iterations;
  }

  /** Until then, the worker whose turn it is can always take a step that changes something. */
  lemma HandoffMoves(c: Config, states: seq<Handoff>, events: seq<nat>, t: nat)
    requires HandoffTrace(c, states, events) && t < c.workers
    requires t < |states[|events|].threads| && !states[|events|].threads[t].pc.Done?
    ensures var s := states[|events|];
            && s.token < |s.threads| && !s.threads[s.token].pc.Done?
            && HandoffAdvance(c, s, s.token) != s
  {
    HandoffTraceInv(c, states, events);
    var s := states[|events|];
    assert HandoffLocal(c, s, t) && HandoffLocal(c, s, s.token);
  }

  function Rank(pc: Pc): nat { match pc case Spin => 3 case Check => 2 case StorePayload => 1 case _ => 0 }

  /** From every reachable state the workers can finish: every trace extends to a finished one. */
  lemma {:induction false} HandoffEndReachable(c: Config, states: seq<Handoff>, events: seq<nat>)
    returns (longer: seq<Handoff>, more: seq<nat>)
    requires HandoffTrace(c, states, events) && c.workers > 0
    ensures HandoffTrace(c, longer, more) && states <= longer && events <= more
    ensures forall t :: 0 <= t < |longer[|more|].threads| ==> longer[|more|].threads[t].pc.Done?
    decreases c.workers * c.iterations - Turns(c, states[|events|].position),
              var s := states[|events|]; if s.token < |s.threads| then Rank(s.threads[s.token].pc) else 0
  {
    HandoffTraceInv(c, states, events);
    var s := states[|events|];
    if forall t :: 0 <= t < |s.threads| ==> s.threads[t].pc.Done? {
      return states, events;
    }
    var t :| 0 <= t < |s.threads| && !s.threads[t].pc.Done?;
    HandoffMoves(c, states, events, t);
    var s' := HandoffAdvance(c, s, s.token);
    HandoffStepInv(c, s, s.token, s');
    TurnsLeft(c, s.position);
    NextTurns(c, s.position);
    TurnsLeft(c, s'.position);
    assert HandoffLocal(c, s, s.token);
    hide Turns, HandoffInv;
    longer, more := HandoffEndReachable(c, states + [s'], events + [s.token]);
  }
}
