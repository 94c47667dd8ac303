/** worker_ticket_lock in sw/linux-user-tests/openrv64_user_stress.c: any number of workers and
    iterations, interleaved at every shared access. The protected counter and checksum are
    plain variables, so each update is a separate read and write. */
module TicketLock {
  import opened Options

  /** mix(sum, id, ticket) is the checksum after one more entry; the source takes the exclusive or
      of the old sum, the shifted id and the ticket, and nothing here depends on which. */
  datatype Config = Config(workers: nat, iterations: nat, mix: (int, nat, nat) -> int)

  datatype Pc = Take | Spin | ReadCounter | WriteCounter | ReadSum | WriteSum | Release | Done

  /** taken is history: tickets drawn by this worker. */
  datatype Thread = Thread(pc: Pc, ticket: nat, read: nat, readSum: int, left: nat, taken: nat)

  /** takers and inside are history: who drew each ticket, and who has entered. */
  datatype Shared = Shared(next: nat, owner: nat, counter: nat, checksum: int, takers: seq<nat>, inside: Option<nat>)

  datatype State = State(shared: Shared, threads: seq<Thread>)

  ghost function Initial(c: Config): State {
    State(Shared(0, 0, 0, 0, [], None),
          seq(c.workers, _ => Thread(if c.iterations > 0 then Take else Done, 0, 0, 0, c.iterations, 0)))
  }

  /** One atomic step of worker t. */
  function Advance(c: Config, t: nat, g: Shared, th: Thread): (Shared, Thread)
    requires !th.pc.Done? && th.left > 0
  {
    match th.pc
    case Take =>
      (g.(next := g.next + 1, takers := g.takers + [t]), th.(pc := Spin, ticket := g.next, taken := th.taken + 1))
    case Spin =>
      if g.owner == th.ticket then (g.(inside := Some(t)), th.(pc := ReadCounter)) else (g, th)
    case ReadCounter => (g, th.(pc := WriteCounter, read := g.counter))
    case WriteCounter => (g.(counter := th.read + 1), th.(pc := ReadSum))
    case ReadSum => (g, th.(pc := WriteSum, readSum := g.checksum))
    case WriteSum => (g.(checksum := c.mix(th.readSum, t, th.ticket)), th.(pc := Release))
    case Release =>
      (g.(owner := th.ticket + 1, inside := None), th.(pc := if th.left > 1 then Take else Done, left := th.left - 1))
  }

  ghost predicate Step(c: Config, s: State, t: nat, s': State) {
    && t < |s.threads| && !s.threads[t].pc.Done? && s.threads[t].left > 0
    && var (g, th) := Advance(c, t, s.shared, s.threads[t]);
       s' == State(g, s.threads[t := th])
  }

  // ---- Invariant ----

  predicate Live(pc: Pc) { !pc.Take? && !pc.Done? }

  predicate Inside(pc: Pc) { Live(pc) && !pc.Spin? }

  /** The checksum of the first n entries, in ticket order. */
  ghost function Fold(c: Config, takers: seq<nat>, n: nat): int
    requires n <= |takers|
  {
    if n == 0 then 0 else c.mix(Fold(c, takers, n - 1), takers[n - 1], n - 1)
  }

  /** A live ticket lies in [owner, next) and was drawn by its worker; being inside means holding
      the owner's ticket. */
  ghost predicate Local(c: Config, g: Shared, t: nat, th: Thread)
    requires g.owner <= g.next == |g.takers|
  {
    && (th.pc.Done? <==> th.left == 0)
    && th.taken + th.left == c.iterations + (if Live(th.pc) then 1 else 0)
    && (Live(th.pc) ==> g.owner <= th.ticket < g.next && g.takers[th.ticket] == t)
    && (Inside(th.pc) <==> g.inside == Some(t))
    && (Inside(th.pc) ==> th.ticket == g.owner)
    && (th.pc.ReadCounter? ==> g.counter == g.owner)
    && (th.pc.WriteCounter? ==> th.read == g.counter == g.owner)
    && (th.pc in {ReadSum, WriteSum, Release} ==> g.counter == g.owner + 1)
    && (th.pc in {ReadCounter, WriteCounter, ReadSum, WriteSum} ==> g.checksum == Fold(c, g.takers, g.owner))
    && (th.pc.WriteSum? ==> th.readSum == g.checksum)
    && (th.pc.Release? ==> g.checksum == Fold(c, g.takers, g.owner + 1))
  }

  /** Every ticket in [owner, next) is held by the worker that drew it. */
  ghost predicate Held(s: State, k: nat) {
    && k < |s.shared.takers| && s.shared.takers[k] < |s.threads|
    && var th := s.threads[s.shared.takers[k]];
       Live(th.pc) && th.ticket == k
  }

  ghost predicate Bounds(c: Config, g: Shared) {
    && g.owner <= g.next == |g.takers|
    && (g.inside.Some? ==> g.inside.value < c.workers && g.owner < g.next && g.takers[g.owner] == g.inside.value)
    && (g.inside.None? ==> g.counter == g.owner && g.checksum == Fold(c, g.takers, g.owner))
  }

  ghost predicate Locals(c: Config, s: State) {
    && |s.threads| == c.workers && Bounds(c, s.shared)
    && forall t :: 0 <= t < c.workers ==> Local(c, s.shared, t, s.threads[t])
  }

  function Taken(threads: seq<Thread>): nat {
    if threads == [] then 0 else Taken(threads[..|threads| - 1]) + threads[|threads| - 1].taken
  }

  ghost predicate Inv(c: Config, s: State) {
    && Locals(c, s) && s.shared.next == Taken(s.threads)
    && forall k :: s.shared.owner <= k < s.shared.next ==> Held(s, k)
  }

  lemma {:induction false} TakenUpdate(threads: seq<Thread>, i: nat, th: Thread)
    requires i < |threads|
    ensures Taken(threads[i := th]) == Taken(threads) - threads[i].taken + th.taken
  {
    var last := |threads| - 1;
    if i < last {
      assert threads[i := th][..last] == threads[..last][i := th];
      TakenUpdate(threads[..last], i, th);
    } else {
      assert threads[i := th][..last] == threads[..last];
    }
  }

  lemma {:induction false} TakenTotal(threads: seq<Thread>, k: nat)
    requires forall t :: 0 <= t < |threads| ==> threads[t].taken == k
    ensures Taken(threads) == |threads| * k
  {
    if threads != [] {
      TakenTotal(threads[..|threads| - 1], k);
    }
  }

  lemma InitialInv(c: Config)
    ensures Inv(c, Initial(c))
  {
    TakenTotal(Initial(c).threads, 0);
  }

  lemma {:induction false} FoldExtends(c: Config, takers: seq<nat>, t: nat, n: nat)
    requires n <= |takers|
    ensures Fold(c, takers + [t], n) == Fold(c, takers, n)
  {
    if n > 0 {
      FoldExtends(c, takers, t, n - 1);
    }
  }

  lemma AdvanceKeeps(c: Config, t: nat, g: Shared, th: Thread)
    requires t < c.workers && !th.pc.Done? && Bounds(c, g) && Local(c, g, t, th)
    ensures th.left > 0
    ensures var (g', th') := Advance(c, t, g, th);
            && Bounds(c, g') && Local(c, g', t, th') && g'.next == g.next + th'.taken - th.taken
  {
    FoldExtends(c, g.takers, t, g.owner);
    if th.pc.WriteSum? {
      assert Fold(c, g.takers, g.owner + 1) == c.mix(Fold(c, g.takers, g.owner), t, th.ticket);
    }
    hide Fold;
  }

  lemma AdvanceSpares(c: Config, t: nat, g: Shared, th: Thread, u: nat, other: Thread)
    requires t < c.workers && !th.pc.Done? && th.left > 0 && t != u
    requires Bounds(c, g) && Local(c, g, t, th) && Local(c, g, u, other)
    requires Bounds(c, Advance(c, t, g, th).0)
    ensures Local(c, Advance(c, t, g, th).0, u, other)
  {
    hide Fold;
    FoldExtends(c, g.takers, t, g.owner);
    if g.owner < g.next {
      FoldExtends(c, g.takers, t, g.owner + 1);
    }
  }

  lemma AdvanceHolds(c: Config, s: State, t: nat, s': State)
    requires Inv(c, s) && Step(c, s, t, s')
    ensures forall k :: s'.shared.owner <= k < s'.shared.next ==> Held(s', k)
  {
    hide Fold, Taken;
    assert Bounds(c, s.shared);
    assert Local(c, s.shared, t, s.threads[t]);
    forall k | s'.shared.owner <= k < s'.shared.next
      ensures Held(s', k)
    {
      if k < s.shared.next {
        assert Held(s, k);
      }
    }
  }

  /** Every step of every interleaving keeps the invariant. */
  lemma StepInv(c: Config, s: State, t: nat, s': State)
    requires Inv(c, s) && Step(c, s, t, s')
    ensures Inv(c, s')
  {
    hide Advance, Local, Fold, Held;
    assert Local(c, s.shared, t, s.threads[t]);
    AdvanceKeeps(c, t, s.shared, s.threads[t]);
    TakenUpdate(s.threads, t, s'.threads[t]);
    forall u | 0 <= u < c.workers && u != t
      ensures Local(c, s'.shared, u, s.threads[u])
    {
      AdvanceSpares(c, t, s.shared, s.threads[t], u, s.threads[u]);
    }
    AdvanceHolds(c, s, t, s');
  }

  // ---- Whole runs ----

  ghost predicate Trace(c: Config, states: seq<State>, events: seq<nat>) {
    && |states| == |events| + 1 && states[0] == Initial(c)
    && forall k :: 0 <= k < |events| ==> Step(c, states[k], events[k], states[k + 1])
  }

  lemma {:induction false} TraceInv(c: Config, states: seq<State>, events: seq<nat>)
    requires Trace(c, states, events)
    ensures Inv(c, states[|events|])
  {
    hide Step, Inv;
    if events == [] {
      InitialInv(c);
    } else {
      var n := |events| - 1;
      TraceInv(c, states[..n + 1], events[..n]);
      StepInv(c, states[n], events[n], states[n + 1]);
    }
  }

  /** Entry is exclusive, live tickets are distinct and in [owner, next), and the worker inside is
      the one that drew ticket number `owner`: entries follow the order of the draws. */
  lemma ExclusiveAndFifo(c: Config, states: seq<State>, events: seq<nat>, t: nat, u: nat)
    requires Trace(c, states, events) && t < c.workers && u < c.workers && t != u
    ensures var s := states[|events|];
            && |s.threads| == c.workers && s.shared.owner <= s.shared.next == |s.shared.takers|
            && !(Inside(s.threads[t].pc) && Inside(s.threads[u].pc))
            && (Inside(s.threads[t].pc) ==> s.shared.owner < s.shared.next && s.shared.takers[s.shared.owner] == t)
            && (Live(s.threads[t].pc) ==> s.shared.owner <= s.threads[t].ticket < s.shared.next)
            && (Live(s.threads[t].pc) && Live(s.threads[u].pc) ==> s.threads[t].ticket != s.threads[u].ticket)
  {
    hide Step, Fold, Taken, Held;
    TraceInv(c, states, events);
    var s := states[|events|];
    assert Local(c, s.shared, t, s.threads[t]) && Local(c, s.shared, u, s.threads[u]);
  }

  ghost predicate Finished(s: State) { forall t :: 0 <= t < |s.threads| ==> s.threads[t].pc.Done? }

  /** No increment and no checksum update is lost. */
  lemma {:induction false} FinalCounts(c: Config, states: seq<State>, events: seq<nat>)
    requires Trace(c, states, events) && Finished(states[|events|])
    ensures var g := states[|events|].shared;
            && g.next == g.owner == g.counter == c.workers * c.iterations == |g.takers|
            && g.checksum == Fold(c, g.takers, |g.takers|)
  {
    hide Step;
    TraceInv(c, states, events);
    var s := states[|events|];
    forall t | 0 <= t < c.workers
      ensures s.threads[t].taken == c.iterations && s.shared.inside != Some(t)
    {
      assert Local(c, s.shared, t, s.threads[t]);
    }
    TakenTotal(s.threads, c.iterations);
    hide Local, Fold, Taken;
    assert !Held(s, s.shared.owner);
  }

  /** Worker t's next step changes something. */
  ghost predicate Moves(s: State, t: nat) {
    && t < |s.threads| && !s.threads[t].pc.Done?
    && (s.threads[t].pc.Spin? ==> s.threads[t].ticket == s.shared.owner)
  }

  lemma DeadlockFree(c: Config, states: seq<State>, events: seq<nat>)
    requires Trace(c, states, events) && !Finished(states[|events|])
    ensures exists t: nat :: Moves(states[|events|], t)
  {
    hide Step, Fold, Taken;
    TraceInv(c, states, events);
    var s := states[|events|];
    if s.shared.owner < s.shared.next {
      assert Held(s, s.shared.owner);
      assert Moves(s, s.shared.takers[s.shared.owner]);
    } else {
      var t :| 0 <= t < |s.threads| && !s.threads[t].pc.Done?;
      assert Local(c, s.shared, t, s.threads[t]);
      assert Moves(s, t);
    }
  }

  // ---- The end is reached ----

  /** What worker `th` still has to do. */
  function Work(th: Thread): nat {
    8 * th.left + match th.pc
      case Take => 7 case Spin => 6 case ReadCounter => 5 case WriteCounter => 4
      case ReadSum => 3 case WriteSum => 2 case Release => 1 case Done => 0
  }

  function TotalWork(threads: seq<Thread>): nat {
    if threads == [] then 0 else TotalWork(threads[..|threads| - 1]) + Work(threads[|threads| - 1])
  }

  lemma {:induction false} WorkUpdate(threads: seq<Thread>, i: nat, th: Thread)
    requires i < |threads|
    ensures TotalWork(threads[i := th]) == TotalWork(threads) - Work(threads[i]) + Work(th)
  {
    var last := |threads| - 1;
    if i < last {
      assert threads[i := th][..last] == threads[..last][i := th];
      WorkUpdate(threads[..last], i, th);
    } else {
      assert threads[i := th][..last] == threads[..last];
    }
  }

  /** No step of any interleaving undoes work: it lowers what is left, or it was a spin in vain. */
  lemma StepWorks(c: Config, s: State, t: nat, s': State)
    requires Step(c, s, t, s')
    ensures s' != s ==> TotalWork(s'.threads) < TotalWork(s.threads)
    ensures s' == s <==> !Moves(s, t)
  {
    var th := s.threads[t];
    WorkUpdate(s.threads, t, s'.threads[t]);
    assert th.pc.Spin? && th.ticket != s.shared.owner ==> s.threads[t := th] == s.threads;
  }

  /** From every reachable state the workers can finish: every trace extends to a finished one. */
  lemma {:induction false} EndReachable(c: Config, states: seq<State>, events: seq<nat>)
    returns (longer: seq<State>, more: seq<nat>)
    requires Trace(c, states, events)
    ensures Trace(c, longer, more) && states <= longer && events <= more && Finished(longer[|more|])
    decreases TotalWork(states[|events|].threads)
  {
    var s := states[|events|];
    if Finished(s) {
      return states, events;
    }
    DeadlockFree(c, states, events);
    var t: nat :| Moves(s, t);
    TraceInv(c, states, events);
    assert s.threads[t].left > 0 by { assert Local(c, s.shared, t, s.threads[t]); }
    var (g, th) := Advance(c, t, s.shared, s.threads[t]);
    var s' := State(g, s.threads[t := th]);
    StepWorks(c, s, t, s');
    hide Advance, Moves, Inv;
    longer, more := EndReachable(c, states + [s'], events + [t]);
  }
}
