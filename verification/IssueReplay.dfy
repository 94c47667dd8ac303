/** Executing instructions in issue order with their recorded producers means the same as
    executing the trace in program order. */
module IssueReplay {
  import opened Options
  import opened IssueTrace
  import opened IssuePipes
  import opened IssueMachine
  import opened IssueRun
  import opened IssueProgress
  import opened IssueOrder

  /** An abstract ISA. The first argument of each function is the position in the trace, so
      encoding and PC are covered. Only memory operations and persistent-hard instructions
      reach memory, and only persistent-hard ones change the system state. */
  datatype Semantics<!V, !M, !S> = Semantics(
    zero: V, regs: Register -> V, mem: M, sys: S,
    compute: (nat, V, V, S) -> V,
    access: (nat, V, V, M, S) -> (V, M),
    serialize: (nat, V, V, M, S) -> (V, M, S))

  ghost function Execute<V, M, S>(ins: Trace, sem: Semantics<V, M, S>, i: nat, a: V, b: V, mem: M, sys: S): (V, M, S)
    requires i < |ins|
  {
    if ins[i].IsPersistentHard() then sem.serialize(i, a, b, mem, sys)
    else if ins[i].IsMem() then
      var (v, mem') := sem.access(i, a, b, mem, sys);
      (v, mem', sys)
    else (sem.compute(i, a, b, sys), mem, sys)
  }

  // ---- Program order ----

  datatype Arch<V, M, S> = Arch(regs: Register -> V, mem: M, sys: S)

  ghost function Operand<V, M, S>(sem: Semantics<V, M, S>, s: Arch<V, M, S>, uses: bool, r: Register): V {
    if uses && r != 0 then s.regs(r) else sem.zero
  }

  /** The result of instruction i and the memory and system state after it. */
  ghost function Effect<V, M, S>(ins: Trace, sem: Semantics<V, M, S>, i: nat): (V, M, S)
    requires i < |ins|
    decreases i, 1
  {
    var s := Sequential(ins, sem, i);
    Execute(ins, sem, i, Operand(sem, s, ins[i].usesRs1, ins[i].rs1), Operand(sem, s, ins[i].usesRs2, ins[i].rs2),
            s.mem, s.sys)
  }

  ghost function WriteBack<V>(regs: Register -> V, instruction: Instruction, v: V): Register -> V {
    (r: Register) => if instruction.Writes(r) then v else regs(r)
  }

  /** The architectural state before instruction n. */
  ghost function Sequential<V, M, S>(ins: Trace, sem: Semantics<V, M, S>, n: nat): Arch<V, M, S>
    requires n <= |ins|
    decreases n, 0
  {
    if n == 0 then Arch(sem.regs, sem.mem, sem.sys)
    else
      var (v, mem, sys) := Effect(ins, sem, n - 1);
      Arch(WriteBack(Sequential(ins, sem, n - 1).regs, ins[n - 1], v), mem, sys)
  }

  // ---- Issue order ----

  datatype Replayed<V, M, S> = Replayed(results: map<nat, V>, mem: M, sys: S)

  /** A source operand: the recorded producer's result, or the initial register. */
  ghost function Forwarded<V, M, S>(sem: Semantics<V, M, S>, r: Replayed<V, M, S>,
                                    producer: Option<nat>, uses: bool, reg: Register): V {
    match producer
    case Some(p) => if p in r.results then r.results[p] else sem.zero
    case None => if uses && reg != 0 then sem.regs(reg) else sem.zero
  }

  ghost function Issue<V, M, S>(ins: Trace, sem: Semantics<V, M, S>, r: Replayed<V, M, S>, i: nat): Replayed<V, M, S>
    requires i < |ins|
  {
    var (v, mem, sys) := Execute(ins, sem, i,
                                 Forwarded(sem, r, Producer1(ins, i), ins[i].usesRs1, ins[i].rs1),
                                 Forwarded(sem, r, Producer2(ins, i), ins[i].usesRs2, ins[i].rs2), r.mem, r.sys);
    Replayed(r.results[i := v], mem, sys)
  }

  ghost function Replay<V, M, S>(ins: Trace, sem: Semantics<V, M, S>, order: seq<nat>): Replayed<V, M, S>
    requires InTrace(ins, order)
  {
    if order == [] then Replayed(map[], sem.mem, sem.sys)
    else Issue(ins, sem, Replay(ins, sem, order[..|order| - 1]), order[|order| - 1])
  }

  /** Register r when every instruction has issued. */
  ghost function FinalRegister<V, M, S>(ins: Trace, sem: Semantics<V, M, S>, r: Replayed<V, M, S>, reg: Register): V {
    match LastWriter(ins, |ins|, reg)
    case Some(p) => if p in r.results then r.results[p] else sem.zero
    case None => sem.regs(reg)
  }

  // ---- Registers are the youngest older writes ----

  lemma {:induction false} RegisterIsLastWrite<V, M, S>(ins: Trace, sem: Semantics<V, M, S>, n: nat, r: Register)
    requires n <= |ins|
    ensures match LastWriter(ins, n, r)
            case Some(p) => p < n && Sequential(ins, sem, n).regs(r) == Effect(ins, sem, p).0
            case None => Sequential(ins, sem, n).regs(r) == sem.regs(r)
    decreases n
  {
    if n > 0 {
      RegisterIsLastWrite(ins, sem, n - 1, r);
    }
  }

  // ---- Cuts: the position that memory, or the system state, has reached ----

  ghost predicate Touches(ins: Trace, i: nat, memory: bool)
    requires i < |ins|
  {
    ins[i].IsPersistentHard() || (memory && ins[i].IsMem())
  }

  /** The touching instructions of `done` are exactly those before u. */
  ghost predicate Cut(ins: Trace, done: seq<nat>, u: nat, memory: bool) {
    forall e :: 0 <= e < |ins| && Touches(ins, e, memory) ==> (e < u <==> e in done)
  }

  ghost function Component<V, M, S>(s: Arch<V, M, S>, memory: bool): (Option<M>, Option<S>) {
    if memory then (Some(s.mem), None) else (None, Some(s.sys))
  }

  lemma {:induction false} UntouchedBetween<V, M, S>(ins: Trace, sem: Semantics<V, M, S>, u: nat, w: nat, memory: bool)
    requires u <= w <= |ins| && forall e :: u <= e < w ==> !Touches(ins, e, memory)
    ensures Component(Sequential(ins, sem, u), memory) == Component(Sequential(ins, sem, w), memory)
    decreases w - u
  {
    if u < w {
      UntouchedBetween(ins, sem, u, w - 1, memory);
      assert !Touches(ins, w - 1, memory);
    }
  }

  lemma {:induction false} CutsAgree<V, M, S>(ins: Trace, sem: Semantics<V, M, S>, done: seq<nat>, u: nat, w: nat, memory: bool)
    requires u <= |ins| && w <= |ins| && Cut(ins, done, u, memory) && Cut(ins, done, w, memory)
    ensures Component(Sequential(ins, sem, u), memory) == Component(Sequential(ins, sem, w), memory)
  {
    hide Touches;
    if u <= w {
      UntouchedBetween(ins, sem, u, w, memory);
    } else {
      UntouchedBetween(ins, sem, w, u, memory);
    }
  }

  // ---- The order is legal ----

  ghost predicate LegalOrder(c: Config, order: seq<nat>)
    requires c.Valid()
  {
    && InTrace(c.ins, order) && Distinct(order)
    && forall k :: 0 <= k < |order| ==> AllBefore(c, order[..k], order[k])
  }

  lemma EarlierNeedsNoLater(c: Config, order: seq<nat>, a: nat, k: nat)
    requires c.Valid() && LegalOrder(c, order) && a < k < |order|
    ensures !Precedes(c, order[k], order[a]) && order[a] != order[k]
  {
  }

  /** At its issue, instruction order[k] finds the system state at its own place in program
      order, and the memory too when it may touch memory. */
  lemma IssueIsCut(c: Config, order: seq<nat>, k: nat, memory: bool)
    requires c.Valid() && LegalOrder(c, order) && k < |order|
    requires memory ==> Touches(c.ins, order[k], true)
    ensures Cut(c.ins, order[..k], order[k], memory)
  {
    var i := order[k];
    hide Instruction.IsPersistentHard, Instruction.IsMem;
    assert AllBefore(c, order[..k], i);
    forall e | 0 <= e < |c.ins| && Touches(c.ins, e, memory)
      ensures e < i <==> e in order[..k]
    {
      if e < i {
        assert Precedes(c, e, i);
      } else if a: nat :| a < k && order[a] == e {
        EarlierNeedsNoLater(c, order, a, k);
      }
    }
  }

  /** What the replay of a legal prefix has computed. */
  ghost predicate Faithful<V, M, S>(c: Config, sem: Semantics<V, M, S>, done: seq<nat>, r: Replayed<V, M, S>)
    requires InTrace(c.ins, done)
  {
    && (forall i :: i in r.results <==> i in done)
    && (forall i :: i in done ==> r.results[i] == Effect(c.ins, sem, i).0)
    && (forall u :: 0 <= u <= |c.ins| && Cut(c.ins, done, u, true) ==> r.mem == Sequential(c.ins, sem, u).mem)
    && (forall u :: 0 <= u <= |c.ins| && Cut(c.ins, done, u, false) ==> r.sys == Sequential(c.ins, sem, u).sys)
  }

  lemma {:induction false} OperandForwarded<V, M, S>(c: Config, sem: Semantics<V, M, S>, done: seq<nat>, r: Replayed<V, M, S>, i: nat,
                                  uses: bool, reg: Register)
    requires InTrace(c.ins, done) && Faithful(c, sem, done, r) && i < |c.ins|
    requires var p := Producer(c.ins, i, uses, reg); p.Some? ==> p.value in done
    ensures Forwarded(sem, r, Producer(c.ins, i, uses, reg), uses, reg)
            == Operand(sem, Sequential(c.ins, sem, i), uses, reg)
  {
    hide Cut;
    RegisterIsLastWrite(c.ins, sem, i, reg);
  }

  /** The producers are among the instructions that issue first. */
  lemma ProducersDone(c: Config, done: seq<nat>, i: nat)
    requires c.Valid() && i < |c.ins| && AllBefore(c, done, i)
    ensures Producer1(c.ins, i).Some? ==> Producer1(c.ins, i).value in done
    ensures Producer2(c.ins, i).Some? ==> Producer2(c.ins, i).value in done
  {
    hide Instruction.IsPersistentHard, Instruction.IsMem;
    assert LinkedAt(c.ins, c.links, i);
    if p :| Producer1(c.ins, i) == Some(p) {
      DepIsOlder(c, i, p);
      assert Precedes(c, p, i);
    }
    if p :| Producer2(c.ins, i) == Some(p) {
      DepIsOlder(c, i, p);
      assert Precedes(c, p, i);
    }
  }

  /** Issuing order[k] produces exactly its program-order effect, where it matters. */
  lemma {:induction false} IssueMatches<V, M, S>(c: Config, sem: Semantics<V, M, S>, order: seq<nat>, k: nat, r: Replayed<V, M, S>)
    requires c.Valid() && LegalOrder(c, order) && k < |order|
    requires InTrace(c.ins, order[..k]) && Faithful(c, sem, order[..k], r)
    ensures var i := order[k];
            var after := Issue(c.ins, sem, r, i);
            && after.results == r.results[i := Effect(c.ins, sem, i).0]
            && after.mem == (if Touches(c.ins, i, true) then Sequential(c.ins, sem, i + 1).mem else r.mem)
            && after.sys == (if Touches(c.ins, i, false) then Sequential(c.ins, sem, i + 1).sys else r.sys)
            && r.sys == Sequential(c.ins, sem, i).sys
  {
    var i := order[k];
    ProducersDone(c, order[..k], i);
    OperandForwarded(c, sem, order[..k], r, i, c.ins[i].usesRs1, c.ins[i].rs1);
    OperandForwarded(c, sem, order[..k], r, i, c.ins[i].usesRs2, c.ins[i].rs2);
    IssueIsCut(c, order, k, false);
    if Touches(c.ins, i, true) {
      IssueIsCut(c, order, k, true);
    }
    hide Cut, Instruction.IsPersistentHard, Instruction.IsMem, LegalOrder, Forwarded, Operand;
  }

  lemma CutExtends(ins: Trace, done: seq<nat>, i: nat, u: nat, memory: bool)
    requires i < |ins| && i !in done && Cut(ins, done + [i], u, memory)
    ensures !Touches(ins, i, memory) ==> Cut(ins, done, u, memory)
  {
  }

  lemma CutAfter(ins: Trace, done: seq<nat>, i: nat, memory: bool)
    requires i < |ins| && Cut(ins, done, i, memory)
    ensures Cut(ins, done + [i], i + 1, memory)
  {
    hide Touches;
  }

  lemma {:induction false} IssueKeepsMemory<V, M, S>(c: Config, sem: Semantics<V, M, S>, order: seq<nat>, k: nat, r: Replayed<V, M, S>, u: nat)
    requires c.Valid() && LegalOrder(c, order) && k < |order| && u <= |c.ins|
    requires InTrace(c.ins, order[..k]) && Faithful(c, sem, order[..k], r)
    requires Cut(c.ins, order[..k] + [order[k]], u, true)
    ensures Issue(c.ins, sem, r, order[k]).mem == Sequential(c.ins, sem, u).mem
  {
    hide Cut, Touches, Issue, Effect, Sequential, AllBefore;
    var i, done := order[k], order[..k];
    IssueMatches(c, sem, order, k, r);
    CutExtends(c.ins, done, i, u, true);
    if Touches(c.ins, i, true) {
      IssueIsCut(c, order, k, true);
      CutAfter(c.ins, done, i, true);
      CutsAgree(c.ins, sem, done + [i], u, i + 1, true);
    }
  }

  lemma {:induction false} IssueKeepsSystem<V, M, S>(c: Config, sem: Semantics<V, M, S>, order: seq<nat>, k: nat, r: Replayed<V, M, S>, u: nat)
    requires c.Valid() && LegalOrder(c, order) && k < |order| && u <= |c.ins|
    requires InTrace(c.ins, order[..k]) && Faithful(c, sem, order[..k], r)
    requires Cut(c.ins, order[..k] + [order[k]], u, false)
    ensures Issue(c.ins, sem, r, order[k]).sys == Sequential(c.ins, sem, u).sys
  {
    hide Cut, Touches, Issue, Effect, Sequential, AllBefore;
    var i, done := order[k], order[..k];
    IssueMatches(c, sem, order, k, r);
    CutExtends(c.ins, done, i, u, false);
    if Touches(c.ins, i, false) {
      IssueIsCut(c, order, k, false);
      CutAfter(c.ins, done, i, false);
      CutsAgree(c.ins, sem, done + [i], u, i + 1, false);
    }
  }

  lemma IssueStaysFaithful<V, M, S>(c: Config, sem: Semantics<V, M, S>, order: seq<nat>, k: nat, r: Replayed<V, M, S>)
    requires c.Valid() && LegalOrder(c, order) && k < |order|
    requires InTrace(c.ins, order[..k]) && Faithful(c, sem, order[..k], r)
    ensures InTrace(c.ins, order[..k + 1]) && Faithful(c, sem, order[..k + 1], Issue(c.ins, sem, r, order[k]))
  {
    hide Cut, Touches, Issue, Effect, Sequential, AllBefore;
    var i, done := order[k], order[..k];
    var after := Issue(c.ins, sem, r, i);
    assert order[..k + 1] == done + [i];
    IssueMatches(c, sem, order, k, r);
    forall u | 0 <= u <= |c.ins| && Cut(c.ins, done + [i], u, true)
      ensures after.mem == Sequential(c.ins, sem, u).mem
    {
      IssueKeepsMemory(c, sem, order, k, r, u);
    }
    forall u | 0 <= u <= |c.ins| && Cut(c.ins, done + [i], u, false)
      ensures after.sys == Sequential(c.ins, sem, u).sys
    {
      IssueKeepsSystem(c, sem, order, k, r, u);
    }
  }

  lemma {:induction false} ReplayIsFaithful<V, M, S>(c: Config, sem: Semantics<V, M, S>, order: seq<nat>, k: nat)
    requires c.Valid() && LegalOrder(c, order) && k <= |order|
    ensures InTrace(c.ins, order[..k]) && Faithful(c, sem, order[..k], Replay(c.ins, sem, order[..k]))
    decreases k
  {
    if k == 0 {
      NothingDone(c, sem);
      assert order[..0] == [];
    } else {
      ReplayIsFaithful(c, sem, order, k - 1);
      assert order[..k][..k - 1] == order[..k - 1];
      hide Faithful, LegalOrder, Issue;
      IssueStaysFaithful(c, sem, order, k - 1, Replay(c.ins, sem, order[..k - 1]));
    }
  }

  lemma NothingDone<V, M, S>(c: Config, sem: Semantics<V, M, S>)
    ensures Faithful(c, sem, [], Replayed(map[], sem.mem, sem.sys))
  {
    hide Touches;
    assert Cut(c.ins, [], 0, true) && Cut(c.ins, [], 0, false);
    forall u, memory | 0 <= u <= |c.ins| && Cut(c.ins, [], u, memory)
      ensures Component(Sequential(c.ins, sem, u), memory) == Component(Sequential(c.ins, sem, 0), memory)
    {
      CutsAgree(c.ins, sem, [], u, 0, memory);
    }
  }

  /** Every program-order result, the final registers, the final memory and system state. */
  ghost predicate SameMeaning<V, M, S>(ins: Trace, sem: Semantics<V, M, S>, r: Replayed<V, M, S>) {
    && (forall i :: 0 <= i < |ins| ==> i in r.results && r.results[i] == Effect(ins, sem, i).0)
    && (forall reg: Register :: FinalRegister(ins, sem, r, reg) == Sequential(ins, sem, |ins|).regs(reg))
    && r.mem == Sequential(ins, sem, |ins|).mem
    && r.sys == Sequential(ins, sem, |ins|).sys
  }

  lemma FaithfulIsMeaning<V, M, S>(c: Config, sem: Semantics<V, M, S>, order: seq<nat>, r: Replayed<V, M, S>)
    requires InTrace(c.ins, order) && Faithful(c, sem, order, r)
    requires forall i :: 0 <= i < |c.ins| ==> i in order
    ensures SameMeaning(c.ins, sem, r)
  {
    hide Touches, Effect, Sequential;
    assert Cut(c.ins, order, |c.ins|, true) && Cut(c.ins, order, |c.ins|, false);
    hide Cut;
    forall reg: Register
      ensures FinalRegister(c.ins, sem, r, reg) == Sequential(c.ins, sem, |c.ins|).regs(reg)
    {
      RegisterIsLastWrite(c.ins, sem, |c.ins|, reg);
    }
  }

  /** The main theorem: issuing the whole trace in any legal order means program order. */
  lemma {:induction false} ReplayPreservesMeaning<V, M, S>(c: Config, sem: Semantics<V, M, S>, order: seq<nat>)
    requires c.Valid() && LegalOrder(c, order)
    requires forall i :: 0 <= i < |c.ins| ==> i in order
    ensures SameMeaning(c.ins, sem, Replay(c.ins, sem, order))
  {
    ReplayIsFaithful(c, sem, order, |order|);
    assert order[..|order|] == order;
    hide Faithful, SameMeaning, Replay;
    FaithfulIsMeaning(c, sem, order, Replay(c.ins, sem, order));
  }

  lemma {:induction false} HistoryPreservesMeaning<V, M, S>(c: Config, m: Machine, order: seq<nat>, sem: Semantics<V, M, S>)
    requires Inv(c, m) && History(c, m, order) && m.retireHead == |c.ins|
    requires !c.freeBranches && !c.freeJumps
    ensures InTrace(c.ins, order) && (forall i :: 0 <= i < |c.ins| ==> i in order)
    ensures SameMeaning(c.ins, sem, Replay(c.ins, sem, order))
  {
    assert LegalOrder(c, order) by {
      hide AllBefore, Timed, MemOrder, DepOrder, Barrier, StrictOrder, MemBound;
    }
    assert forall i :: 0 <= i < |c.ins| ==> i in order by {
      hide AllBefore, Timed, MemOrder, DepOrder, Barrier, StrictOrder, MemBound;
    }
    hide Inv, History, SameMeaning;
    ReplayPreservesMeaning(c, sem, order);
  }

  /** Every complete run with the free-control flags off, under either policy: executing each
      instruction when the machine issues it means program order. */
  lemma {:induction false} SchedulePreservesMeaning<V, M, S>(c: Config, ms: seq<Machine>, groups: seq<seq<nat>>,
                                                            sem: Semantics<V, M, S>)
    requires c.Valid() && Ends(c, ms, groups) && !c.freeBranches && !c.freeJumps
    ensures var order := OrderOf(c, ms, groups);
            InTrace(c.ins, order) && SameMeaning(c.ins, sem, Replay(c.ins, sem, order))
  {
    hide Step, Inv, History, SameMeaning, ByCycle, IssuedBefore;
    RunOrders(c, ms, groups);
    HistoryPreservesMeaning(c, ms[|groups|], OrderOf(c, ms, groups), sem);
  }

  /** All instructions, sorted by the cycle that m records for them, those of one cycle by position. */
  ghost predicate SortedByCycle(c: Config, m: Machine, order: seq<nat>) {
    && Shape(c, m) && InTrace(c.ins, order) && (forall i :: 0 <= i < |c.ins| ==> i in order)
    && forall a, b :: 0 <= a < b < |order| ==>
         m.issueCycle[order[a]] < m.issueCycle[order[b]]
         || (m.issueCycle[order[a]] == m.issueCycle[order[b]] && order[a] < order[b])
  }

  /** The same from nothing but the issue cycles that a complete run leaves behind. */
  lemma {:induction false} RecordedCyclesPreserveMeaning<V, M, S>(c: Config, ms: seq<Machine>, groups: seq<seq<nat>>,
                                                                 order: seq<nat>, sem: Semantics<V, M, S>)
    requires c.Valid() && Ends(c, ms, groups) && !c.freeBranches && !c.freeJumps
    requires SortedByCycle(c, ms[|groups|], order)
    ensures order == OrderOf(c, ms, groups) && SameMeaning(c.ins, sem, Replay(c.ins, sem, order))
  {
    hide Step, Timed, MemOrder, DepOrder, Barrier, StrictOrder, MemBound, SameMeaning, IssuedBefore;
    RunOrders(c, ms, groups);
    var m, issued := ms[|groups|], OrderOf(c, ms, groups);
    HistoryPreservesMeaning(c, m, issued, sem);
    assert forall k :: 0 <= k < |order| ==> order[k] in order;
    assert forall k :: 0 <= k < |issued| ==> issued[k] in issued;
    hide AllBefore, History;
    ByCycleUnique(c, m, order, issued);
  }
}
