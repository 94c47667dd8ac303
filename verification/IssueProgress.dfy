/** Deadlock freedom: every cycle lowers a well-founded measure, and an admitted head issues
    within `capacity` cycles even when the window policy passes over it. */
module IssueProgress {
  import opened IssueTrace
  import opened IssuePipes
  import opened IssueMachine
  import opened IssueRun

  ghost function InFlight(c: Config, m: Machine): set<nat>
    requires Shape(c, m)
  {
    set i: nat | i < m.nextAdmit && m.retireHead <= i && m.issued[i]
  }

  /** The cycles from the issue of instruction i to its completion: none when it is free, and one
      for a store that finds itself at the head. */
  function Lasts(c: Config, i: nat): nat
    requires i < |c.ins|
  {
    if c.IsFree(i) then 0 else if c.ins[i].IsStore() then 1 else c.ins[i].Latency()
  }

  /** The cycles that instruction i may still need once nothing holds it back. */
  ghost function Rest(c: Config, m: Machine, i: nat): nat
    requires Shape(c, m) && i < |c.ins|
  {
    if m.completed[i] then 0
    else if m.issued[i] && !c.ins[i].IsStore() then Max(0, Due(c, m, i) - m.cycle) + 1
    else Lasts(c, i)
  }

  /** An admission, an issue, a completion and a retirement are still to come. */
  ghost function Weight(c: Config, m: Machine, i: nat): nat
    requires Shape(c, m) && i < |c.ins|
  {
    (if i < m.nextAdmit then 0 else 1) + (if m.issued[i] then 0 else 1) + Rest(c, m, i)
    + (if i < m.retireHead then 0 else 1)
  }

  ghost function Weights(c: Config, m: Machine, n: nat): nat
    requires Shape(c, m) && n <= |c.ins|
  {
    if n == 0 then 0 else Weights(c, m, n - 1) + Weight(c, m, n - 1)
  }

  function Greatest(xs: seq<int>): (r: int)
    requires |xs| > 0
    ensures forall k :: 0 <= k < |xs| ==> xs[k] <= r
  {
    if |xs| == 1 then xs[0] else Max(xs[0], Greatest(xs[1..]))
  }

  /** The work left: the measure that every cycle lowers. */
  ghost function Left(c: Config, m: Machine): nat
    requires Shape(c, m)
  {
    Max(0, Greatest(c.releases) - m.feedClock) + Weights(c, m, |c.ins|)
  }

  // ---- The head is never stuck ----

  /** All older work is complete and no younger memory operation holds a slot. */
  lemma HeadIsReady(c: Config, s: Machine)
    requires Inv(c, s) && s.retireHead < s.nextAdmit && !s.issued[s.retireHead]
    ensures Ready(c, s, s.retireHead)
  {
    hide Instruction.IsMem, Instruction.IsPersistentHard, Config.IsFree, Timed, DepOrder, Barrier, StrictOrder, MemBound;
    var h := s.retireHead;
    forall p | p in c.links[h].deps
      ensures p < |c.ins| && s.completed[p]
    {
      DepIsOlder(c, h, p);
    }
    HeadMemoryFree(c, s);
    assert LinkedAt(c.ins, c.links, h);
    LastMemIsYoungest(c.ins, h);
  }

  lemma HeadMemoryFree(c: Config, s: Machine)
    requires Inv(c, s) && s.retireHead < s.nextAdmit && !s.issued[s.retireHead]
    ensures c.ins[s.retireHead].IsMem() ==> ActiveMem(c, s) == {}
  {
    hide Instruction.IsMem, Instruction.IsPersistentHard, Config.IsFree, Timed, DepOrder, Barrier, StrictOrder, MemBound,
      MemOrder;
    if c.ins[s.retireHead].IsMem() && ActiveMem(c, s) != {} {
      var i :| i in ActiveMem(c, s);
      assert i > s.retireHead;
      OlderMemOfIssued(c, s, i, s.retireHead);
    }
  }

  lemma HeadIsOpen(c: Config, s: Machine)
    requires Shape(c, s) && s.retireHead < s.nextAdmit && !s.issued[s.retireHead]
    ensures |Open(c, s)| > 0 && Open(c, s)[0] == s.retireHead
  {
    hide Instruction.IsPersistentHard;
    var open := Open(c, s);
    assert s.retireHead in open;
    var k :| 0 <= k < |open| && open[k] == s.retireHead;
    assert open[0] in open;
  }

  /** While the head waits to issue, every cycle issues something. */
  lemma WaitingHeadIssuesSomething(c: Config, s: Machine, group: seq<nat>)
    requires Inv(c, s) && s.retireHead < s.nextAdmit && !s.issued[s.retireHead]
    requires Chosen(c, s, group)
    ensures |group| > 0
  {
    HeadIsReady(c, s);
    HeadIsOpen(c, s);
    hide Ready, Open, LegalGroup, Nested, Timed, MemOrder, DepOrder, Barrier, StrictOrder, MemBound;
    var open := Open(c, s);
    var ready := ReadyIn(c, s, open);
    assert s.retireHead in ready;
    if c.policy.Strict? {
      SingleIsLegal(c.ins, ready, s.retireHead);
      assert open[..1] == [s.retireHead];
    } else {
      ReadyInTrace(c, s, open);
      WindowChoiceIssues(c.ins, ready, group);
    }
  }

  lemma {:induction false} ReadyInTrace(c: Config, s: Machine, xs: seq<nat>)
    requires Shape(c, s) && InTrace(c.ins, xs) && Ascending(xs)
    ensures InTrace(c.ins, ReadyIn(c, s, xs))
  {
    hide Ready;
    var r := ReadyIn(c, s, xs);
    assert forall k :: 0 <= k < |r| ==> r[k] in r;
  }

  // ---- One cycle lowers the measure ----

  lemma FinishFacts(c: Config, m: Machine, group: seq<nat>, m': Machine)
    requires Step(c, m, group, m')
    ensures Inv(c, m')
    ensures var s := Settle(c, m);
            && m'.retireHead == s.retireHead && m'.nextAdmit == s.nextAdmit && m'.completed == s.completed
            && m'.cycle == m.cycle + 1
            && (forall i :: 0 <= i < |c.ins| ==> (m'.issued[i] <==> s.issued[i] || i in group))
            && (forall i :: 0 <= i < |c.ins| && s.issued[i] ==> m'.issueCycle[i] == s.issueCycle[i])
            && (forall i :: i in group ==> s.retireHead <= i < s.nextAdmit && !s.issued[i])
            && (m'.feedClock == m.feedClock || m'.feedClock == m.feedClock + 1)
            && (!FeedBlocked(c, s) ==> m'.feedClock == m.feedClock + 1)
  {
    hide Config.IsFree, Nested, Timed, MemOrder, DepOrder, Barrier, StrictOrder, MemBound, Settle, Chosen, Assignable,
      Ready, Instruction.IsPersistentHard, FeedBlocked, IssueStats;
    StepKeeps(c, m, group, m');
    SettleFacts(c, m);
    GroupIsSelected(c, Settle(c, m), group);
    assert forall i :: i in group ==> Selected(c, Settle(c, m), i);
  }

  /** What one cycle records about the instructions that it admits and issues. */
  lemma StepStamps(c: Config, m: Machine, group: seq<nat>, m': Machine)
    requires Step(c, m, group, m') && Inv(c, m')
    ensures forall i :: m.nextAdmit <= i < m'.nextAdmit ==> c.releases[i] <= m.feedClock
    ensures forall i :: 0 <= i < |c.ins| && m.issued[i] ==> m'.issued[i] && m'.issueCycle[i] == m.issueCycle[i]
    ensures forall i :: 0 <= i < |c.ins| && m'.issued[i] && !m.issued[i] ==>
                          && m'.issueCycle[i] == m.cycle
                          && (if c.IsFree(i) then m'.completed[i] else i in group && !m'.completed[i])
    ensures forall i :: i in group ==> i < |c.ins| && !c.IsFree(i) && !m.issued[i] && m'.issued[i]
  {
    hide Config.IsFree, MemOrder, DepOrder, Barrier, StrictOrder, MemBound, Timed, Settle, Chosen, Assignable,
      Ready, Instruction.IsPersistentHard, FeedBlocked, IssueStats;
    SettleFacts(c, m);
    SettleStamps(c, m);
    FinishFacts(c, m, group, m');
    GroupIsSelected(c, Settle(c, m), group);
    assert forall i :: i in group ==> Selected(c, Settle(c, m), i);
  }

  /** What settling does to an unretired head. */
  lemma SettledHead(c: Config, m: Machine)
    requires Inv(c, m) && m.retireHead < m.nextAdmit && m.issued[m.retireHead] && !m.completed[m.retireHead]
    ensures c.ins[m.retireHead].IsStore() || Due(c, m, m.retireHead) <= m.cycle ==>
              Settle(c, m).completed[m.retireHead]
  {
    hide Config.IsFree, Timed, MemOrder, DepOrder, Barrier, StrictOrder, MemBound, Instruction.IsHard, Instruction.IsStore,
      Observe, Admit;
    var h := m.retireHead;
    HeadNotRetired(c, m, 3);
    DrainKeeps(c, m);
    HeadStoreKeeps(c, Drain(c, m));
    var stored := HeadStore(c, Drain(c, m));
    if c.ins[h].IsStore() || Due(c, m, h) <= m.cycle {
      SettledCompletes(c, m, stored, h);
    }
  }

  lemma {:induction false} SettledCompletes(c: Config, m: Machine, stored: Machine, h: nat)
    requires Inv(c, m) && Retire(c, m, 3) == m
    requires stored == HeadStore(c, Drain(c, m)) && Inv(c, stored)
    requires h < |c.ins| && stored.completed[h]
    ensures Settle(c, m).completed[h]
  {
    hide Config.IsFree, Nested, Timed, MemOrder, DepOrder, Barrier, StrictOrder, MemBound, HeadStore, Drain, Retire, Admit;
    AdmitFacts(c, stored, 3);
  }

  lemma EmptyWindowStalls(c: Config, m: Machine)
    requires Inv(c, m) && c.capacity >= 1 && m.retireHead == m.nextAdmit < |c.ins|
    ensures var s := Settle(c, m);
            s.nextAdmit == m.nextAdmit ==> s.retireHead == m.retireHead && c.releases[m.nextAdmit] > m.feedClock
  {
    hide Config.IsFree, Timed, MemOrder, DepOrder, Barrier, StrictOrder, MemBound;
    HeadNotRetired(c, m, 3);
    DrainKeeps(c, m);
    HeadStoreKeeps(c, Drain(c, m));
    hide Admit;
    AdmitFacts(c, HeadStore(c, Drain(c, m)), 3);
    SettleFacts(c, m);
  }

  lemma {:induction false} WeightsFall(c: Config, m: Machine, m': Machine, n: nat)
    requires Shape(c, m) && Shape(c, m') && n <= |c.ins|
    requires forall i :: 0 <= i < n ==> Weight(c, m', i) <= Weight(c, m, i)
    ensures Weights(c, m', n) <= Weights(c, m, n)
    ensures (exists i :: 0 <= i < n && Weight(c, m', i) < Weight(c, m, i)) ==> Weights(c, m', n) < Weights(c, m, n)
    ensures (exists i :: 0 <= i < n && Weight(c, m', i) + 2 <= Weight(c, m, i)) ==>
              Weights(c, m', n) + 2 <= Weights(c, m, n)
  {
    hide Weight;
    if n > 0 {
      WeightsFall(c, m, m', n - 1);
    }
  }

  ghost predicate Advances(c: Config, m: Machine, m': Machine, i: nat)
    requires Shape(c, m) && Shape(c, m') && i < |c.ins|
  {
    || m.nextAdmit <= i < m'.nextAdmit
    || (!m.issued[i] && m'.issued[i])
    || Rest(c, m', i) < Rest(c, m, i)
    || m.retireHead <= i < m'.retireHead
  }

  /** No cycle adds work. */
  lemma WeightFalls(c: Config, m: Machine, group: seq<nat>, m': Machine, i: nat)
    requires Step(c, m, group, m') && Inv(c, m') && i < |c.ins|
    ensures Weight(c, m', i) <= Weight(c, m, i)
    ensures Advances(c, m, m', i) ==> Weight(c, m', i) < Weight(c, m, i)
    ensures m.nextAdmit <= i < m'.nextAdmit && m'.issued[i] ==> Weight(c, m', i) + 2 <= Weight(c, m, i)
  {
    hide MemOrder, DepOrder, Barrier, StrictOrder, MemBound, Settle, Chosen, FeedBlocked, IssueStats, Config.IsFree,
      Instruction.IsStore;
    SettleFacts(c, m);
    FinishFacts(c, m, group, m');
    StepStamps(c, m, group, m');
  }

  /** Deadlock freedom: with room for one instruction, every cycle before the end lowers the work
      left. */
  lemma StepLowers(c: Config, m: Machine, group: seq<nat>, m': Machine)
    requires Step(c, m, group, m') && c.capacity >= 1 && m.retireHead < |c.ins|
    ensures Inv(c, m') && Left(c, m') < Left(c, m)
  {
    hide Config.IsFree, Timed, MemOrder, DepOrder, Barrier, StrictOrder, MemBound, Settle, Chosen, Finish, Weight, Weights,
      FeedBlocked, Rest;
    SettleFacts(c, m);
    FinishFacts(c, m, group, m');
    forall i | 0 <= i < |c.ins|
      ensures Weight(c, m', i) <= Weight(c, m, i)
    {
      WeightFalls(c, m, group, m', i);
    }
    WeightsFall(c, m, m', |c.ins|);
    var h := m.retireHead;
    if m'.retireHead > h {
      WeightFalls(c, m, group, m', h);
    } else if m'.nextAdmit > m.nextAdmit {
      WeightFalls(c, m, group, m', m.nextAdmit);
    } else if m.nextAdmit == h {
      EmptyWindowClock(c, m, group, m');
    } else if |group| > 0 {
      assert group[0] in group;
      WeightFalls(c, m, group, m', group[0]);
    } else {
      if !m.issued[h] {
        assert !Settle(c, m).issued[h];
        WaitingHeadIssuesSomething(c, Settle(c, m), group);
      }
      HeadRests(c, m, group, m');
      WeightFalls(c, m, group, m', h);
    }
  }

  /** A cycle that admits into an empty window also issues. */
  lemma FirstAdmissionIssues(c: Config, m: Machine, group: seq<nat>, m': Machine)
    requires Step(c, m, group, m') && m.retireHead == m.nextAdmit < m'.nextAdmit
    ensures Inv(c, m') && Left(c, m') + 2 <= Left(c, m)
  {
    hide Config.IsFree, Timed, MemOrder, DepOrder, Barrier, StrictOrder, MemBound, Settle, Chosen, Finish, Weight, Weights,
      FeedBlocked, Rest;
    SettleFacts(c, m);
    FinishFacts(c, m, group, m');
    forall i | 0 <= i < |c.ins|
      ensures Weight(c, m', i) <= Weight(c, m, i)
    {
      WeightFalls(c, m, group, m', i);
    }
    var h := m.nextAdmit;
    if m'.issued[h] {
      WeightFalls(c, m, group, m', h);
    } else {
      WaitingHeadIssuesSomething(c, Settle(c, m), group);
      assert group[0] in group;
      WeightFalls(c, m, group, m', group[0]);
    }
    WeightsFall(c, m, m', |c.ins|);
  }

  /** An issued head that stays comes one cycle closer to its completion. */
  lemma HeadRests(c: Config, m: Machine, group: seq<nat>, m': Machine)
    requires Step(c, m, group, m') && Inv(c, m')
    requires m'.retireHead == m.retireHead < m'.nextAdmit == m.nextAdmit
    requires m.issued[m.retireHead] && !m.completed[m.retireHead]
    ensures Rest(c, m', m.retireHead) < Rest(c, m, m.retireHead)
  {
    hide Config.IsFree, Timed, MemOrder, DepOrder, Barrier, StrictOrder, MemBound, Settle, Chosen, Finish,
      FeedBlocked, Instruction.IsStore;
    SettledHead(c, m);
    SettleFacts(c, m);
    FinishFacts(c, m, group, m');
  }

  lemma EmptyWindowClock(c: Config, m: Machine, group: seq<nat>, m': Machine)
    requires Step(c, m, group, m') && Inv(c, m') && c.capacity >= 1
    requires m'.retireHead == m.retireHead == m.nextAdmit == m'.nextAdmit < |c.ins|
    ensures m.feedClock < Greatest(c.releases) && m'.feedClock == m.feedClock + 1
  {
    hide Config.IsFree, Nested, Timed, MemOrder, DepOrder, Barrier, StrictOrder, MemBound, Settle, Chosen, Finish;
    EmptyWindowStalls(c, m);
    SettleFacts(c, m);
    FinishFacts(c, m, group, m');
    assert !FeedBlocked(c, Settle(c, m));
  }

  // ---- Runs ----

  ghost predicate Run(c: Config, ms: seq<Machine>, groups: seq<seq<nat>>) {
    && |ms| == |groups| + 1
    && forall k :: 0 <= k < |groups| ==> Step(c, ms[k], groups[k], ms[k + 1])
  }

  /** A run from the start whose states before the last are unfinished. */
  ghost predicate Begins(c: Config, ms: seq<Machine>, groups: seq<seq<nat>>)
    requires c.Valid()
  {
    && Run(c, ms, groups) && ms[0] == Initial(c)
    && forall k :: 0 <= k < |groups| ==> ms[k].retireHead < |c.ins|
  }

  ghost predicate Ends(c: Config, ms: seq<Machine>, groups: seq<seq<nat>>)
    requires c.Valid()
  {
    Begins(c, ms, groups) && ms[|groups|].retireHead == |c.ins|
  }

  // ---- A bypassed head ----

  ghost predicate HeadWaits(c: Config, m: Machine, h: nat) {
    Inv(c, m) && m.retireHead == h < m.nextAdmit && !m.issued[h]
  }

  lemma InFlightGrows(c: Config, m: Machine, group: seq<nat>, m': Machine, h: nat)
    requires Step(c, m, group, m') && HeadWaits(c, m, h) && HeadWaits(c, m', h)
    ensures |InFlight(c, m')| > |InFlight(c, m)|
  {
    hide Config.IsFree, Timed, MemOrder, DepOrder, Barrier, StrictOrder, MemBound, Settle, Chosen, Finish, FeedBlocked;
    SettleFacts(c, m);
    FinishFacts(c, m, group, m');
    WaitingHeadIssuesSomething(c, Settle(c, m), group);
    assert group[0] in group;
    assert group[0] !in InFlight(c, m);
    assert InFlight(c, m) + {group[0]} <= InFlight(c, m');
    SmallerActive(InFlight(c, m) + {group[0]}, InFlight(c, m'));
  }

  lemma {:induction false} InFlightAfter(c: Config, ms: seq<Machine>, groups: seq<seq<nat>>, h: nat)
    requires Run(c, ms, groups) && forall k :: 0 <= k < |ms| ==> HeadWaits(c, ms[k], h)
    ensures HeadWaits(c, ms[|groups|], h) && |InFlight(c, ms[|groups|])| >= |groups|
  {
    hide Inv, Step;
    if |groups| > 0 {
      var n := |groups| - 1;
      InFlightAfter(c, ms[..n + 1], groups[..n], h);
      InFlightGrows(c, ms[n], groups[n], ms[n + 1], h);
    }
  }

  lemma {:induction false} IntervalCount(s: set<nat>, lo: nat, hi: nat)
    requires lo <= hi && forall i :: i in s ==> lo <= i < hi
    ensures |s| <= hi - lo
  {
    if lo < hi {
      IntervalCount(s - {hi - 1}, lo, hi - 1);
    } else {
      assert s == {};
    }
  }

  /** An admitted head stays unissued for fewer than `capacity` cycles, whatever is chosen before it. */
  lemma HeadIssuesWithinCapacity(c: Config, ms: seq<Machine>, groups: seq<seq<nat>>, h: nat)
    requires Run(c, ms, groups) && forall k :: 0 <= k < |ms| ==> HeadWaits(c, ms[k], h)
    ensures |ms| <= c.capacity
  {
    hide Config.IsFree, Timed, MemOrder, DepOrder, Barrier, StrictOrder, MemBound, Step;
    InFlightAfter(c, ms, groups, h);
    var last := ms[|groups|];
    assert HeadWaits(c, last, h);
    IntervalCount(InFlight(c, last), h + 1, last.nextAdmit);
  }
}
