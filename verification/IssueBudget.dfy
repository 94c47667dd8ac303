/** Complete runs of the scheduling loop: without a cycle budget every run ends; bounds on the length
    of a run from both sides; and what the budget of the source does to it. */
module IssueBudget {
  import opened Options
  import opened IssueTrace
  import opened IssueMachine
  import opened IssueRun
  import opened IssueAccounts
  import opened IssueProgress
  import opened IssueOrder
  import opened IssueScheduler

  function Budget(c: Config): nat { 10 * if |c.ins| >= 1 then |c.ins| else 1 }

  lemma {:induction false} RunKeeps(c: Config, ms: seq<Machine>, groups: seq<seq<nat>>)
    requires c.Valid() && Begins(c, ms, groups)
    ensures Accounts(c, ms[|groups|]) && Lasted(c, ms[|groups|], ms[|groups|].cycle)
    ensures ms[|groups|].cycle == Least(c.releases) + |groups|
  {
    hide Config.IsFree, Inv, SlotsBalance, Paced, Lasted, Settle, Chosen;
    if |groups| == 0 {
      InitialAccounts(c);
      InitialLasted(c);
    } else {
      var n := |groups| - 1;
      assert Begins(c, ms[..n + 1], groups[..n]);
      RunKeeps(c, ms[..n + 1], groups[..n]);
      assert Step(c, ms[n], groups[n], ms[n + 1]);
      SettleFacts(c, ms[n]);
      StepAccounts(c, ms[n], groups[n], ms[n + 1]);
      StepLasts(c, ms[n], groups[n], ms[n + 1]);
    }
  }

  lemma {:induction false} RunsAgree(c: Config, ms: seq<Machine>, g: seq<seq<nat>>, ns: seq<Machine>, h: seq<seq<nat>>, k: nat)
    requires c.Valid() && Begins(c, ms, g) && Begins(c, ns, h) && k <= |g| && k <= |h|
    ensures ms[k] == ns[k]
    decreases k
  {
    hide Step;
    if k > 0 {
      RunsAgree(c, ms, g, ns, h, k - 1);
      StepDetermined(c, ms[k - 1], g[k - 1], ms[k], h[k - 1], ns[k]);
    }
  }

  /** A complete run is at least as long as any beginning, so its length is determined. */
  lemma CompleteIsLongest(c: Config, ms: seq<Machine>, g: seq<seq<nat>>, ns: seq<Machine>, h: seq<seq<nat>>)
    requires c.Valid() && Ends(c, ms, g) && Begins(c, ns, h)
    ensures |h| <= |g|
  {
    hide Step;
    if |g| < |h| {
      RunsAgree(c, ms, g, ns, h, |g|);
    }
  }

  // ---- No run is shorter than its critical path ----

  /** Before cycle `now`, nothing was admitted before its release or complete before it had lasted. */
  ghost predicate Lasted(c: Config, m: Machine, now: int) {
    && Shape(c, m)
    && (forall i :: 0 <= i < m.nextAdmit ==> c.releases[i] < now)
    && (forall i :: 0 <= i < |c.ins| && m.issued[i] ==> c.releases[i] <= m.issueCycle[i])
    && (forall i :: 0 <= i < |c.ins| && m.completed[i] ==> m.issueCycle[i] + Lasts(c, i) <= m.completeCycle[i] < now)
  }

  /** The first cycle in which instruction i could issue in any window: its release, its producers'
      completion and the older memory operation allow for no earlier one. */
  function Earliest(c: Config, i: nat): int
    requires i < |c.ins| == |c.releases|
  {
    var released := c.releases[i];
    if c.IsFree(i) then released
    else
      var first := match Producer1(c.ins, i)
        case Some(p) => if p < i then Earliest(c, p) + Lasts(c, p) else released
        case None => released;
      var second := match Producer2(c.ins, i)
        case Some(p) => if p < i then Earliest(c, p) + Lasts(c, p) else released
        case None => released;
      var memory := match if c.ins[i].IsMem() then LastMem(c.ins, i) else None
        case Some(p) => if p < i then Earliest(c, p) + 1 else released
        case None => released;
      Max(Max(released, first), Max(second, memory))
  }

  lemma {:induction false} EarliestHolds(c: Config, m: Machine, i: nat)
    requires Inv(c, m) && Lasted(c, m, m.cycle) && i < |c.ins| && m.issued[i]
    ensures Earliest(c, i) <= m.issueCycle[i]
    decreases i
  {
    hide Instruction.IsMem, Instruction.IsStore, Instruction.Latency, Instruction.IsPersistentHard, Barrier, StrictOrder,
      MemBound, Config.IsFree, Lasts;
    if !c.IsFree(i) {
      assert FoundDeps(c, m, i) && LinkedAt(c.ins, c.links, i);
      forall p | p in c.links[i].deps
        ensures p < i && Earliest(c, p) + Lasts(c, p) <= m.issueCycle[i]
      {
        EarliestHolds(c, m, p);
      }
      if c.ins[i].IsMem() && LastMem(c.ins, i).Some? {
        var p := LastMem(c.ins, i).value;
        LastMemIsYoungest(c.ins, i);
        OlderMemOfIssued(c, m, i, p);
        EarliestHolds(c, m, p);
      }
    }
  }

  lemma InitialLasted(c: Config)
    requires c.Valid()
    ensures Lasted(c, Initial(c), Least(c.releases))
  {
    hide Inv;
  }

  lemma DrainLasts(c: Config, m: Machine)
    requires Inv(c, m) && Lasted(c, m, m.cycle + 1)
    ensures Lasted(c, Drain(c, m), m.cycle + 1)
  {
    hide Config.IsFree, Instruction.IsStore, Instruction.Latency, Timed, MemOrder, DepOrder, Barrier, StrictOrder, MemBound;
  }

  lemma HeadStoreLasts(c: Config, m: Machine)
    requires Inv(c, m) && Lasted(c, m, m.cycle + 1)
    ensures Lasted(c, HeadStore(c, m), m.cycle + 1)
  {
    hide Config.IsFree, Instruction.IsStore, Instruction.Latency, MemOrder, DepOrder, Barrier, StrictOrder, MemBound;
  }

  lemma {:induction false} AdmitLasts(c: Config, m: Machine, left: nat)
    requires NothingBeyond(c, m) && Lasted(c, m, m.cycle + 1) && m.feedClock <= m.cycle
    ensures Lasted(c, Admit(c, m, left), m.cycle + 1)
    decreases left
  {
    hide Config.IsFree, Instruction.IsStore, Instruction.IsBranch, Instruction.Latency;
    if && m.nextAdmit < |c.ins| && left > 0 && m.nextAdmit - m.retireHead < c.capacity
       && c.releases[m.nextAdmit] <= m.feedClock {
      AdmitLasts(c, AdmitOne(c, m), left - 1);
    }
  }

  ghost predicate NothingBeyond(c: Config, m: Machine) {
    Shape(c, m) && forall i :: m.nextAdmit <= i < |c.ins| ==> !m.issued[i] && !m.completed[i]
  }

  lemma SettleLasts(c: Config, m: Machine)
    requires Inv(c, m) && Lasted(c, m, m.cycle) && m.feedClock <= m.cycle
    ensures Lasted(c, Settle(c, m), m.cycle + 1)
  {
    hide Config.IsFree, Lasts, Instruction.IsHard, Timed, MemOrder, DepOrder, Barrier, StrictOrder, MemBound, Admit, Retire,
      Drain, HeadStore;
    RetireKeeps(c, m, 3);
    var retired := Retire(c, m, 3);
    DrainKeeps(c, retired);
    DrainLasts(c, retired);
    HeadStoreKeeps(c, Drain(c, retired));
    HeadStoreLasts(c, Drain(c, retired));
    var stored := HeadStore(c, Drain(c, retired));
    AdmitLasts(c, stored, 3);
  }

  lemma StepLasts(c: Config, m: Machine, group: seq<nat>, m': Machine)
    requires Step(c, m, group, m') && Lasted(c, m, m.cycle) && m.feedClock <= m.cycle
    ensures Lasted(c, m', m'.cycle)
  {
    hide Config.IsFree, Lasts, Timed, MemOrder, DepOrder, Barrier, StrictOrder, MemBound, Settle, Chosen, IssueStats,
      FeedBlocked;
    SettleLasts(c, m);
    SettleFacts(c, m);
    FinishFacts(c, m, group, m');
  }

  lemma RetiredWasComplete(c: Config, m: Machine, group: seq<nat>, m': Machine)
    requires Step(c, m, group, m')
    ensures m'.retireHead <= |c.ins| && forall i :: 0 <= i < m'.retireHead ==> m.completed[i]
  {
    hide Config.IsFree, Timed, MemOrder, DepOrder, Barrier, StrictOrder, MemBound, Admit, Retire, Chosen, Drain, HeadStore;
    FinishFacts(c, m, group, m');
    RetireKeeps(c, m, 3);
    var retired := Retire(c, m, 3);
    DrainKeeps(c, retired);
    HeadStoreKeeps(c, Drain(c, retired));
    AdmitKeeps(c, HeadStore(c, Drain(c, retired)), 3);
  }

  /** A complete run lasts until every instruction has had its earliest issue, its latency, and the
      cycles that see it complete and retire. */
  lemma {:induction false} CriticalPathBounds(c: Config, ms: seq<Machine>, groups: seq<seq<nat>>, i: nat)
    requires c.Valid() && Ends(c, ms, groups) && i < |c.ins|
    ensures Earliest(c, i) + Lasts(c, i) + 2 <= Least(c.releases) + |groups|
  {
    hide Config.IsFree, Lasts, Earliest, Timed, MemOrder, DepOrder, Barrier, StrictOrder, MemBound, Step, SlotsBalance, Paced,
      CountersBounded;
    assert |groups| > 0;
    var n := |groups| - 1;
    assert Begins(c, ms[..n + 1], groups[..n]);
    RunKeeps(c, ms[..n + 1], groups[..n]);
    RetiredWasComplete(c, ms[n], groups[n], ms[n + 1]);
    EarliestHolds(c, ms[n], i);
  }

  /** One ALU instruction with a latency of eleven cycles: the budget of ten is too small, although
      the loop would end. */
  lemma BudgetRejectsTerminatingRun(c: Config, ms: seq<Machine>, groups: seq<seq<nat>>)
    requires c == Config([Instruction(0x33, false, false, 0, 0, true, 1, 0, 0, 0, 11)], [Links([], None)], [0],
                         Window, 16, true, false, false)
    requires c.Valid() && Ends(c, ms, groups)
    ensures |groups| > Budget(c)
  {
    hide Ends;
    CriticalPathBounds(c, ms, groups, 0);
  }

  // ---- No run is longer than its work ----

  function TotalLasts(c: Config, n: nat): nat
    requires n <= |c.ins|
  {
    if n == 0 then 0 else TotalLasts(c, n - 1) + Lasts(c, n - 1)
  }

  /** The release span, three cycles for each instruction and what the instructions last, less the
      one that admits and issues the first of them. */
  function WorkBound(c: Config): int
    requires |c.releases| > 0
  {
    Greatest(c.releases) - Least(c.releases) + 3 * |c.ins| + TotalLasts(c, |c.ins|) - 1
  }

  lemma {:induction false} InitialWeights(c: Config, n: nat)
    requires c.Valid() && n <= |c.ins|
    ensures Weights(c, Initial(c), n) == 3 * n + TotalLasts(c, n)
  {
    hide Inv, Lasts;
    if n > 0 {
      InitialWeights(c, n - 1);
    }
  }

  lemma {:induction false} LeastIsLower(xs: seq<int>)
    requires |xs| > 0
    ensures forall k :: 0 <= k < |xs| ==> Least(xs) <= xs[k]
  {
    if |xs| > 1 {
      LeastIsLower(xs[1..]);
    }
  }

  lemma {:induction false} FirstWeighs(c: Config, m: Machine, n: nat)
    requires Shape(c, m) && m.nextAdmit == 0 < n <= |c.ins|
    ensures Weights(c, m, n) > 0
  {
    hide Rest;
    if n > 1 {
      FirstWeighs(c, m, n - 1);
    }
  }

  /** The work done so far and the work left never exceed the work bound. */
  lemma {:induction false} WorkIsDone(c: Config, ms: seq<Machine>, groups: seq<seq<nat>>)
    requires c.Valid() && c.capacity >= 1 && Begins(c, ms, groups)
    ensures var m := ms[|groups|];
            Inv(c, m) && |groups| + Left(c, m) + (if m.nextAdmit > 0 then 1 else 0) <= WorkBound(c) + 1
    decreases |groups|
  {
    hide Nested, Timed, MemOrder, DepOrder, Barrier, StrictOrder, MemBound, Settle, Chosen, Finish, Weights, Greatest, Least;
    if |groups| == 0 {
      InitialWeights(c, |c.ins|);
      LeastIsLower(c.releases);
      assert Least(c.releases) <= c.releases[0] <= Greatest(c.releases);
    } else {
      var n := |groups| - 1;
      assert Begins(c, ms[..n + 1], groups[..n]);
      WorkIsDone(c, ms[..n + 1], groups[..n]);
      assert Step(c, ms[n], groups[n], ms[n + 1]);
      StepLowers(c, ms[n], groups[n], ms[n + 1]);
      if ms[n].nextAdmit == 0 < ms[n + 1].nextAdmit {
        FirstAdmissionIssues(c, ms[n], groups[n], ms[n + 1]);
      }
    }
  }

  /** With room for one instruction, no run is longer than the work bound. */
  lemma {:induction false} WorkBoundHolds(c: Config, ms: seq<Machine>, groups: seq<seq<nat>>)
    requires c.Valid() && c.capacity >= 1 && Begins(c, ms, groups)
    ensures |groups| <= WorkBound(c)
  {
    hide Nested, Timed, MemOrder, DepOrder, Barrier, StrictOrder, MemBound, Step, Weights, WorkBound;
    WorkIsDone(c, ms, groups);
    if ms[|groups|].nextAdmit == 0 {
      FirstWeighs(c, ms[|groups|], |c.ins|);
    }
  }

  /** For a trace of one instruction both bounds are the length of the run. */
  lemma {:induction false} OneInstructionExactly(c: Config, ms: seq<Machine>, groups: seq<seq<nat>>)
    requires c.Valid() && c.capacity >= 1 && |c.ins| == 1 && Ends(c, ms, groups)
    ensures |groups| == Lasts(c, 0) + 2 == WorkBound(c)
    ensures |groups| > Budget(c) <==> Lasts(c, 0) > 8
  {
    hide Step, Lasts, Inv;
    assert TotalLasts(c, 1) == TotalLasts(c, 0) + Lasts(c, 0);
    assert Earliest(c, 0) >= c.releases[0];
    WorkBoundHolds(c, ms, groups);
    CriticalPathBounds(c, ms, groups, 0);
  }

  /** Without room for one instruction, nothing is ever admitted. */
  lemma {:induction false} NoRoomNoProgress(c: Config, ms: seq<Machine>, groups: seq<seq<nat>>)
    requires c.Valid() && c.capacity <= 0 && Begins(c, ms, groups)
    ensures Inv(c, ms[|groups|]) && ms[|groups|].retireHead == ms[|groups|].nextAdmit == 0
    decreases |groups|
  {
    hide Timed, MemOrder, DepOrder, Barrier, StrictOrder, MemBound, Step, Config.IsFree;
    if |groups| > 0 {
      var n := |groups| - 1;
      assert Begins(c, ms[..n + 1], groups[..n]);
      NoRoomNoProgress(c, ms[..n + 1], groups[..n]);
      assert Step(c, ms[n], groups[n], ms[n + 1]);
      NoRoomStep(c, ms[n], groups[n], ms[n + 1]);
    }
  }

  lemma NoRoomStep(c: Config, m: Machine, group: seq<nat>, m': Machine)
    requires Step(c, m, group, m') && c.capacity <= 0 && m.retireHead == m.nextAdmit == 0
    ensures Inv(c, m') && m'.retireHead == m'.nextAdmit == 0
  {
    hide Config.IsFree, Timed, MemOrder, DepOrder, Barrier, StrictOrder, MemBound, Chosen, Drain;
    FinishFacts(c, m, group, m');
    HeadNotRetired(c, m, 3);
    DrainKeeps(c, m);
    HeadStoreKeeps(c, Drain(c, m));
  }

  // ---- The loop ----

  /** The loop without a budget: it ends, with every instruction retired. */
  method RunToEnd(c: Config) returns (s: Scheduler, ghost ms: seq<Machine>, ghost groups: seq<seq<nat>>)
    requires c.Valid() && c.capacity >= 1
    ensures fresh(s) && s.c == c && s.Coupled() && s.retireHead == |c.ins|
    ensures Ends(c, ms, groups) && ms[|groups|] == s.View()
    ensures s.order == OrderOf(c, ms, groups)
    ensures History(c, s.View(), s.order) && Accounts(c, s.View())
  {
    hide Config.IsFree, Nested, Timed, MemOrder, DepOrder, Barrier, StrictOrder, MemBound, History, SlotsBalance, Paced,
      CountersBounded, Step, Left, Scheduler.Tied;
    s := new Scheduler(c);
    ms, groups := [s.View()], [];
    while s.retireHead < |c.ins|
      invariant s.c == c && s.Coupled() && History(c, s.View(), s.order) && Accounts(c, s.View())
      invariant Begins(c, ms, groups) && ms[|groups|] == s.View() && s.order == OrderOf(c, ms, groups)
      decreases Left(c, s.View())
    {
      ghost var before := s.View();
      ghost var group := s.Cycle();
      StepLowers(c, before, group, s.View());
      OrderGrows(c, ms, groups, group, s.View());
      ExtendRun(c, ms, groups, group, s.View());
      ms, groups := ms + [s.View()], groups + [group];
    }
  }

  lemma ExtendRun(c: Config, ms: seq<Machine>, groups: seq<seq<nat>>, group: seq<nat>, m: Machine)
    requires c.Valid() && Begins(c, ms, groups) && ms[|groups|].retireHead < |c.ins|
    requires Step(c, ms[|groups|], group, m)
    ensures Begins(c, ms + [m], groups + [group])
  {
    hide Step;
  }

  /** No window could finish within the budget. */
  ghost predicate Overlong(c: Config)
    requires |c.ins| == |c.releases| > 0
  {
    || c.capacity <= 0
    || exists i :: 0 <= i < |c.ins| && Earliest(c, i) + Lasts(c, i) + 2 - Least(c.releases) > Budget(c)
  }

  datatype Outcome = NoInstructions | NoProgress(head: nat) | Finished(cycles: int, stats: Stats)

  /** schedule as the source has it, with its cycle budget and its failure on an empty trace. */
  method Schedule(c: Config) returns (outcome: Outcome, ghost ms: seq<Machine>, ghost groups: seq<seq<nat>>)
    requires Linked(c.ins, c.links) && |c.releases| == |c.ins|
    ensures outcome.NoInstructions? <==> |c.ins| == 0
    ensures outcome.Finished? ==>
              && c.Valid() && Ends(c, ms, groups) && |groups| <= Budget(c)
              && outcome.cycles == |groups| && outcome.stats == ms[|groups|].stats
    ensures outcome.NoProgress? ==>
              && c.Valid() && Begins(c, ms, groups) && |groups| == Budget(c) + 1
              && outcome.head == ms[|groups|].retireHead
    ensures |c.ins| > 0 && c.capacity >= 1 && WorkBound(c) <= Budget(c) ==> outcome.Finished?
    ensures |c.ins| > 0 && Overlong(c) ==> outcome.NoProgress?
  {
    hide Config.IsFree, Nested, Timed, MemOrder, DepOrder, Barrier, StrictOrder, MemBound, History, SlotsBalance, Paced,
      CountersBounded, Step, Scheduler.Tied;
    if |c.ins| == 0 {
      return NoInstructions, [], [];
    }
    var s := new Scheduler(c);
    var startCycle := s.cycle;
    ms, groups := [s.View()], [];
    while s.retireHead < |c.ins|
      invariant s.c == c && s.Coupled() && History(c, s.View(), s.order) && Accounts(c, s.View())
      invariant Begins(c, ms, groups) && ms[|groups|] == s.View()
      invariant s.cycle == startCycle + |groups| && |groups| <= Budget(c)
      decreases Budget(c) - |groups|
    {
      ghost var before := s.View();
      ghost var group := s.Cycle();
      FinishFacts(c, before, group, s.View());
      ExtendRun(c, ms, groups, group, s.View());
      ms, groups := ms + [s.View()], groups + [group];
      if s.cycle - startCycle > Budget(c) {
        NotWithin(c, ms, groups);
        return NoProgress(s.retireHead), ms, groups;
      }
    }
    NotOverlong(c, ms, groups);
    outcome := Finished(s.cycle - startCycle, s.stats);
  }

  lemma NotWithin(c: Config, ms: seq<Machine>, groups: seq<seq<nat>>)
    requires c.Valid() && Begins(c, ms, groups) && |groups| > Budget(c)
    ensures c.capacity >= 1 ==> WorkBound(c) > Budget(c)
  {
    hide Step, Inv, Left;
    if c.capacity >= 1 {
      WorkBoundHolds(c, ms, groups);
    }
  }

  lemma NotOverlong(c: Config, ms: seq<Machine>, groups: seq<seq<nat>>)
    requires c.Valid() && Ends(c, ms, groups) && |groups| <= Budget(c)
    ensures !Overlong(c)
  {
    hide Step, Inv, Earliest, Lasts;
    if c.capacity <= 0 {
      NoRoomNoProgress(c, ms, groups);
    }
    forall i | 0 <= i < |c.ins|
      ensures Earliest(c, i) + Lasts(c, i) + 2 - Least(c.releases) <= Budget(c)
    {
      CriticalPathBounds(c, ms, groups, i);
    }
  }

  /** The budget fails exactly the runs that are longer than it, and changes nothing about the others. */
  lemma BudgetOnlyCutsOff(c: Config, ms: seq<Machine>, groups: seq<seq<nat>>,
                                     ns: seq<Machine>, h: seq<seq<nat>>, failed: bool)
    requires c.Valid() && Ends(c, ns, h)
    requires if failed then Begins(c, ms, groups) && |groups| == Budget(c) + 1
             else Ends(c, ms, groups) && |groups| <= Budget(c)
    ensures failed <==> |h| > Budget(c)
    ensures !failed ==> |h| == |groups| && ns[|h|] == ms[|groups|]
  {
    hide Step;
    CompleteIsLongest(c, ns, h, ms, groups);
    if !failed {
      CompleteIsLongest(c, ms, groups, ns, h);
      RunsAgree(c, ms, groups, ns, h, |h|);
    }
  }
}
