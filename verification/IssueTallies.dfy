/** The counters returned by schedule, as numbers and maxima over the cycles of the run. */
module IssueTallies {
  import opened IssueTrace
  import opened IssuePipes
  import opened IssueMachine
  import opened IssueRun
  import opened IssueAccounts
  import opened IssueProgress
  import opened IssueWork

  datatype Kind = Skips | Idles | Fills | Stalls

  /** i is unissued in the window and older than all of the group. */
  ghost predicate PassedOver(c: Config, s: Machine, group: seq<nat>, i: nat)
    requires Shape(c, s)
  {
    |group| > 0 && s.retireHead <= i < s.nextAdmit && i < group[0] && !s.issued[i]
  }

  /** Whether a cycle counts: the oldest unissued instruction is passed over, the window is not empty and
      nothing issues, a released instruction finds no room, or that stops the feed. */
  ghost predicate Counts(c: Config, kind: Kind, s: Machine, group: seq<nat>)
    requires Shape(c, s)
  {
    match kind
    case Skips => exists i :: PassedOver(c, s, group, i)
    case Idles => group == [] && s.retireHead < s.nextAdmit
    case Fills => Full(c, s)
    case Stalls => c.pausableFeed && Full(c, s)
  }

  /** The number of cycles of a run that count. */
  ghost function Number(c: Config, kind: Kind, ms: seq<Machine>, groups: seq<seq<nat>>): nat
    requires Run(c, ms, groups)
    decreases |groups|
  {
    if |groups| == 0 then 0
    else
      var n := |groups| - 1;
      assert Step(c, ms[n], groups[n], ms[n + 1]);
      Number(c, kind, ms[..n + 1], groups[..n]) + if Counts(c, kind, Settle(c, ms[n]), groups[n]) then 1 else 0
  }

  function Slots(groups: seq<seq<nat>>): nat {
    if groups == [] then 0 else Slots(groups[..|groups| - 1]) + |groups[|groups| - 1]|
  }

  /** The free branches, or the free jumps, of the first n instructions. */
  function FreeOnes(c: Config, n: nat, branches: bool): nat
    requires n <= |c.ins|
  {
    if n == 0 then 0
    else FreeOnes(c, n - 1, branches) + if c.IsFree(n - 1) && c.ins[n - 1].IsBranch() == branches then 1 else 0
  }

  /** How many instructions are in the window in each cycle. */
  ghost function Occupancies(c: Config, ms: seq<Machine>, groups: seq<seq<nat>>): set<int>
    requires Run(c, ms, groups)
    decreases |groups|
  {
    if |groups| == 0 then {}
    else
      var n := |groups| - 1;
      assert Step(c, ms[n], groups[n], ms[n + 1]);
      Occupancies(c, ms[..n + 1], groups[..n]) + {Settle(c, ms[n]).nextAdmit - Settle(c, ms[n]).retireHead}
  }

  function Youngest(group: seq<nat>): int { if group == [] then 0 else group[|group| - 1] }

  /** How far the youngest of a group lies behind each instruction that the group passes over. */
  ghost function Skipped(c: Config, s: Machine, group: seq<nat>): set<int>
    requires Shape(c, s)
  {
    set i: nat | i < |c.ins| && PassedOver(c, s, group, i) :: Youngest(group) - i
  }

  ghost function SkipDistances(c: Config, ms: seq<Machine>, groups: seq<seq<nat>>): set<int>
    requires Run(c, ms, groups)
    decreases |groups|
  {
    if |groups| == 0 then {}
    else
      var n := |groups| - 1;
      assert Step(c, ms[n], groups[n], ms[n + 1]);
      SkipDistances(c, ms[..n + 1], groups[..n]) + Skipped(c, Settle(c, ms[n]), groups[n])
  }

  /** The greatest of these values and zero. */
  ghost predicate IsMax(values: set<int>, max: int) {
    0 <= max && (forall v :: v in values ==> v <= max) && (max == 0 || max in values)
  }

  // ---- One cycle ----

  lemma {:induction false} AdmitCountsFree(c: Config, m: Machine, limit: nat)
    requires Shape(c, m)
    ensures var r := Admit(c, m, limit);
            && m.nextAdmit <= r.nextAdmit
            && r.stats.freeBranches - m.stats.freeBranches == FreeOnes(c, r.nextAdmit, true) - FreeOnes(c, m.nextAdmit, true)
            && r.stats.freeJumps - m.stats.freeJumps == FreeOnes(c, r.nextAdmit, false) - FreeOnes(c, m.nextAdmit, false)
    decreases limit
  {
    hide Config.IsFree, Instruction.IsBranch, Linked;
    if && m.nextAdmit < |c.ins| && limit > 0 && m.nextAdmit - m.retireHead < c.capacity
       && c.releases[m.nextAdmit] <= m.feedClock {
      AdmitCountsFree(c, AdmitOne(c, m), limit - 1);
    }
  }

  lemma {:induction false} SettleCountsFree(c: Config, m: Machine)
    requires Inv(c, m)
    ensures var s := Settle(c, m);
            && m.nextAdmit <= s.nextAdmit
            && s.stats.freeBranches - m.stats.freeBranches == FreeOnes(c, s.nextAdmit, true) - FreeOnes(c, m.nextAdmit, true)
            && s.stats.freeJumps - m.stats.freeJumps == FreeOnes(c, s.nextAdmit, false) - FreeOnes(c, m.nextAdmit, false)
  {
    hide Retire, Drain, HeadStore, Admit, Nested, Timed, MemOrder, DepOrder, Barrier, StrictOrder, MemBound, Linked, FreeOnes;
    RetireKeeps(c, m, 3);
    var retired := Retire(c, m, 3);
    DrainKeeps(c, retired);
    HeadStoreKeeps(c, Drain(c, retired));
    AdmitKeeps(c, HeadStore(c, Drain(c, retired)), 3);
    AdmitCountsFree(c, HeadStore(c, Drain(c, retired)), 3);
  }

  /** The oldest unissued instruction is passed over when it is not in the group, and then it is the oldest
      of those passed over. */
  lemma {:induction false} OldestPassed(c: Config, s: Machine, group: seq<nat>)
    requires Inv(c, s) && Chosen(c, s, group) && |group| > 0
    ensures var unissued := Unissued(c, s, s.retireHead, s.nextAdmit);
            && unissued != [] && unissued[0] < |c.ins|
            && (unissued[0] !in group <==> PassedOver(c, s, group, unissued[0]))
            && forall i :: PassedOver(c, s, group, i) ==> unissued[0] <= i && unissued[0] !in group
  {
    hide Nested, Timed, MemOrder, DepOrder, Barrier, StrictOrder, MemBound, Linked, Config.IsFree, Chosen, Assignable, Ready,
      Instruction.IsPersistentHard;
    SkipBounds(c, s, group);
    GroupIsSelected(c, s, group) by { assert Nested(c, s); }
    var unissued := Unissued(c, s, s.retireHead, s.nextAdmit);
    assert Selected(c, s, group[0]);
    assert group[0] in unissued && unissued[0] in unissued;
    assert forall i :: i in unissued ==> unissued[0] <= i by { FirstIsLeast(unissued); }
    assert forall i :: i in group ==> group[0] <= i by { FirstIsLeast(group); }
  }

  lemma FirstIsLeast(xs: seq<nat>)
    requires Ascending(xs) && xs != []
    ensures forall i :: i in xs ==> xs[0] <= i
  {
  }

  function One(counts: bool): int { if counts then 1 else 0 }

  /** How the greatest skip distance grows. */
  ghost predicate SkipGrows(c: Config, s: Machine, group: seq<nat>, before: int, after: int)
    requires Shape(c, s)
  {
    && before <= after && (forall d :: d in Skipped(c, s, group) ==> d <= after)
    && (after == before || after in Skipped(c, s, group))
  }

  /** What one group adds to the counters. */
  ghost predicate GroupAdds(c: Config, s: Machine, group: seq<nat>, before: Stats, after: Stats)
    requires Shape(c, s)
  {
    && after.issueSlots == before.issueSlots + |group|
    && after.noIssueCycles == before.noIssueCycles + One(Counts(c, Idles, s, group))
    && after.skippedOldestCycles == before.skippedOldestCycles + One(Counts(c, Skips, s, group))
    && SkipGrows(c, s, group, before.maxSkipDistance, after.maxSkipDistance)
  }

  lemma GroupCounts(c: Config, s: Machine, group: seq<nat>)
    requires Inv(c, s) && Chosen(c, s, group)
    ensures GroupAdds(c, s, group, s.stats, IssueStats(c, s, group))
  {
    hide Nested, Timed, MemOrder, DepOrder, Barrier, StrictOrder, MemBound, Linked, Chosen, Unissued, PassedOver;
    if |group| > 0 {
      OldestPassed(c, s, group);
      assert InGroup(group, Unissued(c, s, s.retireHead, s.nextAdmit)[0]) <==>
             Unissued(c, s, s.retireHead, s.nextAdmit)[0] in group;
    } else {
      NothingPassed(c, s);
    }
  }

  lemma NothingPassed(c: Config, s: Machine)
    requires Shape(c, s)
    ensures forall i :: !PassedOver(c, s, [], i)
  {
  }

  /** What settling adds. */
  ghost predicate SettleAdds(c: Config, m: Machine, s: Machine, before: Stats, after: Stats)
    requires Shape(c, m) && Shape(c, s)
  {
    && after.windowFullCycles == before.windowFullCycles + One(Full(c, s))
    && after.maxOccupancy == Max(before.maxOccupancy, s.nextAdmit - s.retireHead)
    && after.freeBranches - before.freeBranches == FreeOnes(c, s.nextAdmit, true) - FreeOnes(c, m.nextAdmit, true)
    && after.freeJumps - before.freeJumps == FreeOnes(c, s.nextAdmit, false) - FreeOnes(c, m.nextAdmit, false)
  }

  lemma StatsParts(c: Config, m: Machine, group: seq<nat>, m': Machine)
    requires Step(c, m, group, m') && Accounts(c, m)
    ensures var s := Settle(c, m);
            && SettleAdds(c, m, s, m.stats, s.stats)
            && s.stats == m.stats.(freeBranches := s.stats.freeBranches, freeJumps := s.stats.freeJumps,
                 maxOccupancy := s.stats.maxOccupancy, windowFullCycles := s.stats.windowFullCycles)
            && m'.stats == IssueStats(c, s, group).(
                 feedStallCycles := m.stats.feedStallCycles + One(c.pausableFeed && Full(c, s)))
  {
    hide Settle, Nested, Timed, MemOrder, DepOrder, Barrier, StrictOrder, MemBound, Linked, Chosen, IssueStats, FreeOnes,
      SlotsBalance, Paced, CountersBounded;
    SettleAccounts(c, m);
    SettleCountsFree(c, m);
  }

  /** What one cycle adds. */
  ghost predicate Adds(c: Config, m: Machine, s: Machine, group: seq<nat>, m': Machine)
    requires Shape(c, m) && Shape(c, s)
  {
    && GroupAdds(c, s, group, m.stats, m'.stats) && SettleAdds(c, m, s, m.stats, m'.stats)
    && m'.stats.feedStallCycles == m.stats.feedStallCycles + One(c.pausableFeed && Full(c, s))
  }

  lemma StepCounts(c: Config, m: Machine, group: seq<nat>, m': Machine)
    requires Step(c, m, group, m') && Accounts(c, m)
    ensures Adds(c, m, Settle(c, m), group, m')
  {
    hide Settle, Nested, Timed, MemOrder, DepOrder, Barrier, StrictOrder, MemBound, Linked, Chosen, IssueStats, FreeOnes,
      SlotsBalance, Paced, CountersBounded, Counts, SkipGrows, Full, Finish;
    StatsParts(c, m, group, m');
    GroupCounts(c, Settle(c, m), group);
    GroupLeaves(c, Settle(c, m), group);
  }

  lemma GroupLeaves(c: Config, s: Machine, group: seq<nat>)
    requires Shape(c, s)
    ensures var before, after := s.stats, IssueStats(c, s, group);
            && after.windowFullCycles == before.windowFullCycles && after.maxOccupancy == before.maxOccupancy
            && after.freeBranches == before.freeBranches && after.freeJumps == before.freeJumps
  {
    hide Unissued;
  }

  // ---- Whole runs ----

  /** The counters say of the run so far what their names say. */
  ghost predicate Tallied(c: Config, ms: seq<Machine>, groups: seq<seq<nat>>)
    requires Run(c, ms, groups)
  {
    var m := ms[|groups|];
    && m.stats.issueSlots == Slots(groups)
    && m.stats.noIssueCycles == Number(c, Idles, ms, groups)
    && m.stats.skippedOldestCycles == Number(c, Skips, ms, groups)
    && m.stats.windowFullCycles == Number(c, Fills, ms, groups)
    && m.stats.feedStallCycles == Number(c, Stalls, ms, groups)
    && IsMax(Occupancies(c, ms, groups), m.stats.maxOccupancy)
    && IsMax(SkipDistances(c, ms, groups), m.stats.maxSkipDistance)
    && m.nextAdmit <= |c.ins|
    && m.stats.freeBranches == FreeOnes(c, m.nextAdmit, true) && m.stats.freeJumps == FreeOnes(c, m.nextAdmit, false)
  }

  lemma {:induction false} RunTallied(c: Config, ms: seq<Machine>, groups: seq<seq<nat>>)
    requires c.Valid() && Begins(c, ms, groups)
    ensures Accounts(c, ms[|groups|]) && Tallied(c, ms, groups)
    decreases |groups|
  {
    hide Chosen, Settle, SlotsBalance, Paced, CountersBounded, Linked, Finish, Skipped, Full, PassedOver, Nested, Timed,
      MemOrder, DepOrder, Barrier, StrictOrder, MemBound, FreeOnes;
    if |groups| == 0 {
      InitialAccounts(c);
      NothingTallied(c, ms);
    } else {
      var n := |groups| - 1;
      assert Begins(c, ms[..n + 1], groups[..n]);
      RunTallied(c, ms[..n + 1], groups[..n]);
      assert Step(c, ms[n], groups[n], ms[n + 1]);
      StepAccounts(c, ms[n], groups[n], ms[n + 1]);
      StepCounts(c, ms[n], groups[n], ms[n + 1]);
      FinishFacts(c, ms[n], groups[n], ms[n + 1]);
    }
  }

  lemma NothingTallied(c: Config, ms: seq<Machine>)
    requires c.Valid() && Begins(c, ms, [])
    ensures Tallied(c, ms, [])
  {
    hide Inv;
  }
}
