/** What the counters returned by schedule mean, over every run. */
module IssueAccounts {
  import opened IssueTrace
  import opened IssuePipes
  import opened IssueMachine
  import opened IssueRun

  ghost function IssuedSet(c: Config, m: Machine): set<nat>
    requires Shape(c, m)
  {
    set i: nat | i < |c.ins| && m.issued[i]
  }

  ghost function Elapsed(c: Config, m: Machine): int
    requires c.Valid()
  {
    m.cycle - Least(c.releases)
  }

  /** Every issued instruction took one slot or was free. */
  ghost predicate SlotsBalance(c: Config, m: Machine)
    requires Shape(c, m)
  {
    m.stats.issueSlots + m.stats.freeBranches + m.stats.freeJumps == |IssuedSet(c, m)|
  }

  /** Three instructions retire in a cycle at most, and none in the first one. */
  ghost predicate Paced(c: Config, m: Machine)
    requires Shape(c, m)
  {
    var e := Elapsed(c, m);
    e >= 0 && if e == 0 then m.nextAdmit == 0 else m.retireHead <= 3 * (e - 1)
  }

  ghost predicate CountersBounded(c: Config, m: Machine)
    requires Shape(c, m)
  {
    var s := m.stats;
    && m.feedClock + s.feedStallCycles == m.cycle
    && 0 <= s.feedStallCycles <= s.windowFullCycles <= Elapsed(c, m)
    && (!c.pausableFeed ==> s.feedStallCycles == 0)
    && 0 <= s.noIssueCycles <= Elapsed(c, m)
    && 0 <= s.issueSlots <= 3 * (Elapsed(c, m) - s.noIssueCycles)
    && 0 <= s.maxOccupancy <= Max(0, c.capacity)
    && 0 <= s.skippedOldestCycles && 0 <= s.maxSkipDistance < Max(1, c.capacity)
    && (c.policy.Strict? ==> s.skippedOldestCycles == 0 && s.maxSkipDistance == 0)
  }

  ghost predicate Accounts(c: Config, m: Machine) {
    && Inv(c, m) && SlotsBalance(c, m) && Paced(c, m) && CountersBounded(c, m)
  }

  lemma InitialAccounts(c: Config)
    requires c.Valid()
    ensures Accounts(c, Initial(c))
  {
    hide Nested, Timed, MemOrder, DepOrder, Barrier, StrictOrder, MemBound;
    assert IssuedSet(c, Initial(c)) == {};
  }

  // ---- Settling ----

  lemma {:induction false} AdmitAccounts(c: Config, m: Machine, left: nat)
    requires Shape(c, m) && Nested(c, m) && SlotsBalance(c, m)
    ensures SlotsBalance(c, Admit(c, m, left))
    ensures var s := Admit(c, m, left).stats;
            s == m.stats.(freeBranches := s.freeBranches, freeJumps := s.freeJumps)
    decreases left
  {
    hide Config.IsFree, Instruction.IsBranch;
    if && m.nextAdmit < |c.ins| && left > 0 && m.nextAdmit - m.retireHead < c.capacity
       && c.releases[m.nextAdmit] <= m.feedClock {
      var r := AdmitOne(c, m);
      assert Nested(c, r);
      AdmitOneBalances(c, m);
      AdmitAccounts(c, r, left - 1);
    }
  }

  lemma AdmitOneBalances(c: Config, m: Machine)
    requires Shape(c, m) && m.nextAdmit < |c.ins| && !m.issued[m.nextAdmit] && SlotsBalance(c, m)
    ensures SlotsBalance(c, AdmitOne(c, m))
  {
    hide Config.IsFree, Instruction.IsBranch;
    assert IssuedSet(c, AdmitOne(c, m)) == IssuedSet(c, m) + if c.IsFree(m.nextAdmit) then {m.nextAdmit} else {};
  }

  lemma SettleAccounts(c: Config, m: Machine)
    requires Inv(c, m) && SlotsBalance(c, m)
    ensures var s := Settle(c, m);
            && SlotsBalance(c, s)
            && s.stats == m.stats.(freeBranches := s.stats.freeBranches, freeJumps := s.stats.freeJumps,
                 maxOccupancy := Max(m.stats.maxOccupancy, s.nextAdmit - s.retireHead),
                 windowFullCycles := m.stats.windowFullCycles + if FeedBlocked(c, s) then 1 else 0)
  {
    hide Timed, MemOrder, DepOrder, Barrier, StrictOrder, MemBound, Config.IsFree, Retire, Drain, HeadStore, Admit;
    RetireKeeps(c, m, 3);
    var retired := Retire(c, m, 3);
    DrainKeeps(c, retired);
    HeadStoreKeeps(c, Drain(c, retired));
    var stored := HeadStore(c, Drain(c, retired));
    AdmitKeeps(c, stored, 3);
    assert IssuedSet(c, stored) == IssuedSet(c, m);
    AdmitAccounts(c, stored, 3);
    assert IssuedSet(c, Settle(c, m)) == IssuedSet(c, Admit(c, stored, 3));
  }

  // ---- Issuing ----

  ghost function Elements(xs: seq<nat>): set<nat> { set x | x in xs }

  lemma {:induction false} AscendingCount(xs: seq<nat>)
    requires Ascending(xs)
    ensures |Elements(xs)| == |xs|
  {
    if |xs| > 0 {
      var last := xs[|xs| - 1];
      var front := xs[..|xs| - 1];
      AscendingCount(front);
      assert xs == front + [last];
      assert Elements(xs) == Elements(front) + {last};
      assert forall k :: 0 <= k < |front| ==> front[k] < last;
    } else {
      assert Elements(xs) == {};
    }
  }

  lemma FinishBalances(c: Config, s: Machine, group: seq<nat>)
    requires Inv(c, s) && SlotsBalance(c, s) && Chosen(c, s, group) && InTrace(c.ins, group)
    ensures SlotsBalance(c, Finish(c, s, group))
  {
    hide Timed, MemOrder, DepOrder, Barrier, StrictOrder, MemBound, Config.IsFree, Chosen, Assignable, FeedBlocked, Ready,
      Unissued, Instruction.IsPersistentHard;
    GroupIsSelected(c, s, group);
    AscendingCount(group);
    assert forall i :: i in group ==> Selected(c, s, i);
    GroupJoinsIssued(c, s, group);
    assert IssuedSet(c, s) !! Elements(group);
    FinishSlots(c, s, group);
  }

  lemma GroupJoinsIssued(c: Config, s: Machine, group: seq<nat>)
    requires Shape(c, s) && InTrace(c.ins, group)
    ensures IssuedSet(c, Finish(c, s, group)) == IssuedSet(c, s) + Elements(group)
  {
    hide IssueStats, FeedBlocked, Unissued;
  }

  lemma {:induction false} FinishSlots(c: Config, s: Machine, group: seq<nat>)
    requires Shape(c, s) && InTrace(c.ins, group)
    requires |group| > 0 ==> Unissued(c, s, s.retireHead, s.nextAdmit) != []
    ensures var r := Finish(c, s, group).stats;
            && r.issueSlots == s.stats.issueSlots + |group|
            && r.freeBranches == s.stats.freeBranches && r.freeJumps == s.stats.freeJumps
  {
    hide Unissued, FeedBlocked;
  }

  /** The oldest unissued instruction, and where the group lies from it. */
  lemma {:induction false} SkipBounds(c: Config, s: Machine, group: seq<nat>)
    requires Inv(c, s) && Chosen(c, s, group) && |group| > 0
    ensures var u := Unissued(c, s, s.retireHead, s.nextAdmit);
            && |u| > 0 && s.retireHead <= u[0] <= group[|group| - 1] < s.nextAdmit
            && (c.policy.Strict? ==> u[0] in group)
  {
    hide Timed, MemOrder, DepOrder, Barrier, StrictOrder, MemBound, Config.IsFree, Chosen, Assignable, Ready,
      Instruction.IsPersistentHard;
    GroupIsSelected(c, s, group);
    var u := Unissued(c, s, s.retireHead, s.nextAdmit);
    var last := group[|group| - 1];
    assert last in u;
    var k :| 0 <= k < |u| && u[k] == last;
    assert u[0] in u && u[0] <= u[k];
    if c.policy.Strict? {
      StrictStartsOldest(c, s, group, u[0]);
    }
  }

  lemma StrictStartsOldest(c: Config, s: Machine, group: seq<nat>, oldest: nat)
    requires Inv(c, s) && group <= Open(c, s) && |group| > 0
    requires oldest <= group[|group| - 1] && oldest < |c.ins| && !s.issued[oldest]
    ensures oldest in group
  {
    hide Timed, MemOrder, DepOrder, Barrier, StrictOrder, MemBound;
    if oldest != group[|group| - 1] {
      StrictTakesOlder(c, s, group, oldest, group[|group| - 1]);
    }
  }

  /** What one group does to the counters, in terms of the settled state. */
  lemma IssueStatsBounds(c: Config, s: Machine, group: seq<nat>)
    requires Inv(c, s) && Chosen(c, s, group) && InTrace(c.ins, group)
    requires 0 <= s.stats.maxSkipDistance < Max(1, c.capacity)
    ensures var before, after := s.stats, IssueStats(c, s, group);
            && |group| <= 3
            && after.noIssueCycles - before.noIssueCycles in {0, 1}
            && (after.noIssueCycles > before.noIssueCycles ==> |group| == 0)
            && after.issueSlots == before.issueSlots + |group|
            && after.skippedOldestCycles >= before.skippedOldestCycles
            && 0 <= after.maxSkipDistance < Max(1, c.capacity)
            && (c.policy.Strict? ==> after.skippedOldestCycles == before.skippedOldestCycles
                                     && after.maxSkipDistance == before.maxSkipDistance)
            && after.maxOccupancy == before.maxOccupancy && after.windowFullCycles == before.windowFullCycles
  {
    hide Timed, MemOrder, DepOrder, Barrier, StrictOrder, MemBound, Config.IsFree, Chosen, Assignable, Ready;
    GroupIsSelected(c, s, group);
    if |group| > 0 {
      SkipBounds(c, s, group);
    }
    hide Unissued;
  }

  lemma FinishBounds(c: Config, m: Machine, group: seq<nat>, m': Machine)
    requires Step(c, m, group, m') && Accounts(c, m)
    ensures CountersBounded(c, m')
  {
    hide Timed, MemOrder, DepOrder, Barrier, StrictOrder, MemBound, Config.IsFree, Chosen, Settle, IssueStats, FeedBlocked,
      SlotsBalance, Paced;
    var s := Settle(c, m);
    SettleAccounts(c, m);
    SettleFacts(c, m);
    IssueStatsBounds(c, s, group);
    assert s.nextAdmit - s.retireHead <= Max(0, c.capacity);
  }

  lemma StepAccounts(c: Config, m: Machine, group: seq<nat>, m': Machine)
    requires Step(c, m, group, m') && Accounts(c, m)
    ensures Accounts(c, m')
  {
    hide Timed, MemOrder, DepOrder, Barrier, StrictOrder, MemBound, Config.IsFree, Chosen, Settle;
    StepKeeps(c, m, group, m');
    SettleAccounts(c, m);
    SettleFacts(c, m);
    FinishBalances(c, Settle(c, m), group);
    FinishBounds(c, m, group, m');
    hide IssueStats, FeedBlocked, CountersBounded, SlotsBalance;
    assert Elapsed(c, m) == 0 ==> m.retireHead == m.nextAdmit == 0 && !m.completed[0];
  }

  lemma {:induction false} CountBelow(s: set<nat>, n: nat)
    requires forall i: nat :: i in s <==> i < n
    ensures |s| == n
  {
    if n > 0 {
      CountBelow(s - {n - 1}, n - 1);
    } else {
      assert s == {};
    }
  }

  /** The totals at the end of a run: every instruction is accounted for once, and the cycle
      count is at least one third of the instruction count, plus one. */
  lemma FinalTotals(c: Config, m: Machine)
    requires Accounts(c, m) && m.retireHead == |c.ins|
    ensures m.stats.issueSlots + m.stats.freeBranches + m.stats.freeJumps == |c.ins|
    ensures |c.ins| <= 3 * (Elapsed(c, m) - 1)
    ensures c.policy.Strict? ==> m.stats.skippedOldestCycles == 0
  {
    hide Timed, MemOrder, DepOrder, Barrier, StrictOrder, MemBound, Config.IsFree;
    CountBelow(IssuedSet(c, m), |c.ins|);
  }
}
