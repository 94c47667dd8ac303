/** Whole runs of the issue-window machine: invariants, issue history, accounting and progress. */
module IssueRun {
  import opened IssueTrace
  import opened IssuePipes
  import opened IssueChoice
  import opened IssueMachine

  /** The state in which choose is called. */
  ghost function Settle(c: Config, m: Machine): (s: Machine)
    requires Inv(c, m)
    ensures Inv(c, s)
  {
    RetireKeeps(c, m, 3);
    var retired := Retire(c, m, 3);
    DrainKeeps(c, retired);
    HeadStoreKeeps(c, Drain(c, retired));
    var stored := HeadStore(c, Drain(c, retired));
    AdmitKeeps(c, stored, 3);
    ObserveKeeps(c, Admit(c, stored, 3));
    Observe(c, Admit(c, stored, 3))
  }

  lemma ObserveKeeps(c: Config, m: Machine)
    requires Inv(c, m)
    ensures Inv(c, Observe(c, m))
  {
    hide Instruction.IsMem, Instruction.IsPersistentHard, Config.IsFree;
    assert ActiveMem(c, Observe(c, m)) == ActiveMem(c, m);
    forall i | 0 <= i < |c.ins| && m.issued[i]
      ensures !c.IsFree(i) ==> FoundDeps(c, Observe(c, m), i)
      ensures c.ins[i].IsMem() ==> FollowsOlderMem(c, Observe(c, m), i)
    {
      assert !c.IsFree(i) ==> FoundDeps(c, m, i);
      assert c.ins[i].IsMem() ==> FollowsOlderMem(c, m, i);
    }
  }

  /** One cycle: m' follows m when the group chosen in the settled state issues. */
  ghost predicate Step(c: Config, m: Machine, group: seq<nat>, m': Machine) {
    && Inv(c, m) && Chosen(c, Settle(c, m), group) && InTrace(c.ins, group)
    && m' == Finish(c, Settle(c, m), group)
  }

  lemma StepKeeps(c: Config, m: Machine, group: seq<nat>, m': Machine)
    requires Step(c, m, group, m')
    ensures Inv(c, m')
  {
    hide Inv, Chosen, Finish, Settle;
    FinishKeeps(c, Settle(c, m), group);
  }

  /** The next state is determined: both policies choose one group. */
  lemma StepDetermined(c: Config, m: Machine, g: seq<nat>, m1: Machine, h: seq<nat>, m2: Machine)
    requires Step(c, m, g, m1) && Step(c, m, h, m2)
    ensures g == h && m1 == m2
  {
    hide Finish, Settle, StrictChoice, WindowChoice, Nested, Timed, MemOrder, DepOrder, Barrier, StrictOrder, MemBound;
    var s := Settle(c, m);
    var ready := ReadyIn(c, s, Open(c, s));
    if c.policy.Strict? {
      StrictChoiceUnique(c.ins, Open(c, s), ready, g, h);
    } else {
      WindowChoiceUnique(c.ins, ready, g, h);
    }
  }

  // ---- What settling changes ----

  lemma SettleFacts(c: Config, m: Machine)
    requires Inv(c, m)
    ensures var s := Settle(c, m);
            && m.retireHead <= s.retireHead <= m.retireHead + 3 && m.nextAdmit <= s.nextAdmit
            && (forall i :: 0 <= i < |c.ins| && m.issued[i] ==> s.issued[i])
            && (forall i :: 0 <= i < |c.ins| && m.completed[i] ==> s.completed[i])
            && (forall i :: 0 <= i < |c.ins| && m.issued[i] ==> s.issueCycle[i] == m.issueCycle[i])
            && (forall i :: 0 <= i < |c.ins| && s.issued[i] && !m.issued[i] ==>
                              m.nextAdmit <= i < s.nextAdmit && c.IsFree(i))
            && s.cycle == m.cycle && s.feedClock == m.feedClock
            && (m.retireHead < |c.ins| && m.completed[m.retireHead] ==> m.retireHead < s.retireHead)
            && (m.retireHead < |c.ins| && !m.completed[m.retireHead] ==> m.retireHead == s.retireHead)
  {
    hide Retire, Drain, HeadStore, Admit, Timed, MemOrder, DepOrder, Barrier, StrictOrder, MemBound, Config.IsFree,
      Instruction.IsHard;
    RetireKeeps(c, m, 3);
    var retired := Retire(c, m, 3);
    DrainKeeps(c, retired);
    HeadStoreKeeps(c, Drain(c, retired));
    var stored := HeadStore(c, Drain(c, retired));
    AdmitKeeps(c, stored, 3);
    AdmitFacts(c, stored, 3);
    HeadNotRetired(c, m, 3);
  }

  lemma {:induction false} HeadNotRetired(c: Config, m: Machine, left: nat)
    requires Inv(c, m)
    ensures m.retireHead < |c.ins| && !m.completed[m.retireHead] ==> Retire(c, m, left) == m
  {
    hide Timed, MemOrder, DepOrder, Barrier, StrictOrder, MemBound;
  }

  lemma {:induction false} AdmitFacts(c: Config, m: Machine, left: nat)
    requires Shape(c, m) && Nested(c, m)
    ensures var s := Admit(c, m, left);
            && (forall i :: 0 <= i < |c.ins| && m.issued[i] ==> s.issued[i] && s.issueCycle[i] == m.issueCycle[i])
            && (forall i :: 0 <= i < |c.ins| && m.completed[i] ==> s.completed[i])
            && (forall i :: 0 <= i < |c.ins| && s.issued[i] && !m.issued[i] ==>
                              m.nextAdmit <= i < s.nextAdmit && c.IsFree(i))
            && (forall i :: m.nextAdmit <= i < s.nextAdmit && c.IsFree(i) ==> s.issued[i])
            && s.cycle == m.cycle && s.feedClock == m.feedClock && m.nextAdmit <= s.nextAdmit <= m.nextAdmit + left
            && (s.nextAdmit == m.nextAdmit ==> s == m)
            && (left > 0 && s.nextAdmit == m.nextAdmit < |c.ins| ==>
                  || m.nextAdmit - m.retireHead >= c.capacity || c.releases[m.nextAdmit] > m.feedClock)
    decreases left
  {
    hide Config.IsFree, Instruction.IsBranch;
    if && m.nextAdmit < |c.ins| && left > 0 && m.nextAdmit - m.retireHead < c.capacity
       && c.releases[m.nextAdmit] <= m.feedClock {
      var r := AdmitOne(c, m);
      assert !m.issued[m.nextAdmit];
      assert Nested(c, r);
      AdmitFacts(c, r, left - 1);
    }
  }

  /** What admission records: a release that has passed, and this cycle for a free instruction. */
  lemma {:induction false} AdmitStamps(c: Config, m: Machine, left: nat)
    requires Shape(c, m) && Nested(c, m)
    ensures var s := Admit(c, m, left);
            forall i :: m.nextAdmit <= i < s.nextAdmit ==>
                          && c.releases[i] <= m.feedClock
                          && (c.IsFree(i) ==> s.issueCycle[i] == s.completeCycle[i] == m.cycle)
    ensures var s := Admit(c, m, left);
            forall i :: 0 <= i < m.nextAdmit ==> s.issueCycle[i] == m.issueCycle[i] && s.completeCycle[i] == m.completeCycle[i]
    decreases left
  {
    hide Config.IsFree, Instruction.IsBranch;
    if && m.nextAdmit < |c.ins| && left > 0 && m.nextAdmit - m.retireHead < c.capacity
       && c.releases[m.nextAdmit] <= m.feedClock {
      var r := AdmitOne(c, m);
      assert Nested(c, r);
      AdmitStamps(c, r, left - 1);
    }
  }

  lemma SettleStamps(c: Config, m: Machine)
    requires Inv(c, m)
    ensures var s := Settle(c, m);
            && m.nextAdmit <= s.nextAdmit
            && forall i :: m.nextAdmit <= i < s.nextAdmit ==>
                             && c.releases[i] <= m.feedClock
                             && (c.IsFree(i) ==> s.issueCycle[i] == s.completeCycle[i] == m.cycle)
  {
    hide Retire, Drain, HeadStore, Admit, Timed, MemOrder, DepOrder, Barrier, StrictOrder, MemBound, Config.IsFree,
      Instruction.IsHard;
    RetireKeeps(c, m, 3);
    var retired := Retire(c, m, 3);
    DrainKeeps(c, retired);
    HeadStoreKeeps(c, Drain(c, retired));
    var stored := HeadStore(c, Drain(c, retired));
    AdmitKeeps(c, stored, 3);
    AdmitStamps(c, stored, 3);
  }

  // ---- The issue history ----

  /** j must issue before i: a producer, an older memory operation of a memory operation, or
      anything older when either is persistent-hard. */
  ghost predicate Precedes(c: Config, j: nat, i: nat)
    requires c.Valid() && i < |c.ins|
  {
    && j < i
    && (|| j in c.links[i].deps || (c.ins[j].IsMem() && c.ins[i].IsMem())
        || c.ins[j].IsPersistentHard() || c.ins[i].IsPersistentHard())
  }

  ghost predicate AllBefore(c: Config, earlier: seq<nat>, i: nat)
    requires c.Valid() && i < |c.ins|
  {
    forall j :: 0 <= j < i && Precedes(c, j, i) ==> j in earlier
  }

  ghost predicate Distinct(xs: seq<nat>) {
    forall a, b :: 0 <= a < b < |xs| ==> xs[a] != xs[b]
  }

  /** order lists the issued instructions once, each after everything that precedes it. */
  ghost predicate History(c: Config, m: Machine, order: seq<nat>)
    requires Shape(c, m)
  {
    && InTrace(c.ins, order) && Distinct(order)
    && (forall i :: 0 <= i < |c.ins| ==> (m.issued[i] <==> i in order))
    && (forall k :: 0 <= k < |order| && !c.IsFree(order[k]) ==> AllBefore(c, order[..k], order[k]))
  }

  ghost predicate Unblocked(c: Config, m: Machine, i: nat)
    requires Shape(c, m) && i < |c.ins|
  {
    forall j :: 0 <= j < i && Precedes(c, j, i) ==> m.issued[j]
  }

  lemma PredecessorIssued(c: Config, s: Machine, i: nat, j: nat)
    requires Inv(c, s) && Selected(c, s, i) && Precedes(c, j, i)
    ensures s.issued[j]
  {
    hide Config.IsFree, DepOrder, Barrier, StrictOrder, MemBound;
    if c.ins[j].IsMem() && c.ins[i].IsMem() {
      OlderMemIssued(c, s, i, j);
    }
  }

  /** The free instructions of [lo, hi), in admission order. */
  ghost function FreeIn(c: Config, lo: nat, hi: nat): (r: seq<nat>)
    requires c.Valid() && lo <= hi <= |c.ins|
    ensures forall i :: i in r <==> lo <= i < hi && c.IsFree(i)
    ensures Ascending(r)
  {
    if lo == hi then []
    else
      var older := FreeIn(c, lo, hi - 1);
      AscendingAppend(older, hi - 1);
      older + if c.IsFree(hi - 1) then [hi - 1] else []
  }

  /** The instructions that one cycle adds to the history. */
  ghost function NewlyIssued(c: Config, m: Machine, group: seq<nat>): seq<nat>
    requires Inv(c, m)
  {
    SettleFacts(c, m);
    FreeIn(c, m.nextAdmit, Settle(c, m).nextAdmit) + group
  }

  lemma HistoryGrows(c: Config, m: Machine, order: seq<nat>, added: seq<nat>, r: Machine)
    requires Shape(c, m) && Shape(c, r) && History(c, m, order)
    requires InTrace(c.ins, added) && Distinct(added)
    requires forall i :: i in added ==> !m.issued[i]
    requires forall i :: 0 <= i < |c.ins| ==> (r.issued[i] <==> m.issued[i] || i in added)
    requires forall i :: i in added && !c.IsFree(i) ==> Unblocked(c, m, i)
    ensures History(c, r, order + added)
  {
    hide Config.IsFree, Precedes;
    var grown := order + added;
    forall a, b | 0 <= a < b < |grown|
      ensures grown[a] != grown[b]
    {
      if a < |order| <= b {
        assert order[a] in order && added[b - |order|] in added;
      }
    }
    forall k | 0 <= k < |grown| && !c.IsFree(grown[k])
      ensures AllBefore(c, grown[..k], grown[k])
    {
      if k < |order| {
        assert grown[..k] == order[..k];
        assert AllBefore(c, order[..k], order[k]);
      } else {
        assert grown[k] == added[k - |order|] && grown[k] in added;
        assert Unblocked(c, m, grown[k]);
        assert grown[..k] == order + added[..k - |order|];
      }
    }
  }

  lemma {:induction false} HistoryOfSettle(c: Config, m: Machine, order: seq<nat>)
    requires Inv(c, m) && History(c, m, order)
    ensures m.nextAdmit <= Settle(c, m).nextAdmit
    ensures History(c, Settle(c, m), order + FreeIn(c, m.nextAdmit, Settle(c, m).nextAdmit))
  {
    SettleFacts(c, m);
    var s := Settle(c, m);
    hide Settle, Config.IsFree, MemOrder, Timed, DepOrder, Barrier, StrictOrder, MemBound, Precedes;
    var added := FreeIn(c, m.nextAdmit, s.nextAdmit);
    assert forall k :: 0 <= k < |added| ==> added[k] in added;
    HistoryGrows(c, m, order, added, s);
  }

  lemma GroupHistory(c: Config, s: Machine, group: seq<nat>, order: seq<nat>)
    requires Inv(c, s) && Chosen(c, s, group) && InTrace(c.ins, group) && History(c, s, order)
    ensures History(c, Finish(c, s, group), order + group)
  {
    GroupIsSelected(c, s, group);
    GroupUnblocked(c, s, group);
    HistoryTracks(c, s, order);
    hide Config.IsFree, Chosen, Assignable, IssueStats, FeedBlocked, Unblocked, Ready, Nested, Timed, MemOrder, DepOrder,
      Barrier, StrictOrder, MemBound, Instruction.IsPersistentHard, AllBefore, History;
    assert forall i :: i in group ==> Selected(c, s, i);
    HistoryGrows(c, s, order, group, Finish(c, s, group));
  }

  lemma HistoryTracks(c: Config, m: Machine, order: seq<nat>)
    requires Shape(c, m) && History(c, m, order)
    ensures forall i :: 0 <= i < |c.ins| ==> (m.issued[i] <==> i in order)
  {
    hide AllBefore;
  }

  lemma GroupUnblocked(c: Config, s: Machine, group: seq<nat>)
    requires Inv(c, s) && InTrace(c.ins, group)
    requires forall k :: 0 <= k < |group| ==> Selected(c, s, group[k])
    ensures forall i :: i in group ==> Unblocked(c, s, i)
  {
    hide Precedes, Selected, Nested, Timed, MemOrder, DepOrder, Barrier, StrictOrder, MemBound;
    forall i | i in group
      ensures Unblocked(c, s, i)
    {
      forall j | 0 <= j < i && Precedes(c, j, i)
        ensures s.issued[j]
      {
        PredecessorIssued(c, s, i, j);
      }
    }
  }

  lemma StepHistory(c: Config, m: Machine, group: seq<nat>, m': Machine, order: seq<nat>)
    requires Step(c, m, group, m') && History(c, m, order)
    ensures Inv(c, m')
    ensures History(c, m', order + NewlyIssued(c, m, group))
  {
    hide Settle, Config.IsFree, Chosen, Finish, FreeIn, History, Nested, Timed, MemOrder, DepOrder, Barrier, StrictOrder,
      MemBound;
    StepKeeps(c, m, group, m');
    HistoryOfSettle(c, m, order);
    var s := Settle(c, m);
    var free := FreeIn(c, m.nextAdmit, s.nextAdmit);
    GroupHistory(c, s, group, order + free);
    assert (order + free) + group == order + (free + group);
  }
}
