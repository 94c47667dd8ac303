/** schedule in tools/issue_window_experiment.py, in its own form: lists of flags, a running
    count of active memory operations and a completion heap, changed phase by phase. Every
    phase is proved equal to the function of IssueMachine on the abstract state View(). */
module IssueScheduler {
  import opened IssueTrace
  import opened IssuePipes
  import opened IssueChoice
  import opened IssueMachine
  import opened IssueRun
  import opened IssueAccounts
  import opened IssueProgress

  type Entry = (int, nat)

  /** Tuple order of heap entries. */
  predicate EntryAtMost(a: Entry, b: Entry) {
    a.0 < b.0 || (a.0 == b.0 && a.1 <= b.1)
  }

  /** heapq: the entry that heappop would return. */
  method LeastEntry(heap: set<Entry>) returns (least: Entry)
    requires heap != {}
    ensures least in heap && forall e :: e in heap ==> EntryAtMost(least, e)
  {
    least :| least in heap;
    var rest := heap - {least};
    while rest != {}
      invariant least in heap && rest <= heap
      invariant forall x :: x in heap ==> x in rest || EntryAtMost(least, x)
      decreases rest
    {
      var e :| e in rest;
      if EntryAtMost(e, least) {
        least := e;
      }
      rest := rest - {e};
    }
  }

  /** The members that are not past the cutoff. */
  method UpTo(xs: seq<nat>, cutoff: int) returns (kept: seq<nat>)
    requires Ascending(xs)
    ensures Ascending(kept) && forall i :: i in kept <==> i in xs && i <= cutoff
  {
    kept := [];
    for k := 0 to |xs|
      invariant Ascending(kept) && forall i :: i in kept <==> i in xs[..k] && i <= cutoff
    {
      assert xs[..k + 1] == xs[..k] + [xs[k]];
      assert forall j :: 0 <= j < |kept| ==> kept[j] in kept;
      if xs[k] <= cutoff {
        kept := kept + [xs[k]];
      }
    }
    assert xs[..|xs|] == xs;
  }

  class Scheduler {
    const c: Config
    var admitted: seq<bool>
    var issued: seq<bool>
    var completed: seq<bool>
    var retired: seq<bool>
    var issueCycle: seq<int>
    var completeCycle: seq<int>
    var completionHeap: set<Entry>
    var nextAdmit: nat
    var retireHead: nat
    var cycle: int
    var feedClock: int
    var stats: Stats
    var memActive: int
    ghost var order: seq<nat>

    ghost function View(): Machine
      reads this
    {
      Machine(issued, completed, issueCycle, completeCycle, nextAdmit, retireHead, cycle, feedClock, stats)
    }

    /** The heap holds the due time of every pending instruction, the counter counts the active
        memory operations, and the two prefix lists agree with their heads. */
    ghost predicate Coupled()
      reads this
    {
      Inv(c, View()) && Tied()
    }

    ghost predicate Tied()
      reads this
    {
      && Shape(c, View())
      && |admitted| == |retired| == |c.ins|
      && (forall i :: 0 <= i < |c.ins| ==> (admitted[i] <==> i < nextAdmit))
      && (forall i :: 0 <= i < |c.ins| ==> (retired[i] <==> i < retireHead))
      && HeapCoupled(c, View(), completionHeap)
      && memActive == |ActiveMem(c, View())|
    }

    constructor (c: Config)
      requires c.Valid()
      ensures this.c == c && Coupled() && View() == Initial(c) && order == []
      ensures History(c, View(), order) && Accounts(c, View())
    {
      var n := |c.ins|;
      this.c := c;
      admitted, issued := seq(n, _ => false), seq(n, _ => false);
      completed, retired := seq(n, _ => false), seq(n, _ => false);
      issueCycle, completeCycle := seq(n, _ => -1), seq(n, _ => -1);
      completionHeap := {};
      nextAdmit, retireHead := 0, 0;
      cycle, feedClock := Least(c.releases), Least(c.releases);
      stats := Stats(0, 0, 0, 0, 0, 0, 0, 0, 0);
      memActive := 0;
      order := [];
      new;
      assert View() == Initial(c);
      assert ActiveMem(c, View()) == {};
      InitialAccounts(c);
    }

    method RetireOne()
      requires Coupled() && retireHead < |c.ins| && completed[retireHead]
      modifies this`retired, this`retireHead
      ensures Coupled() && retireHead == old(retireHead) + 1
    {
      hide Config.IsFree, Nested, Timed, MemOrder, DepOrder, Barrier, StrictOrder, MemBound, HeapCoupled, ActiveMem;
      RetireOneCoupled(c, View(), completionHeap);
      retired := retired[retireHead := true];
      retireHead := retireHead + 1;
    }

    method RetirePhase()
      requires Coupled()
      modifies this`retired, this`retireHead
      ensures Coupled() && View() == old(Retire(c, View(), 3))
    {
      hide Config.IsFree, Instruction.IsHard, Timed, MemOrder, DepOrder, Barrier, StrictOrder, MemBound, HeapCoupled,
        ActiveMem, Retire;
      ghost var goal := Retire(c, View(), 3);
      var retiredThisCycle := 0;
      while retireHead < |c.ins| && retiredThisCycle < 3 && completed[retireHead]
        invariant 0 <= retiredThisCycle <= 3
        invariant Coupled()
        invariant forall i :: 0 <= i < |c.ins| && completed[i] ==> i < nextAdmit
        invariant Retire(c, View(), 3 - retiredThisCycle) == goal
      {
        var index := retireHead;
        RetireUnfolds(c, View(), 3 - retiredThisCycle);
        RetireOne();
        retiredThisCycle := retiredThisCycle + 1;
        if c.ins[index].IsHard() && !c.IsFree(index) {
          return;
        }
      }
      RetireUnfolds(c, View(), 3 - retiredThisCycle);
    }

    /** Pop the due entry and complete its instruction. */
    method CompleteEntry(entry: Entry)
      requires Coupled() && entry in completionHeap && entry.0 <= cycle
      modifies this`completed, this`completeCycle, this`memActive, this`completionHeap
      ensures Coupled() && completionHeap == old(completionHeap) - {entry}
      ensures View() == old(CompleteAt(c, View(), entry.1, entry.0))
    {
      hide Config.IsFree, Nested, Timed, MemOrder, DepOrder, Barrier, StrictOrder, MemBound, ActiveMem, Instruction.IsStore;
      var (when, index) := entry;
      CompleteOneCoupled(c, View(), completionHeap, entry);
      completionHeap := completionHeap - {entry};
      if !completed[index] {
        completed := completed[index := true];
        completeCycle := completeCycle[index := when];
        if c.ins[index].IsMem() {
          memActive := memActive - 1;
        }
      }
    }

    method DrainPhase()
      requires Coupled()
      modifies this`completed, this`completeCycle, this`memActive, this`completionHeap
      ensures Coupled() && View() == old(Drain(c, View()))
    {
      hide Config.IsFree, Nested, Timed, MemOrder, DepOrder, Barrier, StrictOrder, MemBound, ActiveMem, Instruction.IsStore,
        CompleteAt;
      ghost var goal := Drain(c, View());
      hide Drain;
      while completionHeap != {}
        invariant Coupled() && Drain(c, View()) == goal
        decreases completionHeap
      {
        var entry := LeastEntry(completionHeap);
        if entry.0 > cycle {
          break;
        }
        DrainAbsorbs(c, View(), completionHeap, entry);
        CompleteEntry(entry);
      }
      NothingLands(c, View(), completionHeap);
    }

    method HeadStorePhase()
      requires Coupled()
      modifies this`completed, this`completeCycle, this`memActive
      ensures Coupled() && View() == old(HeadStore(c, View()))
    {
      hide Config.IsFree, Nested, Timed, MemOrder, DepOrder, Barrier, StrictOrder, MemBound, ActiveMem;
      HeadStoreCoupled(c, View(), completionHeap);
      hide Instruction.IsStore;
      if && retireHead < |c.ins| && issued[retireHead]
         && c.ins[retireHead].IsStore() && !completed[retireHead]
      {
        completed := completed[retireHead := true];
        completeCycle := completeCycle[retireHead := cycle];
        memActive := memActive - 1;
      }
    }

    method AdmitNext()
      requires Coupled() && nextAdmit < |c.ins| && nextAdmit - retireHead < c.capacity
      modifies this
      ensures Coupled() && View() == old(AdmitOne(c, View())) && order == old(order)
    {
      hide Inv, Linked, ActiveMem, HeapCoupled, Config.IsFree, Instruction.IsBranch;
      ghost var next := AdmitOne(c, View());
      AdmitOneCoupled(c, View(), completionHeap);
      admitted := admitted[nextAdmit := true];
      if c.IsFree(nextAdmit) {
        issued := issued[nextAdmit := true];
        completed := completed[nextAdmit := true];
        issueCycle := issueCycle[nextAdmit := cycle];
        completeCycle := completeCycle[nextAdmit := cycle];
        stats := if c.ins[nextAdmit].IsBranch()
          then stats.(freeBranches := stats.freeBranches + 1)
          else stats.(freeJumps := stats.freeJumps + 1);
      }
      nextAdmit := nextAdmit + 1;
      assert View() == next;
    }

    method AdmitPhase()
      requires Coupled()
      modifies this
      ensures Coupled() && View() == old(Admit(c, View(), 3)) && order == old(order)
    {
      hide Config.IsFree, Instruction.IsBranch, Nested, Timed, MemOrder, DepOrder, Barrier, StrictOrder, MemBound,
        HeapCoupled, ActiveMem, AdmitOne, Admit;
      ghost var goal := Admit(c, View(), 3);
      var admissions := 0;
      while && nextAdmit < |c.ins| && admissions < 3 && nextAdmit - retireHead < c.capacity
            && c.releases[nextAdmit] <= feedClock
        invariant 0 <= admissions <= 3
        invariant Coupled() && order == old(order)
        invariant Admit(c, View(), 3 - admissions) == goal
        decreases 3 - admissions
      {
        AdmitUnfolds(c, View(), 3 - admissions);
        AdmitNext();
        admissions := admissions + 1;
      }
      AdmitUnfolds(c, View(), 3 - admissions);
    }

    method ObservePhase() returns (feedBlocked: bool)
      requires Coupled()
      modifies this`stats
      ensures Coupled() && View() == old(Observe(c, View())) && feedBlocked == old(FeedBlocked(c, View()))
    {
      hide Config.IsFree, Nested, Timed, MemOrder, DepOrder, Barrier, StrictOrder, MemBound, HeapCoupled, ActiveMem;
      ObserveCoupled(c, View(), completionHeap);
      var occupancy := nextAdmit - retireHead;
      feedBlocked := && nextAdmit < |c.ins| && c.releases[nextAdmit] <= feedClock
                     && occupancy >= c.capacity;
      stats := stats.(maxOccupancy := Max(stats.maxOccupancy, occupancy));
      if feedBlocked {
        stats := stats.(windowFullCycles := stats.windowFullCycles + 1);
      }
    }

    // ---- Selection ----

    method IsReady(index: nat) returns (ready: bool)
      requires Coupled() && index < |c.ins|
      ensures ready == Ready(c, View(), index)
    {
      hide Config.IsFree, Nested, Timed, MemOrder, DepOrder, Barrier, StrictOrder, MemBound, HeapCoupled, ActiveMem,
        Instruction.IsMem, Instruction.IsPersistentHard;
      var links := c.links[index];
      LinksAreOlder(c, index);
      assert forall k :: 0 <= k < |links.deps| ==> links.deps[k] in links.deps;
      var producersDone := true;
      for k := 0 to |links.deps|
        invariant producersDone <==> forall j :: 0 <= j < k ==> completed[links.deps[j]]
      {
        if !completed[links.deps[k]] {
          producersDone := false;
        }
      }
      if !producersDone {
        return false;
      }
      if links.previousMem.Some? && !issued[links.previousMem.value] {
        return false;
      }
      if c.ins[index].IsMem() && memActive >= 3 {
        return false;
      }
      if c.ins[index].IsPersistentHard() && index != retireHead {
        return false;
      }
      return true;
    }

    method BarrierCutoff() returns (cutoff: int)
      requires Coupled()
      ensures cutoff + 1 == OpenEnd(c, View(), retireHead)
    {
      hide Config.IsFree, Nested, Timed, MemOrder, DepOrder, Barrier, StrictOrder, MemBound, HeapCoupled, ActiveMem,
        Instruction.IsPersistentHard;
      for index := retireHead to nextAdmit
        invariant OpenEnd(c, View(), index) == OpenEnd(c, View(), retireHead)
      {
        if c.ins[index].IsPersistentHard() && !retired[index] {
          return index;
        }
      }
      return nextAdmit - 1;
    }

    /** The unissued instructions of the window, up to the barrier. */
    method OpenInstructions() returns (open: seq<nat>)
      requires Coupled()
      ensures open == Open(c, View())
    {
      hide Config.IsFree, Nested, Timed, MemOrder, DepOrder, Barrier, StrictOrder, MemBound, HeapCoupled, ActiveMem,
        Instruction.IsPersistentHard, Linked, OpenEnd;
      var unissued := [];
      for index := retireHead to nextAdmit
        invariant unissued == Unissued(c, View(), retireHead, index)
      {
        if admitted[index] && !issued[index] {
          unissued := unissued + [index];
        }
      }
      var cutoff := BarrierCutoff();
      open := UpTo(unissued, cutoff);
      SameAscending(open, Unissued(c, View(), retireHead, cutoff + 1));
    }

    method ReadyInstructions(open: seq<nat>) returns (ready: seq<nat>)
      requires Coupled() && InTrace(c.ins, open) && Ascending(open)
      ensures ready == ReadyIn(c, View(), open)
    {
      hide Config.IsFree, Nested, Timed, MemOrder, DepOrder, Barrier, StrictOrder, MemBound, HeapCoupled, ActiveMem,
        Ready;
      ready := [];
      for k := 0 to |open|
        invariant ready == ReadyIn(c, View(), open[..k])
      {
        assert open[..k + 1][..k] == open[..k];
        var isReady := IsReady(open[k]);
        if isReady {
          ready := ready + [open[k]];
        }
      }
      assert open[..|open|] == open;
    }

    method Choose() returns (group: seq<nat>, assignment: map<nat, nat>)
      requires Coupled()
      ensures Chosen(c, View(), group) && Assigns(c.ins, group, assignment)
    {
      hide Config.IsFree, Nested, Timed, MemOrder, DepOrder, Barrier, StrictOrder, MemBound, HeapCoupled, ActiveMem,
        Open, ReadyIn, StrictChoice, WindowChoice, Assigns;
      var open := OpenInstructions();
      var ready := ReadyInstructions(open);
      ReadyInTrace(c, View(), open);
      if c.policy.Strict? {
        group, assignment := ChooseStrict(c.ins, open, ready);
      } else {
        group, assignment := ChooseWindow(c.ins, ready);
      }
    }

    // ---- Issue ----

    method IssueIndex(index: nat)
      requires Tied() && index < |c.ins| && !issued[index] && !completed[index]
      modifies this`issued, this`issueCycle, this`memActive, this`completionHeap
      ensures Tied() && View() == old(IssueAt(c, View(), index))
    {
      hide Config.IsFree, Instruction.IsStore, Instruction.IsMem, HeapCoupled, ActiveMem;
      IssueAtHeap(c, View(), index, completionHeap);
      IssueAtActive(c, View(), index);
      issued := issued[index := true];
      issueCycle := issueCycle[index := cycle];
      if c.ins[index].IsMem() {
        memActive := memActive + 1;
      }
      if !c.ins[index].IsStore() {
        completionHeap := completionHeap + {(cycle + c.ins[index].Latency(), index)};
      }
    }

    method IssueAll(group: seq<nat>)
      requires Tied() && InTrace(c.ins, group) && Ascending(group)
      requires forall i :: i in group ==> !issued[i] && !completed[i]
      modifies this`issued, this`issueCycle, this`memActive, this`completionHeap
      ensures Tied() && View() == old(IssueGroup(c, View(), group))
    {
      hide Config.IsFree, Instruction.IsStore, Instruction.IsMem, HeapCoupled, ActiveMem;
      assert group[..0] == [];
      NothingIssued(c, View());
      for k := 0 to |group|
        invariant Tied() && View() == old(IssueGroup(c, View(), group[..k]))
        invariant completed == old(completed)
      {
        assert group[..k + 1] == group[..k] + [group[k]];
        assert group[k] in group && group[k] !in group[..k];
        IssueOneMore(c, old(View()), group[..k], group[k]);
        IssueIndex(group[k]);
      }
      assert group[..|group|] == group;
    }

    method OldestUnissued() returns (oldest: nat)
      requires Coupled() && Unissued(c, View(), retireHead, nextAdmit) != []
      ensures oldest == Unissued(c, View(), retireHead, nextAdmit)[0]
    {
      hide Config.IsFree, Nested, Timed, MemOrder, DepOrder, Barrier, StrictOrder, MemBound, HeapCoupled, ActiveMem;
      ghost var all := Unissued(c, View(), retireHead, nextAdmit);
      assert all[0] in all;
      hide Unissued;
      oldest := retireHead;
      while !(admitted[oldest] && !issued[oldest])
        invariant retireHead <= oldest <= all[0]
        decreases all[0] - oldest
      {
        oldest := oldest + 1;
      }
      assert oldest in all;
      ghost var k :| 0 <= k < |all| && all[k] == oldest;
      assert all[0] <= all[k];
    }

    method CountIssue(group: seq<nat>)
      requires Coupled() && InTrace(c.ins, group)
      requires |group| > 0 ==> Unissued(c, View(), retireHead, nextAdmit) != []
      modifies this`stats
      ensures Coupled() && View() == old(View().(stats := IssueStats(c, View(), group)))
    {
      hide Config.IsFree, Nested, Timed, MemOrder, DepOrder, Barrier, StrictOrder, MemBound, HeapCoupled, ActiveMem;
      StatsKeep(c, View(), IssueStats(c, View(), group), completionHeap);
      if |group| > 0 {
        var oldest := OldestUnissued();
        hide Unissued;
        stats := stats.(issueSlots := stats.issueSlots + |group|);
        if oldest !in group {
          stats := stats.(skippedOldestCycles := stats.skippedOldestCycles + 1,
                          maxSkipDistance := Max(stats.maxSkipDistance, group[|group| - 1] as int - oldest as int));
        }
      } else if nextAdmit > retireHead {
        stats := stats.(noIssueCycles := stats.noIssueCycles + 1);
      }
    }

    method IssuePhase(group: seq<nat>, feedBlocked: bool)
      requires Coupled() && Chosen(c, View(), group) && feedBlocked == FeedBlocked(c, View())
      modifies this
      ensures InTrace(c.ins, group) && Coupled() && View() == old(Finish(c, View(), group)) && order == old(order)
    {
      hide Config.IsFree, Nested, Timed, MemOrder, DepOrder, Barrier, StrictOrder, MemBound, HeapCoupled, ActiveMem,
        Chosen, Unissued, IssueStats, FeedBlocked;
      ghost var before := View();
      FinishKeeps(c, before, group);
      GroupIsSelected(c, before, group);
      GroupFresh(c, before, group);
      CountIssue(group);
      ghost var counted := View();
      IssueAll(group);
      ghost var issuedView := View();
      if c.pausableFeed {
        if feedBlocked {
          stats := stats.(feedStallCycles := stats.feedStallCycles + 1);
        } else {
          feedClock := feedClock + 1;
        }
      } else {
        feedClock := feedClock + 1;
      }
      cycle := cycle + 1;
      SamePending(c, issuedView, View(), completionHeap);
      StatsIrrelevant(c, before, counted, group);
    }

    /** Everything before the selection. */
    method SettlePhases() returns (feedBlocked: bool)
      requires Coupled()
      modifies this
      ensures Coupled() && View() == old(Settle(c, View())) && feedBlocked == FeedBlocked(c, View())
      ensures order == old(order)
    {
      hide Config.IsFree, Nested, Timed, MemOrder, DepOrder, Barrier, StrictOrder, MemBound, HeapCoupled, ActiveMem,
        Retire, Drain, HeadStore, Admit, Settle, Tied;
      SettleIsPhases(c, View());
      RetirePhase();
      DrainPhase();
      HeadStorePhase();
      AdmitPhase();
      feedBlocked := ObservePhase();
    }

    /** One iteration of the scheduling loop. */
    method Cycle() returns (ghost group: seq<nat>)
      requires Coupled() && History(c, View(), order) && Accounts(c, View())
      modifies this
      ensures Coupled() && Step(c, old(View()), group, View())
      ensures order == old(order) + old(NewlyIssued(c, View(), group))
      ensures History(c, View(), order) && Accounts(c, View())
    {
      hide Config.IsFree, Nested, Timed, MemOrder, DepOrder, Barrier, StrictOrder, MemBound, HeapCoupled, ActiveMem,
        Chosen, History, NewlyIssued, Settle, Finish, SlotsBalance, Paced, CountersBounded;
      ghost var before := View();
      ghost var issuedBefore := order;
      var feedBlocked := SettlePhases();
      var chosen, assignment := Choose();
      IssuePhase(chosen, feedBlocked);
      group := chosen;
      order := order + NewlyIssued(c, before, group);
      StepHistory(c, before, group, View(), issuedBefore);
      StepAccounts(c, before, group, View());
    }
  }

  lemma HeadStoreActive(c: Config, m: Machine)
    requires Shape(c, m)
    ensures var r := HeadStore(c, m);
            |ActiveMem(c, r)| == |ActiveMem(c, m)| - if r.completed == m.completed then 0 else 1
  {
    var r := HeadStore(c, m);
    if r.completed != m.completed {
      assert c.ins[m.retireHead].IsMem();
      hide Instruction.IsStore, Instruction.IsMem;
      assert ActiveMem(c, m) == ActiveMem(c, r) + {m.retireHead};
    } else {
      assert ActiveMem(c, m) == ActiveMem(c, r);
    }
  }

  lemma HeadStoreCoupled(c: Config, m: Machine, heap: set<Entry>)
    requires Inv(c, m) && HeapCoupled(c, m, heap)
    ensures var r := HeadStore(c, m);
            && Inv(c, r) && HeapCoupled(c, r, heap)
            && |ActiveMem(c, r)| == |ActiveMem(c, m)| - if r.completed == m.completed then 0 else 1
  {
    HeadStoreKeeps(c, m);
    HeadStoreActive(c, m);
    hide Config.IsFree, Nested, Timed, MemOrder, DepOrder, Barrier, StrictOrder, MemBound, Instruction.IsStore, ActiveMem,
      Completes;
    var r := HeadStore(c, m);
    forall i | 0 <= i < |c.ins| && Pending(c, r, i)
      ensures (Due(c, r, i), i) in heap
    {
      assert Pending(c, m, i) && Due(c, m, i) == Due(c, r, i);
    }
  }

  lemma AdmitOneCoupled(c: Config, m: Machine, heap: set<Entry>)
    requires Inv(c, m) && m.nextAdmit < |c.ins| && m.nextAdmit - m.retireHead < c.capacity && HeapCoupled(c, m, heap)
    ensures var r := AdmitOne(c, m);
            Inv(c, r) && HeapCoupled(c, r, heap) && ActiveMem(c, r) == ActiveMem(c, m)
  {
    AdmitOneKeeps(c, m);
    AdmitKeepsMem(c, m);
    hide ActiveMem, Config.IsFree, Timed, MemOrder, DepOrder, Barrier, StrictOrder, MemBound, Instruction.IsStore,
      Instruction.IsBranch, Instruction.IsMem;
    var r := AdmitOne(c, m);
    assert !m.issued[m.nextAdmit];
    forall i | 0 <= i < |c.ins| && Pending(c, r, i)
      ensures (Due(c, r, i), i) in heap
    {
      assert Pending(c, m, i) && Due(c, m, i) == Due(c, r, i);
    }
  }

  lemma AdmitUnfolds(c: Config, m: Machine, left: nat)
    requires Shape(c, m)
    ensures var more := && m.nextAdmit < |c.ins| && left > 0 && m.nextAdmit - m.retireHead < c.capacity
                        && c.releases[m.nextAdmit] <= m.feedClock;
            Admit(c, m, left) == if more then Admit(c, AdmitOne(c, m), left - 1) else m
  {
  }

  lemma ObserveCoupled(c: Config, m: Machine, heap: set<Entry>)
    requires Inv(c, m) && HeapCoupled(c, m, heap)
    ensures var r := Observe(c, m);
            Inv(c, r) && HeapCoupled(c, r, heap) && ActiveMem(c, r) == ActiveMem(c, m)
  {
    ObserveKeeps(c, m);
    hide Inv;
    SamePending(c, m, Observe(c, m), heap);
  }

  lemma LinksAreOlder(c: Config, i: nat)
    requires c.Valid() && i < |c.ins|
    ensures forall p :: p in c.links[i].deps ==> p < i
    ensures c.links[i].previousMem.Some? ==> c.links[i].previousMem.value < i
  {
    forall p | p in c.links[i].deps
      ensures p < i
    {
      DepIsOlder(c, i, p);
    }
    assert LinkedAt(c.ins, c.links, i);
    LastMemIsYoungest(c.ins, i);
  }

  lemma {:induction false} SameAscending(xs: seq<nat>, ys: seq<nat>)
    requires Ascending(xs) && Ascending(ys) && forall i :: i in xs <==> i in ys
    ensures xs == ys
  {
    if |xs| == 0 {
      if |ys| > 0 { HasMember(ys); }
    } else if |ys| == 0 {
      HasMember(xs);
    } else {
      assert xs[0] in ys && ys[0] in xs;
      assert xs[0] == ys[0];
      forall i
        ensures i in xs[1..] <==> i in ys[1..]
      {
        TailMembers(xs, i);
        TailMembers(ys, i);
      }
      SameAscending(xs[1..], ys[1..]);
      assert xs == [xs[0]] + xs[1..] && ys == [ys[0]] + ys[1..];
    }
  }

  lemma HasMember(xs: seq<nat>)
    requires xs != []
    ensures exists i: nat :: i in xs
  {
    assert xs[0] in xs;
  }

  lemma TailMembers(xs: seq<nat>, i: nat)
    requires Ascending(xs) && |xs| > 0
    ensures i in xs[1..] <==> i in xs && i != xs[0]
  {
  }

  ghost function IssueAt(c: Config, m: Machine, i: nat): Machine
    requires Shape(c, m) && i < |c.ins|
  {
    m.(issued := m.issued[i := true], issueCycle := m.issueCycle[i := m.cycle])
  }

  /** m after the group has issued and before the clocks advance. */
  ghost function IssueGroup(c: Config, m: Machine, group: seq<nat>): Machine
    requires Shape(c, m)
  {
    m.(issued := seq(|c.ins|, i requires 0 <= i < |c.ins| => m.issued[i] || InGroup(group, i)),
       issueCycle := seq(|c.ins|, i requires 0 <= i < |c.ins| => if InGroup(group, i) then m.cycle else m.issueCycle[i]))
  }

  lemma NothingIssued(c: Config, m: Machine)
    requires Shape(c, m)
    ensures IssueGroup(c, m, []) == m
  {
    assert IssueGroup(c, m, []).issued == m.issued && IssueGroup(c, m, []).issueCycle == m.issueCycle;
  }

  lemma IssueOneMore(c: Config, m: Machine, done: seq<nat>, i: nat)
    requires Shape(c, m) && i < |c.ins| && i !in done
    ensures IssueGroup(c, m, done + [i]) == IssueAt(c, IssueGroup(c, m, done), i)
    ensures IssueGroup(c, m, done).issued[i] == m.issued[i]
  {
    var a := IssueGroup(c, m, done + [i]);
    var b := IssueAt(c, IssueGroup(c, m, done), i);
    assert a.issued == b.issued && a.issueCycle == b.issueCycle;
  }

  ghost function Pushed(c: Config, m: Machine, i: nat, heap: set<Entry>): set<Entry>
    requires i < |c.ins|
  {
    if c.ins[i].IsStore() then heap else heap + {(m.cycle + c.ins[i].Latency(), i)}
  }

  lemma IssueAtHeap(c: Config, m: Machine, i: nat, heap: set<Entry>)
    requires Shape(c, m) && HeapCoupled(c, m, heap) && i < |c.ins| && !m.issued[i] && !m.completed[i]
    ensures HeapCoupled(c, IssueAt(c, m, i), Pushed(c, m, i, heap))
  {
    hide Instruction.IsStore, Instruction.Latency;
    var r := IssueAt(c, m, i);
    forall j | 0 <= j < |c.ins| && Pending(c, r, j)
      ensures (Due(c, r, j), j) in Pushed(c, m, i, heap)
    {
      assert j != i ==> Pending(c, m, j) && Due(c, m, j) == Due(c, r, j);
    }
    assert forall e :: e in heap ==> e.1 != i && Pending(c, r, e.1) && Due(c, r, e.1) == Due(c, m, e.1);
  }

  lemma IssueAtActive(c: Config, m: Machine, i: nat)
    requires Shape(c, m) && i < |c.ins| && !m.issued[i] && !m.completed[i]
    ensures |ActiveMem(c, IssueAt(c, m, i))| == |ActiveMem(c, m)| + if c.ins[i].IsMem() then 1 else 0
  {
    hide Instruction.IsMem;
    var before, after := ActiveMem(c, m), ActiveMem(c, IssueAt(c, m, i));
    assert forall j :: j in after && j != i ==> j in before;
    assert forall j :: j in before ==> j in after && j != i;
    assert i in after <==> c.ins[i].IsMem();
    hide ActiveMem, IssueAt;
    OneMore(before, after, i);
  }

  lemma OneMore(before: set<nat>, after: set<nat>, i: nat)
    requires forall j :: j in after && j != i ==> j in before
    requires forall j :: j in before ==> j in after && j != i
    ensures |after| == |before| + if i in after then 1 else 0
  {
    assert after == if i in after then before + {i} else before;
  }

  lemma {:induction false} SettleIsPhases(c: Config, m: Machine)
    requires Inv(c, m)
    ensures forall i :: 0 <= i < |c.ins| && m.completed[i] ==> i < m.nextAdmit
    ensures Shape(c, Retire(c, m, 3))
    ensures Settle(c, m) == Observe(c, Admit(c, HeadStore(c, Drain(c, Retire(c, m, 3))), 3))
  {
    hide Config.IsFree, Timed, MemOrder, DepOrder, Barrier, StrictOrder, MemBound;
    RetireKeeps(c, m, 3);
  }

  lemma StatsKeep(c: Config, m: Machine, stats: Stats, heap: set<Entry>)
    requires Inv(c, m) && HeapCoupled(c, m, heap)
    ensures var r := m.(stats := stats);
            Inv(c, r) && HeapCoupled(c, r, heap) && ActiveMem(c, r) == ActiveMem(c, m)
  {
    hide Config.IsFree, Instruction.IsMem, Instruction.IsPersistentHard;
    var r := m.(stats := stats);
    SamePending(c, m, r, heap);
    forall i | 0 <= i < |c.ins| && m.issued[i]
      ensures !c.IsFree(i) ==> FoundDeps(c, r, i)
      ensures c.ins[i].IsMem() ==> FollowsOlderMem(c, r, i)
    {
      assert !c.IsFree(i) ==> FoundDeps(c, m, i);
      assert c.ins[i].IsMem() ==> FollowsOlderMem(c, m, i);
    }
  }

  lemma GroupFresh(c: Config, m: Machine, group: seq<nat>)
    requires Inv(c, m) && InTrace(c.ins, group) && forall k :: 0 <= k < |group| ==> Selected(c, m, group[k])
    ensures forall i :: i in group ==> !m.issued[i] && !m.completed[i]
  {
    hide Timed, MemOrder, DepOrder, Barrier, StrictOrder, MemBound;
    assert forall i :: i in group ==> Selected(c, m, i);
  }

  /** The counters do not influence what issues. */
  lemma StatsIrrelevant(c: Config, m: Machine, counted: Machine, group: seq<nat>)
    requires Shape(c, m) && counted == m.(stats := IssueStats(c, m, group)) && InTrace(c.ins, group)
    ensures var stalls := c.pausableFeed && FeedBlocked(c, m);
            Finish(c, m, group) == IssueGroup(c, counted, group).(
              stats := counted.stats.(feedStallCycles := counted.stats.feedStallCycles + if stalls then 1 else 0),
              feedClock := if stalls then m.feedClock else m.feedClock + 1, cycle := m.cycle + 1)
  {
    hide Unissued, FeedBlocked;
    var a := Finish(c, m, group);
    var b := IssueGroup(c, counted, group);
    assert a.issued == b.issued && a.issueCycle == b.issueCycle;
  }

  lemma RetireUnfolds(c: Config, m: Machine, left: nat)
    requires Shape(c, m) && forall i :: 0 <= i < |c.ins| && m.completed[i] ==> i < m.nextAdmit
    ensures m.retireHead >= |c.ins| || left == 0 || !m.completed[m.retireHead] ==> Retire(c, m, left) == m
    ensures m.retireHead < |c.ins| && left > 0 && m.completed[m.retireHead] ==>
              var r := m.(retireHead := m.retireHead + 1);
              Retire(c, m, left) == if c.ins[m.retireHead].IsHard() && !c.IsFree(m.retireHead) then r
                                    else Retire(c, r, left - 1)
  {
  }

  /** m after instruction i completes at `when`. */
  ghost function CompleteAt(c: Config, m: Machine, i: nat, when: int): Machine
    requires Shape(c, m) && i < |c.ins|
  {
    m.(completed := m.completed[i := true], completeCycle := m.completeCycle[i := when])
  }

  lemma CompleteOneCoupled(c: Config, m: Machine, heap: set<Entry>, e: Entry)
    requires Inv(c, m) && HeapCoupled(c, m, heap) && e in heap && e.0 <= m.cycle
    ensures var r := CompleteAt(c, m, e.1, e.0);
            && Inv(c, r) && HeapCoupled(c, r, heap - {e})
            && |ActiveMem(c, r)| == |ActiveMem(c, m)| - if c.ins[e.1].IsMem() then 1 else 0
  {
    hide Config.IsFree, Nested, Timed, MemOrder, DepOrder, Barrier, StrictOrder, MemBound, Instruction.IsStore;
    var r := CompleteAt(c, m, e.1, e.0);
    assert Completes(c, m, r);
    CompletionKeeps(c, m, r);
    forall i | 0 <= i < |c.ins| && Pending(c, r, i)
      ensures (Due(c, r, i), i) in heap - {e}
    {
      assert Pending(c, m, i) && Due(c, m, i) == Due(c, r, i) && i != e.1;
    }
    if c.ins[e.1].IsMem() {
      assert ActiveMem(c, m) == ActiveMem(c, r) + {e.1};
    } else {
      assert ActiveMem(c, m) == ActiveMem(c, r);
    }
  }

  lemma DrainAbsorbs(c: Config, m: Machine, heap: set<Entry>, e: Entry)
    requires Shape(c, m) && HeapCoupled(c, m, heap) && e in heap && e.0 <= m.cycle
    ensures Shape(c, CompleteAt(c, m, e.1, e.0)) && Drain(c, CompleteAt(c, m, e.1, e.0)) == Drain(c, m)
  {
    hide Instruction.IsStore;
    var r := CompleteAt(c, m, e.1, e.0);
    assert forall i :: 0 <= i < |c.ins| && i != e.1 ==> (Lands(c, r, i) <==> Lands(c, m, i));
    assert Drain(c, r).completed == Drain(c, m).completed;
    assert Drain(c, r).completeCycle == Drain(c, m).completeCycle;
  }

  lemma NothingLands(c: Config, m: Machine, heap: set<Entry>)
    requires Shape(c, m) && HeapCoupled(c, m, heap) && forall e :: e in heap ==> e.0 > m.cycle
    ensures Drain(c, m) == m
  {
    hide Instruction.IsStore;
    assert forall i :: 0 <= i < |c.ins| ==> !Lands(c, m, i);
    assert Drain(c, m).completed == m.completed && Drain(c, m).completeCycle == m.completeCycle;
  }

  ghost predicate HeapCoupled(c: Config, m: Machine, heap: set<Entry>)
    requires Shape(c, m)
  {
    && (forall e :: e in heap ==> e.1 < |c.ins| && Pending(c, m, e.1) && e.0 == Due(c, m, e.1))
    && (forall i :: 0 <= i < |c.ins| && Pending(c, m, i) ==> (Due(c, m, i), i) in heap)
  }

  lemma RetireOneCoupled(c: Config, m: Machine, heap: set<Entry>)
    requires Inv(c, m) && HeapCoupled(c, m, heap) && m.retireHead < |c.ins| && m.completed[m.retireHead]
    ensures var r := m.(retireHead := m.retireHead + 1);
            Inv(c, r) && HeapCoupled(c, r, heap) && ActiveMem(c, r) == ActiveMem(c, m)
  {
    RetireOneKeeps(c, m);
    hide Inv;
    SamePending(c, m, m.(retireHead := m.retireHead + 1), heap);
  }

  /** The heap depends only on what is issued, when, and what is complete. */
  lemma SamePending(c: Config, m: Machine, r: Machine, heap: set<Entry>)
    requires Shape(c, m) && Shape(c, r) && HeapCoupled(c, m, heap)
    requires r.issued == m.issued && r.completed == m.completed && r.issueCycle == m.issueCycle
    ensures HeapCoupled(c, r, heap) && ActiveMem(c, r) == ActiveMem(c, m)
  {
    hide Instruction.IsStore, Instruction.IsMem;
    forall i | 0 <= i < |c.ins| && Pending(c, r, i)
      ensures (Due(c, r, i), i) in heap
    {
      assert Pending(c, m, i) && Due(c, m, i) == Due(c, r, i);
    }
  }
}
