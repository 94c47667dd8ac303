/** One cycle of schedule in tools/issue_window_experiment.py as functions on a state value.
    The class in IssueScheduler.dfy refines them with the source's lists, counter and heap. */
module IssueMachine {
  import opened IssueTrace
  import opened IssuePipes
  import opened IssueChoice

  datatype Policy = Strict | Window

  datatype Config = Config(
    ins: Trace, links: seq<Links>, releases: seq<int>, policy: Policy,
    capacity: int, pausableFeed: bool, freeBranches: bool, freeJumps: bool)
  {
    ghost predicate Valid() { Linked(ins, links) && |releases| == |ins| > 0 }

    predicate IsFree(i: nat)
      requires i < |ins|
    {
      (freeBranches && ins[i].IsBranch()) || (freeJumps && ins[i].IsJump())
    }
  }

  datatype Stats = Stats(
    issueSlots: int, noIssueCycles: int, windowFullCycles: int, maxOccupancy: int,
    skippedOldestCycles: int, maxSkipDistance: int, feedStallCycles: int,
    freeBranches: int, freeJumps: int)

  datatype Machine = Machine(
    issued: seq<bool>, completed: seq<bool>, issueCycle: seq<int>, completeCycle: seq<int>,
    nextAdmit: nat, retireHead: nat, cycle: int, feedClock: int, stats: Stats)

  ghost predicate Shape(c: Config, m: Machine) {
    && c.Valid()
    && |m.issued| == |m.completed| == |m.issueCycle| == |m.completeCycle| == |c.ins|
    && m.retireHead <= m.nextAdmit <= |c.ins|
  }

  // ---- The phases of one cycle ----

  /** Retire up to `left` completed heads; a hard instruction that is not free ends the group. */
  ghost function Retire(c: Config, m: Machine, left: nat): Machine
    requires Shape(c, m)
    requires forall i :: 0 <= i < |c.ins| && m.completed[i] ==> i < m.nextAdmit
    decreases left
  {
    if m.retireHead < |c.ins| && left > 0 && m.completed[m.retireHead] then
      var m' := m.(retireHead := m.retireHead + 1);
      if c.ins[m.retireHead].IsHard() && !c.IsFree(m.retireHead) then m' else Retire(c, m', left - 1)
    else m
  }

  /** Issued, not yet complete, and waiting for its latency: every instruction but a store. */
  ghost predicate Pending(c: Config, m: Machine, i: nat)
    requires Shape(c, m) && i < |c.ins|
  {
    m.issued[i] && !m.completed[i] && !c.ins[i].IsStore()
  }

  ghost function Due(c: Config, m: Machine, i: nat): int
    requires Shape(c, m) && i < |c.ins|
  {
    m.issueCycle[i] + c.ins[i].Latency()
  }

  ghost predicate Lands(c: Config, m: Machine, i: nat)
    requires Shape(c, m) && i < |c.ins|
  {
    Pending(c, m, i) && Due(c, m, i) <= m.cycle
  }

  /** Complete every pending instruction whose latency has passed. */
  ghost function Drain(c: Config, m: Machine): (r: Machine)
    requires Shape(c, m)
    ensures Shape(c, r)
  {
    m.(completed := seq(|c.ins|, i requires 0 <= i < |c.ins| => m.completed[i] || Lands(c, m, i)),
       completeCycle := seq(|c.ins|, i requires 0 <= i < |c.ins| =>
         if Lands(c, m, i) then Due(c, m, i) else m.completeCycle[i]))
  }

  /** A posted store completes only at the ordered head. */
  ghost function HeadStore(c: Config, m: Machine): (r: Machine)
    requires Shape(c, m)
    ensures Shape(c, r)
  {
    if && m.retireHead < |c.ins| && m.issued[m.retireHead]
       && c.ins[m.retireHead].IsStore() && !m.completed[m.retireHead]
    then m.(completed := m.completed[m.retireHead := true],
            completeCycle := m.completeCycle[m.retireHead := m.cycle])
    else m
  }

  ghost function AdmitOne(c: Config, m: Machine): (r: Machine)
    requires Shape(c, m) && m.nextAdmit < |c.ins|
    ensures Shape(c, r)
  {
    var i := m.nextAdmit;
    if !c.IsFree(i) then m.(nextAdmit := i + 1)
    else m.(nextAdmit := i + 1,
            issued := m.issued[i := true], completed := m.completed[i := true],
            issueCycle := m.issueCycle[i := m.cycle], completeCycle := m.completeCycle[i := m.cycle],
            stats := if c.ins[i].IsBranch() then m.stats.(freeBranches := m.stats.freeBranches + 1)
                     else m.stats.(freeJumps := m.stats.freeJumps + 1))
  }

  ghost function Admit(c: Config, m: Machine, left: nat): (r: Machine)
    requires Shape(c, m)
    ensures Shape(c, r)
    decreases left
  {
    if && m.nextAdmit < |c.ins| && left > 0 && m.nextAdmit - m.retireHead < c.capacity
       && c.releases[m.nextAdmit] <= m.feedClock
    then Admit(c, AdmitOne(c, m), left - 1)
    else m
  }

  ghost predicate FeedBlocked(c: Config, m: Machine)
    requires Shape(c, m)
  {
    && m.nextAdmit < |c.ins| && c.releases[m.nextAdmit] <= m.feedClock
    && m.nextAdmit - m.retireHead >= c.capacity
  }

  function Max(a: int, b: int): int { if a >= b then a else b }

  ghost function Observe(c: Config, m: Machine): (r: Machine)
    requires Shape(c, m)
    ensures Shape(c, r)
  {
    m.(stats := m.stats.(
         maxOccupancy := Max(m.stats.maxOccupancy, m.nextAdmit - m.retireHead),
         windowFullCycles := m.stats.windowFullCycles + if FeedBlocked(c, m) then 1 else 0))
  }

  // ---- Selection ----

  ghost function ActiveMem(c: Config, m: Machine): set<nat>
    requires Shape(c, m)
  {
    set i: nat | i < |c.ins| && c.ins[i].IsMem() && m.issued[i] && !m.completed[i]
  }

  ghost predicate Ready(c: Config, m: Machine, i: nat)
    requires Shape(c, m) && i < |c.ins|
  {
    && (forall p :: p in c.links[i].deps ==> p < |c.ins| && m.completed[p])
    && (c.links[i].previousMem.Some? ==> c.links[i].previousMem.value < |c.ins| && m.issued[c.links[i].previousMem.value])
    && (c.ins[i].IsMem() ==> |ActiveMem(c, m)| < 3)
    && (c.ins[i].IsPersistentHard() ==> i == m.retireHead)
  }

  /** One past the first persistent-hard instruction of the window, or the window's end. */
  ghost function OpenEnd(c: Config, m: Machine, lo: nat): (hi: nat)
    requires Shape(c, m) && lo <= m.nextAdmit
    ensures lo <= hi <= m.nextAdmit
    ensures forall i :: lo <= i < hi - 1 ==> !c.ins[i].IsPersistentHard()
    ensures hi < m.nextAdmit ==> lo < hi && c.ins[hi - 1].IsPersistentHard()
    decreases m.nextAdmit - lo
  {
    if lo == m.nextAdmit then lo
    else if c.ins[lo].IsPersistentHard() then lo + 1
    else OpenEnd(c, m, lo + 1)
  }

  /** The unissued instructions of [lo, hi), oldest first. */
  ghost function Unissued(c: Config, m: Machine, lo: nat, hi: nat): (r: seq<nat>)
    requires Shape(c, m) && lo <= hi <= |c.ins|
    ensures forall i :: i in r <==> lo <= i < hi && !m.issued[i]
    ensures Ascending(r)
  {
    if lo == hi then []
    else
      var older := Unissued(c, m, lo, hi - 1);
      AscendingAppend(older, hi - 1);
      older + if m.issued[hi - 1] then [] else [hi - 1]
  }

  ghost function ReadyIn(c: Config, m: Machine, xs: seq<nat>): (r: seq<nat>)
    requires Shape(c, m) && InTrace(c.ins, xs) && Ascending(xs)
    ensures forall i :: i in r <==> i in xs && Ready(c, m, i)
    ensures Ascending(r)
  {
    if xs == [] then []
    else
      var last := xs[|xs| - 1];
      var older := ReadyIn(c, m, xs[..|xs| - 1]);
      assert xs == xs[..|xs| - 1] + [last];
      assert forall i :: i in older ==> i in xs[..|xs| - 1];
      AscendingAppend(older, last);
      older + if Ready(c, m, last) then [last] else []
  }

  ghost function Open(c: Config, m: Machine): (r: seq<nat>)
    requires Shape(c, m)
    ensures InTrace(c.ins, r) && Ascending(r)
  {
    var r := Unissued(c, m, m.retireHead, OpenEnd(c, m, m.retireHead));
    assert forall k :: 0 <= k < |r| ==> r[k] in r;
    r
  }

  ghost predicate Chosen(c: Config, m: Machine, group: seq<nat>)
    requires Shape(c, m)
  {
    var ready := ReadyIn(c, m, Open(c, m));
    if c.policy.Strict? then StrictChoice(c.ins, Open(c, m), ready, group)
    else WindowChoice(c.ins, ready, group)
  }

  ghost predicate InGroup(group: seq<nat>, i: nat) { i in group }

  /** Issue the group, then advance the clocks. */
  ghost function Finish(c: Config, m: Machine, group: seq<nat>): (r: Machine)
    requires Shape(c, m) && InTrace(c.ins, group)
    ensures Shape(c, r)
  {
    var stalls := c.pausableFeed && FeedBlocked(c, m);
    m.(issued := seq(|c.ins|, i requires 0 <= i < |c.ins| => m.issued[i] || InGroup(group, i)),
       issueCycle := seq(|c.ins|, i requires 0 <= i < |c.ins| => if InGroup(group, i) then m.cycle else m.issueCycle[i]),
       stats := IssueStats(c, m, group).(
         feedStallCycles := m.stats.feedStallCycles + if stalls then 1 else 0),
       feedClock := if stalls then m.feedClock else m.feedClock + 1,
       cycle := m.cycle + 1)
  }

  ghost function IssueStats(c: Config, m: Machine, group: seq<nat>): Stats
    requires Shape(c, m)
  {
    var unissued := Unissued(c, m, m.retireHead, m.nextAdmit);
    if |group| > 0 && |unissued| > 0 then
      var oldest := unissued[0];
      var s := m.stats.(issueSlots := m.stats.issueSlots + |group|);
      if InGroup(group, oldest) then s
      else s.(skippedOldestCycles := s.skippedOldestCycles + 1,
              maxSkipDistance := Max(s.maxSkipDistance, group[|group| - 1] as int - oldest as int))
    else m.stats.(noIssueCycles := m.stats.noIssueCycles + if m.nextAdmit > m.retireHead then 1 else 0)
  }

  // ---- Invariants ----

  ghost predicate Nested(c: Config, m: Machine)
    requires Shape(c, m)
  {
    && (forall i :: 0 <= i < m.retireHead ==> m.completed[i])
    && (forall i :: 0 <= i < |c.ins| && m.completed[i] ==> m.issued[i])
    && (forall i :: 0 <= i < |c.ins| && m.issued[i] ==> i < m.nextAdmit)
    && (forall i :: 0 <= i < m.nextAdmit && c.IsFree(i) ==> m.completed[i])
    && m.nextAdmit - m.retireHead <= Max(0, c.capacity)
  }

  ghost predicate Timed(c: Config, m: Machine)
    requires Shape(c, m)
  {
    && (forall i :: 0 <= i < |c.ins| && m.issued[i] && !c.IsFree(i) ==> m.issueCycle[i] < m.cycle)
    && (forall i :: 0 <= i < |c.ins| && m.completed[i] ==> m.completeCycle[i] <= m.cycle)
    && (forall i :: 0 <= i < |c.ins| && m.completed[i] && !c.IsFree(i) ==> m.issueCycle[i] < m.completeCycle[i])
  }

  /** Memory operations issue in program order, one a cycle. */
  ghost predicate MemOrder(c: Config, m: Machine)
    requires Shape(c, m)
  {
    forall i :: 0 <= i < |c.ins| && c.ins[i].IsMem() && m.issued[i] ==> FollowsOlderMem(c, m, i)
  }

  ghost predicate FollowsOlderMem(c: Config, m: Machine, i: nat)
    requires Shape(c, m) && i < |c.ins|
  {
    forall j :: 0 <= j < i && c.ins[j].IsMem() ==> m.issued[j] && m.issueCycle[j] < m.issueCycle[i]
  }

  /** An issued instruction found each of its producers complete. */
  ghost predicate DepOrder(c: Config, m: Machine)
    requires Shape(c, m)
  {
    forall i :: 0 <= i < |c.ins| && m.issued[i] && !c.IsFree(i) ==> FoundDeps(c, m, i)
  }

  ghost predicate FoundDeps(c: Config, m: Machine, i: nat)
    requires Shape(c, m) && i < |c.ins|
  {
    forall p :: p in c.links[i].deps ==> p < i && m.completed[p] && m.completeCycle[p] <= m.issueCycle[i]
  }

  /** Nothing but a free instruction passes a persistent-hard one that has not retired, and a
      persistent-hard one that is not free issues only as the head. */
  ghost predicate Barrier(c: Config, m: Machine)
    requires Shape(c, m)
  {
    && (forall p, q :: m.retireHead <= p < q < |c.ins| && c.ins[p].IsPersistentHard() && m.issued[q] ==> c.IsFree(q))
    && (forall p :: m.retireHead <= p < |c.ins| && c.ins[p].IsPersistentHard() && m.issued[p] && !c.IsFree(p) ==>
                      p == m.retireHead)
  }

  ghost predicate StrictOrder(c: Config, m: Machine)
    requires Shape(c, m)
  {
    c.policy.Strict? ==> forall i, j :: 0 <= i < j < |c.ins| && m.issued[j] && !c.IsFree(j) ==> m.issued[i]
  }

  ghost predicate MemBound(c: Config, m: Machine)
    requires Shape(c, m)
  {
    |ActiveMem(c, m)| <= 3
  }

  ghost predicate Inv(c: Config, m: Machine) {
    && Shape(c, m) && Nested(c, m) && Timed(c, m) && MemOrder(c, m) && DepOrder(c, m)
    && Barrier(c, m) && StrictOrder(c, m) && MemBound(c, m)
  }

  function Least(xs: seq<int>): int
    requires |xs| > 0
  {
    if |xs| == 1 then xs[0] else if xs[0] <= Least(xs[1..]) then xs[0] else Least(xs[1..])
  }

  ghost function Initial(c: Config): (m: Machine)
    requires c.Valid()
    ensures Inv(c, m)
  {
    var n := |c.ins|;
    var m := Machine(seq(n, _ => false), seq(n, _ => false), seq(n, _ => -1), seq(n, _ => -1),
                     0, 0, Least(c.releases), Least(c.releases), Stats(0, 0, 0, 0, 0, 0, 0, 0, 0));
    assert ActiveMem(c, m) == {};
    m
  }

  lemma RetireOneKeeps(c: Config, m: Machine)
    requires Inv(c, m) && m.retireHead < |c.ins| && m.completed[m.retireHead]
    ensures Inv(c, m.(retireHead := m.retireHead + 1))
  {
    hide Instruction.IsPersistentHard, Instruction.IsMem, Config.IsFree;
    var r := m.(retireHead := m.retireHead + 1);
    assert ActiveMem(c, r) == ActiveMem(c, m);
  }

  lemma {:induction false} RetireKeeps(c: Config, m: Machine, left: nat)
    requires Inv(c, m)
    ensures forall i :: 0 <= i < |c.ins| && m.completed[i] ==> i < m.nextAdmit
    ensures var r := Retire(c, m, left);
            && Inv(c, r) && m.retireHead <= r.retireHead <= m.retireHead + left
            && r == m.(retireHead := r.retireHead)
            && (left > 0 && m.retireHead < |c.ins| && m.completed[m.retireHead] ==> r.retireHead > m.retireHead)
    decreases left
  {
    hide Instruction.IsHard, Config.IsFree, Timed, MemOrder, DepOrder, Barrier, StrictOrder, MemBound;
    if m.retireHead < |c.ins| && left > 0 && m.completed[m.retireHead] {
      RetireOneKeeps(c, m);
      RetireKeeps(c, m.(retireHead := m.retireHead + 1), left - 1);
    }
  }

  /** r is m with some issued instructions completed after their issue and not in the future. */
  ghost predicate Completes(c: Config, m: Machine, r: Machine) {
    && Shape(c, m) && Shape(c, r)
    && r == m.(completed := r.completed, completeCycle := r.completeCycle)
    && (forall i :: 0 <= i < |c.ins| && m.completed[i] ==>
                      r.completed[i] && r.completeCycle[i] == m.completeCycle[i])
    && (forall i :: 0 <= i < |c.ins| && r.completed[i] && !m.completed[i] ==>
                      m.issued[i] && m.issueCycle[i] < r.completeCycle[i] <= m.cycle)
  }

  lemma CompletionKeepsDeps(c: Config, m: Machine, r: Machine)
    requires Completes(c, m, r) && DepOrder(c, m)
    ensures DepOrder(c, r)
  {
    hide Config.IsFree;
    forall i | 0 <= i < |c.ins| && r.issued[i] && !c.IsFree(i)
      ensures FoundDeps(c, r, i)
    {
      assert m.issued[i];
      assert FoundDeps(c, m, i);
    }
  }

  lemma CompletionKeeps(c: Config, m: Machine, r: Machine)
    requires Inv(c, m) && Completes(c, m, r)
    ensures Inv(c, r)
  {
    CompletionKeepsDeps(c, m, r);
    hide Instruction.IsPersistentHard, Instruction.IsMem, Config.IsFree, DepOrder;
    SmallerActive(ActiveMem(c, r), ActiveMem(c, m));
  }

  lemma DrainKeeps(c: Config, m: Machine)
    requires Inv(c, m)
    ensures Completes(c, m, Drain(c, m)) && Inv(c, Drain(c, m))
  {
    hide Nested, MemOrder, DepOrder, Barrier, StrictOrder, MemBound;
    CompletionKeeps(c, m, Drain(c, m));
  }

  lemma {:induction false} SmallerActive(a: set<nat>, b: set<nat>)
    requires a <= b
    ensures |a| <= |b|
  {
    if x :| x in a {
      SmallerActive(a - {x}, b - {x});
    }
  }

  lemma HeadStoreKeeps(c: Config, m: Machine)
    requires Inv(c, m)
    ensures Completes(c, m, HeadStore(c, m)) && Inv(c, HeadStore(c, m))
  {
    assert m.retireHead < |c.ins| && c.ins[m.retireHead].IsStore() ==> !c.IsFree(m.retireHead);
    hide Nested, MemOrder, DepOrder, Barrier, StrictOrder, MemBound;
    CompletionKeeps(c, m, HeadStore(c, m));
  }

  lemma AdmitOneKeeps(c: Config, m: Machine)
    requires Inv(c, m) && m.nextAdmit < |c.ins| && m.nextAdmit - m.retireHead < c.capacity
    ensures Inv(c, AdmitOne(c, m))
  {
    hide Config.IsFree, DepOrder, MemOrder, Barrier, StrictOrder, Timed, Nested, ActiveMem, AdmitOne;
    AdmitKeepsDeps(c, m);
    AdmitKeepsOrder(c, m);
    AdmitKeepsTimes(c, m);
    AdmitKeepsMem(c, m);
  }

  lemma AdmitKeepsTimes(c: Config, m: Machine)
    requires Shape(c, m) && Nested(c, m) && Timed(c, m)
    requires m.nextAdmit < |c.ins| && m.nextAdmit - m.retireHead < c.capacity
    ensures Nested(c, AdmitOne(c, m)) && Timed(c, AdmitOne(c, m))
  {
    hide Linked, Instruction.IsBranch, Config.IsFree;
  }

  lemma AdmitKeepsMem(c: Config, m: Machine)
    requires Shape(c, m) && m.nextAdmit < |c.ins|
    ensures ActiveMem(c, AdmitOne(c, m)) == ActiveMem(c, m)
  {
    assert c.IsFree(m.nextAdmit) ==> !c.ins[m.nextAdmit].IsMem();
    hide Instruction.IsBranch, Config.IsFree, Instruction.IsMem;
  }

  lemma AdmitKeepsOrder(c: Config, m: Machine)
    requires Inv(c, m) && m.nextAdmit < |c.ins|
    ensures var r := AdmitOne(c, m); MemOrder(c, r) && Barrier(c, r) && StrictOrder(c, r)
  {
    hide MemOrder, Instruction.IsBranch, Instruction.IsPersistentHard, Config.IsFree, DepOrder, Timed, MemBound;
    AdmitKeepsMemOrder(c, m);
  }

  lemma AdmitKeepsMemOrder(c: Config, m: Machine)
    requires Shape(c, m) && Nested(c, m) && MemOrder(c, m) && m.nextAdmit < |c.ins|
    ensures MemOrder(c, AdmitOne(c, m))
  {
    assert c.IsFree(m.nextAdmit) ==> !c.ins[m.nextAdmit].IsMem();
    hide Instruction.IsBranch, Instruction.IsMem, Config.IsFree;
  }

  lemma AdmitKeepsDeps(c: Config, m: Machine)
    requires Shape(c, m) && Nested(c, m) && DepOrder(c, m) && m.nextAdmit < |c.ins|
    ensures DepOrder(c, AdmitOne(c, m))
  {
    hide Config.IsFree, Instruction.IsBranch;
    var r := AdmitOne(c, m);
    forall i | 0 <= i < |c.ins| && r.issued[i] && !c.IsFree(i)
      ensures FoundDeps(c, r, i)
    {
      assert m.issued[i] && FoundDeps(c, m, i);
      assert forall p :: p in c.links[i].deps ==> p < m.nextAdmit;
    }
  }

  lemma {:induction false} AdmitKeeps(c: Config, m: Machine, left: nat)
    requires Inv(c, m)
    ensures Inv(c, Admit(c, m, left))
    ensures Admit(c, m, left).retireHead == m.retireHead && Admit(c, m, left).nextAdmit >= m.nextAdmit
    decreases left
  {
    hide Nested, Timed, MemOrder, DepOrder, Barrier, StrictOrder, MemBound;
    if && m.nextAdmit < |c.ins| && left > 0 && m.nextAdmit - m.retireHead < c.capacity
       && c.releases[m.nextAdmit] <= m.feedClock {
      AdmitOneKeeps(c, m);
      AdmitKeeps(c, AdmitOne(c, m), left - 1);
    }
  }

  // ---- The chosen group ----

  /** What selection guarantees of one member. */
  ghost predicate Selected(c: Config, m: Machine, i: nat)
    requires Shape(c, m)
  {
    && m.retireHead <= i < m.nextAdmit && !m.issued[i] && !c.IsFree(i) && Ready(c, m, i)
    && forall p :: m.retireHead <= p < i ==> !c.ins[p].IsPersistentHard()
  }

  lemma OpenIsSelected(c: Config, m: Machine, i: nat)
    requires Shape(c, m) && Nested(c, m)
    requires i in Open(c, m) && Ready(c, m, i)
    ensures Selected(c, m, i)
  {
    hide Ready, Instruction.IsPersistentHard, Config.IsFree;
    var hi := OpenEnd(c, m, m.retireHead);
    assert m.retireHead <= i < hi && !m.issued[i];
  }

  lemma {:induction false} GroupIsSelected(c: Config, m: Machine, group: seq<nat>)
    requires Shape(c, m) && Nested(c, m) && Chosen(c, m, group)
    ensures InTrace(c.ins, group) && Ascending(group) && |group| <= 3 && Assignable(c.ins, group)
    ensures forall k :: 0 <= k < |group| ==> Selected(c, m, group[k])
    ensures c.policy.Strict? ==> group <= Open(c, m)
    ensures |group| > 0 ==> Unissued(c, m, m.retireHead, m.nextAdmit) != []
  {
    hide Selected, Ready, HardOnlyLast, Assignable, Open;
    forall k | 0 <= k < |group|
      ensures Selected(c, m, group[k])
    {
      assert group[k] in ReadyIn(c, m, Open(c, m));
      OpenIsSelected(c, m, group[k]);
    }
    if |group| > 0 {
      SelectedIsUnissued(c, m, group[0]);
    }
  }

  lemma {:induction false} SelectedIsUnissued(c: Config, m: Machine, i: nat)
    requires Shape(c, m) && Selected(c, m, i)
    ensures i in Unissued(c, m, m.retireHead, m.nextAdmit)
  {
  }

  /** The memory pipe carries one instruction. */
  lemma OneMemPerGroup(c: Config, group: seq<nat>, a: nat, b: nat)
    requires InTrace(c.ins, group) && Assignable(c.ins, group)
    requires a < b < |group| && c.ins[group[a]].IsMem()
    ensures !c.ins[group[b]].IsMem()
  {
    var pipes :| LegalPipes(c.ins, group, pipes);
    assert pipes[a] in c.ins[group[a]].PipeOptions() && pipes[b] in c.ins[group[b]].PipeOptions();
  }

  lemma NewlyActive(c: Config, m: Machine, group: seq<nat>, k: nat)
    requires Shape(c, m) && InTrace(c.ins, group) && Assignable(c.ins, group)
    requires k < |group| && c.ins[group[k]].IsMem()
    ensures ActiveMem(c, Finish(c, m, group)) <= ActiveMem(c, m) + {group[k]}
  {
    hide IssueStats, FeedBlocked, Assignable, Instruction.IsMem;
    forall i | i in ActiveMem(c, Finish(c, m, group)) && i !in ActiveMem(c, m)
      ensures i == group[k]
    {
      assert InGroup(group, i);
      var j :| 0 <= j < |group| && group[j] == i;
      if j < k { OneMemPerGroup(c, group, j, k); }
      if j > k { OneMemPerGroup(c, group, k, j); }
    }
  }

  lemma NothingNewlyActive(c: Config, m: Machine, group: seq<nat>)
    requires Shape(c, m) && InTrace(c.ins, group)
    requires forall k :: 0 <= k < |group| ==> !c.ins[group[k]].IsMem()
    ensures ActiveMem(c, Finish(c, m, group)) <= ActiveMem(c, m)
  {
    hide IssueStats, FeedBlocked, Instruction.IsMem;
  }

  lemma FinishKeepsMemBound(c: Config, m: Machine, group: seq<nat>)
    requires Shape(c, m) && Nested(c, m) && MemBound(c, m) && Chosen(c, m, group)
    requires InTrace(c.ins, group)
    ensures MemBound(c, Finish(c, m, group))
  {
    GroupIsSelected(c, m, group);
    hide Instruction.IsMem, Assignable, Chosen, ActiveMem, Finish, Instruction.IsPersistentHard, Config.IsFree;
    var r := Finish(c, m, group);
    if k: nat :| k < |group| && c.ins[group[k]].IsMem() {
      NewlyActive(c, m, group, k);
      assert Selected(c, m, group[k]);
      SmallerActive(ActiveMem(c, r), ActiveMem(c, m) + {group[k]});
    } else {
      NothingNewlyActive(c, m, group);
      SmallerActive(ActiveMem(c, r), ActiveMem(c, m));
    }
  }

  /** All older memory operations have issued, in earlier cycles. */
  lemma OlderMemIssued(c: Config, m: Machine, i: nat, j: nat)
    requires Shape(c, m) && Timed(c, m) && MemOrder(c, m)
    requires i < |c.ins| && Ready(c, m, i) && j < i && c.ins[i].IsMem() && c.ins[j].IsMem()
    ensures m.issued[j] && m.issueCycle[j] < m.cycle
  {
    assert LinkedAt(c.ins, c.links, i);
    LastMemIsYoungest(c.ins, i);
    var p := LastMem(c.ins, i).value;
    assert j <= p && m.issued[p];
    assert !c.IsFree(p) && !c.IsFree(j);
  }

  lemma FinishKeepsMemOrder(c: Config, m: Machine, group: seq<nat>)
    requires Shape(c, m) && Nested(c, m) && Timed(c, m) && MemOrder(c, m) && Chosen(c, m, group)
    requires InTrace(c.ins, group)
    ensures MemOrder(c, Finish(c, m, group))
  {
    GroupIsSelected(c, m, group);
    hide Instruction.IsMem, Assignable, Chosen, Instruction.IsPersistentHard, Config.IsFree, Ready;
    hide IssueStats, Unissued, Open, OpenEnd, FeedBlocked;
    var r := Finish(c, m, group);
    forall i | 0 <= i < |c.ins| && c.ins[i].IsMem() && r.issued[i]
      ensures FollowsOlderMem(c, r, i)
    {
      FinishFollows(c, m, group, i);
    }
  }

  lemma FinishFollows(c: Config, m: Machine, group: seq<nat>, i: nat)
    requires Shape(c, m) && Timed(c, m) && MemOrder(c, m) && InTrace(c.ins, group)
    requires forall k :: 0 <= k < |group| ==> Selected(c, m, group[k])
    requires i < |c.ins| && c.ins[i].IsMem() && Finish(c, m, group).issued[i]
    ensures FollowsOlderMem(c, Finish(c, m, group), i)
  {
    hide Instruction.IsMem, Instruction.IsPersistentHard, Config.IsFree, IssueStats, FeedBlocked, Ready, MemOrder;
    var r := Finish(c, m, group);
    assert forall x :: x in group ==> Selected(c, m, x);
    forall j | 0 <= j < i && c.ins[j].IsMem()
      ensures r.issued[j] && r.issueCycle[j] < r.issueCycle[i]
    {
      if i in group {
        OlderMemIssued(c, m, i, j);
      } else {
        OlderMemOfIssued(c, m, i, j);
      }
      assert m.issued[j] && j !in group;
    }
  }

  lemma OlderMemOfIssued(c: Config, m: Machine, i: nat, j: nat)
    requires Shape(c, m) && MemOrder(c, m)
    requires j < i < |c.ins| && m.issued[i] && c.ins[i].IsMem() && c.ins[j].IsMem()
    ensures m.issued[j] && m.issueCycle[j] < m.issueCycle[i]
  {
    hide Instruction.IsMem;
    assert FollowsOlderMem(c, m, i);
  }

  lemma ReadyFoundDeps(c: Config, m: Machine, i: nat)
    requires Shape(c, m) && Timed(c, m) && i < |c.ins| && Ready(c, m, i)
    ensures forall p :: p in c.links[i].deps ==> p < i && m.completed[p] && m.completeCycle[p] <= m.cycle
  {
    hide Instruction.IsMem, Instruction.IsPersistentHard, Config.IsFree;
    forall p | p in c.links[i].deps
      ensures p < i && m.completed[p] && m.completeCycle[p] <= m.cycle
    {
      DepIsOlder(c, i, p);
    }
  }

  lemma DepIsOlder(c: Config, i: nat, p: nat)
    requires c.Valid() && i < |c.ins| && p in c.links[i].deps
    ensures p < i
  {
    assert LinkedAt(c.ins, c.links, i);
    LastWriterIsYoungest(c.ins, i, c.ins[i].rs1);
    LastWriterIsYoungest(c.ins, i, c.ins[i].rs2);
  }

  lemma FinishFinds(c: Config, m: Machine, group: seq<nat>, i: nat)
    requires Shape(c, m) && Timed(c, m) && DepOrder(c, m) && InTrace(c.ins, group)
    requires forall k :: 0 <= k < |group| ==> Selected(c, m, group[k])
    requires i < |c.ins| && Finish(c, m, group).issued[i] && !c.IsFree(i)
    requires forall p :: 0 <= p < |c.ins| && m.completed[p] ==> m.issued[p]
    ensures FoundDeps(c, Finish(c, m, group), i)
  {
    hide Instruction.IsPersistentHard, Config.IsFree, Ready, IssueStats, FeedBlocked, Timed, DepOrder;
    if i in group {
      assert Selected(c, m, i);
      ReadyFoundDeps(c, m, i);
    } else {
      assert FoundDeps(c, m, i) by { FoundBefore(c, m, i); }
    }
  }

  lemma FoundBefore(c: Config, m: Machine, i: nat)
    requires Shape(c, m) && DepOrder(c, m) && i < |c.ins| && m.issued[i] && !c.IsFree(i)
    ensures FoundDeps(c, m, i)
  {
    hide Config.IsFree, FoundDeps;
  }

  lemma FinishKeepsDeps(c: Config, m: Machine, group: seq<nat>)
    requires Shape(c, m) && Nested(c, m) && Timed(c, m) && DepOrder(c, m) && Chosen(c, m, group)
    requires InTrace(c.ins, group)
    ensures DepOrder(c, Finish(c, m, group))
  {
    hide Chosen, Instruction.IsPersistentHard, Config.IsFree, Ready, IssueStats, FeedBlocked, Assignable, Selected,
      FoundDeps, Timed;
    GroupIsSelected(c, m, group);
    var r := Finish(c, m, group);
    forall i | 0 <= i < |c.ins| && r.issued[i] && !c.IsFree(i)
      ensures FoundDeps(c, r, i)
    {
      FinishFinds(c, m, group, i);
    }
  }

  lemma FinishKeepsBarrier(c: Config, m: Machine, group: seq<nat>)
    requires Shape(c, m) && Barrier(c, m) && InTrace(c.ins, group)
    requires forall i :: i in group ==> Selected(c, m, i)
    ensures Barrier(c, Finish(c, m, group))
  {
    hide Instruction.IsPersistentHard, Config.IsFree, IssueStats, FeedBlocked, Ready;
    var r := Finish(c, m, group);
    forall p, q | r.retireHead <= p < q < |c.ins| && c.ins[p].IsPersistentHard() && r.issued[q]
      ensures c.IsFree(q)
    {
      assert q !in group;
      assert m.issued[q];
    }
    forall p | r.retireHead <= p < |c.ins| && c.ins[p].IsPersistentHard() && r.issued[p] && !c.IsFree(p)
      ensures p == r.retireHead
    {
      if p in group {
        ReadyHardIsHead(c, m, p);
      }
    }
  }

  lemma ReadyHardIsHead(c: Config, m: Machine, p: nat)
    requires Shape(c, m) && p < |c.ins| && Selected(c, m, p) && c.ins[p].IsPersistentHard()
    ensures p == m.retireHead
  {
    hide Instruction.IsPersistentHard, Instruction.IsMem, Config.IsFree;
  }

  lemma FinishKeepsStrict(c: Config, m: Machine, group: seq<nat>)
    requires Shape(c, m) && Nested(c, m) && StrictOrder(c, m) && InTrace(c.ins, group)
    requires c.policy.Strict? ==> group <= Open(c, m)
    ensures StrictOrder(c, Finish(c, m, group))
  {
    hide Config.IsFree, IssueStats, FeedBlocked, Open;
    var r := Finish(c, m, group);
    if c.policy.Strict? {
      forall i, j | 0 <= i < j < |c.ins| && r.issued[j] && !c.IsFree(j)
        ensures r.issued[i]
      {
        if j in group && !m.issued[i] {
          StrictTakesOlder(c, m, group, i, j);
        }
      }
    }
  }

  lemma FinishKeepsOrder(c: Config, m: Machine, group: seq<nat>)
    requires Shape(c, m) && Nested(c, m) && Barrier(c, m) && StrictOrder(c, m) && Chosen(c, m, group)
    requires InTrace(c.ins, group)
    ensures Barrier(c, Finish(c, m, group)) && StrictOrder(c, Finish(c, m, group))
  {
    hide Chosen, Config.IsFree, Assignable, Finish, Barrier, StrictOrder, Nested, Selected;
    GroupIsSelected(c, m, group);
    FinishKeepsBarrier(c, m, group);
    FinishKeepsStrict(c, m, group);
  }

  lemma StrictTakesOlder(c: Config, m: Machine, group: seq<nat>, i: nat, j: nat)
    requires Shape(c, m) && Nested(c, m) && group <= Open(c, m)
    requires i < j && j in group && i < |c.ins| && !m.issued[i]
    ensures i in group
  {
    hide Instruction.IsPersistentHard, Config.IsFree;
    var open := Open(c, m);
    assert m.retireHead <= i;
    assert j in open;
    assert i in open;
    var a :| 0 <= a < |open| && open[a] == i;
    var b :| 0 <= b < |group| && group[b] == j;
    assert open[b] == j && a < b;
    assert group[a] == i;
  }

  lemma FinishKeepsBasics(c: Config, m: Machine, group: seq<nat>)
    requires Shape(c, m) && Nested(c, m) && Timed(c, m) && InTrace(c.ins, group)
    requires forall i :: i in group ==> i < m.nextAdmit && !m.issued[i] && !c.IsFree(i)
    ensures Nested(c, Finish(c, m, group)) && Timed(c, Finish(c, m, group))
  {
    hide Config.IsFree, IssueStats, FeedBlocked;
  }

  lemma FinishKeeps(c: Config, m: Machine, group: seq<nat>)
    requires Inv(c, m) && Chosen(c, m, group)
    ensures InTrace(c.ins, group)
    ensures Inv(c, Finish(c, m, group))
  {
    GroupIsSelected(c, m, group);
    FinishKeepsMemBound(c, m, group);
    FinishKeepsMemOrder(c, m, group);
    FinishKeepsDeps(c, m, group);
    FinishKeepsOrder(c, m, group);
    hide Chosen, Config.IsFree, Assignable, Finish, Nested, Timed, MemOrder, DepOrder, Barrier, StrictOrder, MemBound,
      Ready, Instruction.IsPersistentHard;
    assert forall i :: i in group ==> Selected(c, m, i);
    FinishKeepsBasics(c, m, group);
  }
}
