/** One cycle, said of the trace and the recorded state alone: what retires, completes, is admitted and
    issues is all that the rules of the source allow, and nothing else. */
module IssueWork {
  import opened IssueTrace
  import opened IssuePipes
  import opened IssueMachine
  import opened IssueRun

  // ---- What may issue ----

  /** p is the youngest instruction before i that writes register r. */
  ghost predicate Youngest(ins: Trace, p: nat, i: nat, r: Register)
    requires p < i <= |ins|
  {
    r != 0 && ins[p].Writes(r) && forall k :: p < k < i ==> !ins[k].Writes(r)
  }

  ghost predicate Feeds(ins: Trace, p: nat, i: nat)
    requires p < i < |ins|
  {
    (ins[i].usesRs1 && Youngest(ins, p, i, ins[i].rs1)) || (ins[i].usesRs2 && Youngest(ins, p, i, ins[i].rs2))
  }

  /** Memory operations that have issued and are not complete. */
  ghost function InMemory(c: Config, s: Machine): set<nat>
    requires Shape(c, s)
  {
    set i: nat | i < |c.ins| && c.ins[i].IsMem() && s.issued[i] && !s.completed[i]
  }

  ghost predicate MayIssue(c: Config, s: Machine, i: nat)
    requires Shape(c, s)
  {
    && s.retireHead <= i < s.nextAdmit && !s.issued[i]
    && (forall p :: 0 <= p < i && Feeds(c.ins, p, i) ==> s.completed[p])
    && (c.ins[i].IsMem() ==> |InMemory(c, s)| < 3 && forall j :: 0 <= j < i && c.ins[j].IsMem() ==> s.issued[j])
    && (forall p :: s.retireHead <= p < i ==> !c.ins[p].IsPersistentHard())
    && (c.ins[i].IsPersistentHard() ==> i == s.retireHead)
  }

  /** At most three such instructions, oldest first, with a hard one in the last place only and a pipe of
      its own for each. */
  ghost predicate Fits(c: Config, s: Machine, g: seq<nat>)
    requires Shape(c, s)
  {
    && |g| <= 3 && InTrace(c.ins, g)
    && (forall a, b :: 0 <= a < b < |g| ==> g[a] < g[b])
    && (forall k :: 0 <= k < |g| ==> MayIssue(c, s, g[k]))
    && (forall k :: 0 <= k < |g| - 1 ==> !c.ins[g[k]].IsHard())
    && Assignable(c.ins, g)
  }

  /** No unissued instruction of the window is passed over. */
  ghost predicate Leads(c: Config, s: Machine, g: seq<nat>)
    requires Shape(c, s)
  {
    forall k, i: nat :: 0 <= k < |g| && s.retireHead <= i < s.nextAdmit && i < g[k] && !s.issued[i] ==> i in g
  }

  lemma DepsComplete(c: Config, s: Machine, i: nat)
    requires Shape(c, s) && i < |c.ins|
    ensures (forall p :: 0 <= p < i && Feeds(c.ins, p, i) ==> s.completed[p]) <==>
            (forall p :: p in c.links[i].deps ==> p < |c.ins| && s.completed[p])
  {
    forall p: nat
      ensures p in c.links[i].deps <==> p < i && Feeds(c.ins, p, i)
    {
      DepFeeds(c, i, p);
    }
    hide Feeds, Linked;
  }

  lemma DepFeeds(c: Config, i: nat, p: nat)
    requires c.Valid() && i < |c.ins|
    ensures p in c.links[i].deps <==> p < i && Feeds(c.ins, p, i)
  {
    assert LinkedAt(c.ins, c.links, i);
    WriterIs(c.ins, i, c.ins[i].rs1, p);
    WriterIs(c.ins, i, c.ins[i].rs2, p);
    hide LastWriter, Youngest, Instruction.Writes;
  }

  lemma {:induction false} WriterIs(ins: Trace, i: nat, r: Register, p: nat)
    requires i <= |ins|
    ensures r != 0 && LastWriter(ins, i, r).Some? && LastWriter(ins, i, r).value == p <==> p < i && Youngest(ins, p, i, r)
  {
    LastWriterIsYoungest(ins, i, r);
    hide LastWriter;
  }

  lemma OlderMemIssuedExactly(c: Config, s: Machine, i: nat)
    requires Inv(c, s) && i < |c.ins|
    ensures (c.ins[i].IsMem() ==> forall j :: 0 <= j < i && c.ins[j].IsMem() ==> s.issued[j]) <==>
            (var q := c.links[i].previousMem; q.Some? ==> q.value < |c.ins| && s.issued[q.value])
  {
    hide Instruction.IsMem, Nested, Timed, DepOrder, Barrier, StrictOrder, MemBound;
    assert LinkedAt(c.ins, c.links, i);
    LastMemIsYoungest(c.ins, i);
    hide LastMem;
    if c.links[i].previousMem.Some? && s.issued[c.links[i].previousMem.value] {
      assert FollowsOlderMem(c, s, c.links[i].previousMem.value);
    }
  }

  lemma ReadyExactly(c: Config, s: Machine, i: nat)
    requires Inv(c, s) && i < |c.ins|
    ensures Ready(c, s, i) <==>
            && (forall p :: 0 <= p < i && Feeds(c.ins, p, i) ==> s.completed[p])
            && (c.ins[i].IsMem() ==> |InMemory(c, s)| < 3 && forall j :: 0 <= j < i && c.ins[j].IsMem() ==> s.issued[j])
            && (c.ins[i].IsPersistentHard() ==> i == s.retireHead)
  {
    DepsComplete(c, s, i);
    OlderMemIssuedExactly(c, s, i);
    assert InMemory(c, s) == ActiveMem(c, s);
    hide Feeds, InMemory, ActiveMem, Instruction.IsMem, Instruction.IsPersistentHard, Linked, Nested, Timed, MemOrder, DepOrder,
      Barrier, StrictOrder, MemBound;
  }

  lemma OpenExactly(c: Config, s: Machine, i: nat)
    requires Shape(c, s)
    ensures i in Open(c, s) <==>
            && s.retireHead <= i < s.nextAdmit && !s.issued[i]
            && forall p :: s.retireHead <= p < i ==> !c.ins[p].IsPersistentHard()
  {
    hide Instruction.IsPersistentHard, Unissued, Linked;
    var hi := OpenEnd(c, s, s.retireHead);
    assert i >= hi && hi < s.nextAdmit ==> c.ins[hi - 1].IsPersistentHard();
  }

  lemma {:induction false} MayIssueExactly(c: Config, s: Machine, i: nat)
    requires Inv(c, s)
    ensures MayIssue(c, s, i) <==> i in ReadyIn(c, s, Open(c, s))
  {
    hide Feeds, InMemory, Instruction.IsMem, Instruction.IsPersistentHard, Linked, Nested, Timed, MemOrder, DepOrder, Barrier,
      StrictOrder, MemBound, Ready, Open;
    OpenExactly(c, s, i);
    if i < |c.ins| {
      ReadyExactly(c, s, i);
    }
  }

  lemma {:induction false} FitsExactly(c: Config, s: Machine, g: seq<nat>)
    requires Inv(c, s)
    ensures Fits(c, s, g) <==> LegalGroup(c.ins, ReadyIn(c, s, Open(c, s)), g)
  {
    hide MayIssue, ReadyIn, Open, Assignable, Nested, Timed, MemOrder, DepOrder, Barrier, StrictOrder, MemBound,
      Instruction.IsHard, Linked;
    forall k | 0 <= k < |g|
      ensures MayIssue(c, s, g[k]) <==> g[k] in ReadyIn(c, s, Open(c, s))
    {
      MayIssueExactly(c, s, g[k]);
    }
  }

  lemma NextAgrees(front: seq<nat>, last: nat, xs: seq<nat>)
    requires Ascending(front + [last]) && Ascending(xs) && front <= xs && last in xs
    requires forall i :: i in xs && i < last ==> i in front
    ensures front + [last] <= xs
  {
    var n := |front|;
    var g := front + [last];
    assert forall k :: 0 <= k < n ==> g[k] == front[k] == xs[k] && g[k] < g[n];
    var j :| 0 <= j < |xs| && xs[j] == last;
    assert j >= n;
    assert xs[n] <= last && xs[n] in xs;
    assert forall k :: 0 <= k < n ==> front[k] < xs[n];
    assert xs[n] !in front;
  }

  lemma {:induction false} AscendingPrefix(g: seq<nat>, xs: seq<nat>)
    requires Ascending(g) && Ascending(xs) && forall i :: i in g ==> i in xs
    requires forall k, i :: 0 <= k < |g| && i in xs && i < g[k] ==> i in g
    ensures g <= xs
  {
    if g != [] {
      var n := |g| - 1;
      var front, last := g[..n], g[n];
      assert g == front + [last];
      forall i | i in xs && i < last
        ensures i in front
      {
        assert i < g[n] && i in g;
      }
      forall k, i | 0 <= k < n && i in xs && i < front[k]
        ensures i in front
      {
        assert front[k] == g[k] < g[n];
      }
      AscendingPrefix(front, xs);
      NextAgrees(front, last, xs);
    }
  }

  lemma PrefixLeads(c: Config, s: Machine, g: seq<nat>)
    requires Shape(c, s) && g <= Open(c, s)
    ensures Leads(c, s, g)
  {
    var open := Open(c, s);
    forall k, i: nat | 0 <= k < |g| && s.retireHead <= i < s.nextAdmit && i < g[k] && !s.issued[i]
      ensures i in g
    {
      assert g[k] == open[k] && open[k] in open;
      OpenExactly(c, s, open[k]);
      OpenExactly(c, s, i);
      hide Open, Instruction.IsPersistentHard, Linked;
      assert i in open;
      var j :| 0 <= j < |open| && open[j] == i;
      assert j < k;
      assert g[j] == i;
    }
  }

  lemma LeadsPrefix(c: Config, s: Machine, g: seq<nat>)
    requires Inv(c, s) && Fits(c, s, g) && Leads(c, s, g)
    ensures g <= Open(c, s)
  {
    FitsExactly(c, s, g);
    hide ReadyIn, Assignable, Nested, Timed, MemOrder, DepOrder, Barrier, StrictOrder, MemBound, MayIssue, Linked, Open,
      Instruction.IsHard, Instruction.IsPersistentHard;
    assert forall i :: i in g ==> i in Open(c, s);
    forall k, i | 0 <= k < |g| && i in Open(c, s) && i < g[k]
      ensures i in g
    {
      OpenExactly(c, s, i);
    }
    AscendingPrefix(g, Open(c, s));
  }

  /** What issues is the most that fits: under the window policy the widest group, and of the widest the
      one that comes first in program order; under the strict policy the longest of those that pass over
      nothing. */
  ghost predicate IssuesMost(c: Config, s: Machine, group: seq<nat>)
    requires Shape(c, s)
  {
    && Fits(c, s, group)
    && match c.policy
       case Window =>
         forall g :: Fits(c, s, g) ==> |g| < |group| || (|g| == |group| && !LexBefore(g, group))
       case Strict =>
         Leads(c, s, group) && forall g :: Fits(c, s, g) && Leads(c, s, g) ==> |g| <= |group|
  }

  lemma {:induction false} ChosenIssuesMost(c: Config, s: Machine, group: seq<nat>)
    requires Inv(c, s) && Chosen(c, s, group)
    ensures IssuesMost(c, s, group)
  {
    hide ReadyIn, Assignable, Nested, Timed, MemOrder, DepOrder, Barrier, StrictOrder, MemBound, MayIssue, Linked, Open,
      Instruction.IsHard, Instruction.IsPersistentHard, LegalGroup, Fits, Leads;
    var ready := ReadyIn(c, s, Open(c, s));
    FitsExactly(c, s, group);
    if c.policy.Window? {
      forall g | Fits(c, s, g)
        ensures |g| < |group| || (|g| == |group| && !LexBefore(g, group))
      {
        FitsExactly(c, s, g);
      }
    } else {
      PrefixLeads(c, s, group);
      forall g | Fits(c, s, g) && Leads(c, s, g)
        ensures |g| <= |group|
      {
        FitsExactly(c, s, g);
        LeadsPrefix(c, s, g);
        assert Open(c, s)[..|g|] == g;
      }
    }
  }

  // ---- What retires, is admitted and completes ----

  /** The next k instructions may retire in one cycle. */
  ghost predicate RetireFits(c: Config, m: Machine, k: nat, limit: nat)
    requires Shape(c, m)
  {
    && k <= limit && m.retireHead + k <= |c.ins|
    && (forall i :: m.retireHead <= i < m.retireHead + k ==> m.completed[i])
    && forall i :: m.retireHead <= i < m.retireHead + k - 1 ==> !c.ins[i].IsHard() || c.IsFree(i)
  }

  /** The next a instructions may enter the window in one cycle. */
  ghost predicate AdmitFits(c: Config, m: Machine, head: nat, a: nat, limit: nat)
    requires Shape(c, m)
  {
    && a <= limit && m.nextAdmit + a <= |c.ins| && (a > 0 ==> m.nextAdmit + a - head <= c.capacity)
    && forall i :: m.nextAdmit <= i < m.nextAdmit + a ==> c.releases[i] <= m.feedClock
  }

  lemma {:induction false} RetiresMost(c: Config, m: Machine, limit: nat)
    requires Inv(c, m)
    ensures var r := Retire(c, m, limit);
            && m.retireHead <= r.retireHead && RetireFits(c, m, r.retireHead - m.retireHead, limit)
            && forall k: nat :: RetireFits(c, m, k, limit) ==> m.retireHead + k <= r.retireHead
    decreases limit
  {
    hide Timed, MemOrder, DepOrder, Barrier, StrictOrder, MemBound, Instruction.IsHard, Config.IsFree, Linked;
    var h := m.retireHead;
    if h < |c.ins| && limit > 0 && m.completed[h] {
      var next := m.(retireHead := h + 1);
      RetireOneKeeps(c, m);
      if !c.ins[h].IsHard() || c.IsFree(h) {
        RetiresMost(c, next, limit - 1);
        forall k: nat | k > 0 && RetireFits(c, m, k, limit)
          ensures RetireFits(c, next, k - 1, limit - 1)
        {
        }
      }
    }
  }

  lemma {:induction false} AdmitsMost(c: Config, m: Machine, limit: nat)
    requires Shape(c, m)
    ensures var r := Admit(c, m, limit);
            && m.nextAdmit <= r.nextAdmit && AdmitFits(c, m, m.retireHead, r.nextAdmit - m.nextAdmit, limit)
            && forall a: nat :: AdmitFits(c, m, m.retireHead, a, limit) ==> m.nextAdmit + a <= r.nextAdmit
    decreases limit
  {
    hide Config.IsFree, Instruction.IsBranch, Linked;
    var i := m.nextAdmit;
    if i < |c.ins| && limit > 0 && i - m.retireHead < c.capacity && c.releases[i] <= m.feedClock {
      var next := AdmitOne(c, m);
      AdmitsMost(c, next, limit - 1);
      forall a: nat | a > 0 && AdmitFits(c, m, m.retireHead, a, limit)
        ensures AdmitFits(c, next, m.retireHead, a - 1, limit - 1)
      {
      }
    }
  }

  /** Its latency has passed. */
  ghost predicate Landed(c: Config, m: Machine, i: nat)
    requires Shape(c, m) && i < |c.ins|
  {
    m.issued[i] && !m.completed[i] && !c.ins[i].IsStore() && m.issueCycle[i] + c.ins[i].Latency() <= m.cycle
  }

  /** A store that finds itself at the head. */
  ghost predicate Posted(c: Config, m: Machine, s: Machine, i: nat)
    requires Shape(c, m) && Shape(c, s) && i < |c.ins|
  {
    m.issued[i] && !m.completed[i] && c.ins[i].IsStore() && i == s.retireHead
  }

  ghost predicate NewlyFree(c: Config, m: Machine, s: Machine, i: nat)
    requires Shape(c, m) && Shape(c, s) && i < |c.ins|
  {
    m.nextAdmit <= i < s.nextAdmit && c.IsFree(i)
  }

  /** What one instruction has become in the state in which the group is chosen. */
  ghost predicate SettledAt(c: Config, m: Machine, s: Machine, i: nat)
    requires Shape(c, m) && Shape(c, s) && i < |c.ins|
  {
    && (s.issued[i] <==> m.issued[i] || NewlyFree(c, m, s, i))
    && (s.completed[i] <==> m.completed[i] || Landed(c, m, i) || Posted(c, m, s, i) || NewlyFree(c, m, s, i))
    && s.issueCycle[i] == (if NewlyFree(c, m, s, i) then m.cycle else m.issueCycle[i])
    && s.completeCycle[i] ==
       (if Landed(c, m, i) then m.issueCycle[i] + c.ins[i].Latency()
        else if Posted(c, m, s, i) || NewlyFree(c, m, s, i) then m.cycle
        else m.completeCycle[i])
  }

  ghost predicate Settled(c: Config, m: Machine, s: Machine)
    requires Shape(c, m) && Shape(c, s)
  {
    && m.retireHead <= s.retireHead && RetireFits(c, m, s.retireHead - m.retireHead, 3)
    && (forall k: nat :: RetireFits(c, m, k, 3) ==> m.retireHead + k <= s.retireHead)
    && m.nextAdmit <= s.nextAdmit && AdmitFits(c, m, s.retireHead, s.nextAdmit - m.nextAdmit, 3)
    && (forall a: nat :: AdmitFits(c, m, s.retireHead, a, 3) ==> m.nextAdmit + a <= s.nextAdmit)
    && (forall i :: 0 <= i < |c.ins| ==> SettledAt(c, m, s, i))
    && s.cycle == m.cycle && s.feedClock == m.feedClock
  }

  /** What admission does to one instruction. */
  lemma {:induction false} AdmittedAt(c: Config, m: Machine, limit: nat, i: nat)
    requires Shape(c, m) && Nested(c, m) && i < |c.ins|
    ensures var r := Admit(c, m, limit);
            && r.retireHead == m.retireHead && r.cycle == m.cycle && r.feedClock == m.feedClock && m.nextAdmit <= r.nextAdmit
            && var added := m.nextAdmit <= i < r.nextAdmit && c.IsFree(i);
               && (r.issued[i] <==> m.issued[i] || added) && (r.completed[i] <==> m.completed[i] || added)
               && r.issueCycle[i] == (if added then m.cycle else m.issueCycle[i])
               && r.completeCycle[i] == (if added then m.cycle else m.completeCycle[i])
    decreases limit
  {
    hide Config.IsFree, Instruction.IsBranch, Linked;
    if && m.nextAdmit < |c.ins| && limit > 0 && m.nextAdmit - m.retireHead < c.capacity
       && c.releases[m.nextAdmit] <= m.feedClock {
      assert Nested(c, AdmitOne(c, m));
      AdmittedAt(c, AdmitOne(c, m), limit - 1, i);
    }
  }

  lemma StoredAt(c: Config, m: Machine, i: nat)
    requires Inv(c, m) && i < |c.ins|
    ensures var r := HeadStore(c, Drain(c, m));
            && r.issued == m.issued && r.issueCycle == m.issueCycle && r.retireHead == m.retireHead
            && r.nextAdmit == m.nextAdmit && r.cycle == m.cycle && r.feedClock == m.feedClock
            && (r.completed[i] <==> m.completed[i] || Landed(c, m, i) || Posted(c, m, r, i))
            && r.completeCycle[i] ==
               (if Landed(c, m, i) then m.issueCycle[i] + c.ins[i].Latency()
                else if Posted(c, m, r, i) then m.cycle else m.completeCycle[i])
  {
    hide Instruction.IsStore, Instruction.Latency, Config.IsFree, Nested, Timed, MemOrder, DepOrder, Barrier, StrictOrder,
      MemBound, Linked;
  }

  lemma SettlesAt(c: Config, m: Machine, i: nat)
    requires Inv(c, m) && i < |c.ins|
    ensures SettledAt(c, m, Settle(c, m), i)
  {
    hide Retire, Drain, HeadStore, Admit, Timed, MemOrder, DepOrder, Barrier, StrictOrder, MemBound, Config.IsFree,
      Instruction.IsStore, Instruction.Latency, Linked;
    RetireKeeps(c, m, 3);
    var retired := Retire(c, m, 3);
    StoredAt(c, retired, i);
    DrainKeeps(c, retired);
    HeadStoreKeeps(c, Drain(c, retired));
    var stored := HeadStore(c, Drain(c, retired));
    AdmittedAt(c, stored, 3, i);
  }

  lemma SettlesHead(c: Config, m: Machine)
    requires Inv(c, m)
    ensures var s := Settle(c, m);
            && m.retireHead <= s.retireHead && RetireFits(c, m, s.retireHead - m.retireHead, 3)
            && forall k: nat :: RetireFits(c, m, k, 3) ==> m.retireHead + k <= s.retireHead
  {
    hide Retire, Drain, HeadStore, Admit, Nested, Timed, MemOrder, DepOrder, Barrier, StrictOrder, MemBound, Linked, RetireFits;
    RetireKeeps(c, m, 3);
    RetiresMost(c, m, 3);
    var retired := Retire(c, m, 3);
    DrainKeeps(c, retired);
    HeadStoreKeeps(c, Drain(c, retired));
    AdmitKeeps(c, HeadStore(c, Drain(c, retired)), 3);
  }

  lemma SettlesAdmission(c: Config, m: Machine)
    requires Inv(c, m)
    ensures var s := Settle(c, m);
            && m.nextAdmit <= s.nextAdmit && AdmitFits(c, m, s.retireHead, s.nextAdmit - m.nextAdmit, 3)
            && forall a: nat :: AdmitFits(c, m, s.retireHead, a, 3) ==> m.nextAdmit + a <= s.nextAdmit
  {
    hide Retire, Drain, HeadStore, Admit, Nested, Timed, MemOrder, DepOrder, Barrier, StrictOrder, MemBound, Linked, AdmitFits;
    RetireKeeps(c, m, 3);
    var retired := Retire(c, m, 3);
    DrainKeeps(c, retired);
    HeadStoreKeeps(c, Drain(c, retired));
    var stored := HeadStore(c, Drain(c, retired));
    AdmitKeeps(c, stored, 3);
    AdmitsMost(c, stored, 3);
    forall a: nat
      ensures AdmitFits(c, stored, stored.retireHead, a, 3) <==> AdmitFits(c, m, stored.retireHead, a, 3)
    {
      AdmitFitsAlike(c, stored, m, stored.retireHead, a);
    }
  }

  lemma AdmitFitsAlike(c: Config, m: Machine, n: Machine, head: nat, a: nat)
    requires Shape(c, m) && Shape(c, n) && m.nextAdmit == n.nextAdmit && m.feedClock == n.feedClock
    ensures AdmitFits(c, m, head, a, 3) <==> AdmitFits(c, n, head, a, 3)
  {
  }

  lemma Settles(c: Config, m: Machine)
    requires Inv(c, m)
    ensures Settled(c, m, Settle(c, m))
  {
    hide Settle, Nested, Timed, MemOrder, DepOrder, Barrier, StrictOrder, MemBound, Linked, SettledAt, RetireFits, AdmitFits;
    SettlesHead(c, m);
    SettlesAdmission(c, m);
    SettleFacts(c, m);
    forall i | 0 <= i < |c.ins|
      ensures SettledAt(c, m, Settle(c, m), i)
    {
      SettlesAt(c, m, i);
    }
  }

  // ---- The whole cycle ----

  /** The group issues in this cycle, and the clocks go on; a pausable feed stands still while a released
      instruction finds the window full. */
  ghost predicate Issues(c: Config, s: Machine, group: seq<nat>, m': Machine)
    requires Shape(c, s) && Shape(c, m')
  {
    && m'.retireHead == s.retireHead && m'.nextAdmit == s.nextAdmit
    && m'.completed == s.completed && m'.completeCycle == s.completeCycle
    && (forall i :: 0 <= i < |c.ins| ==>
          && (m'.issued[i] <==> s.issued[i] || i in group)
          && m'.issueCycle[i] == if i in group then s.cycle else s.issueCycle[i])
    && m'.cycle == s.cycle + 1
    && m'.feedClock == (if c.pausableFeed && Full(c, s) then s.feedClock else s.feedClock + 1)
  }

  /** A released instruction finds no room. */
  ghost predicate Full(c: Config, s: Machine)
    requires Shape(c, s)
  {
    s.nextAdmit < |c.ins| && c.releases[s.nextAdmit] <= s.feedClock && s.nextAdmit - s.retireHead >= c.capacity
  }

  /** Every iteration retires, completes and admits all that it can, issues the most that fits, and does
      nothing else. */
  lemma {:induction false} CycleExactly(c: Config, m: Machine, group: seq<nat>, m': Machine)
    requires Step(c, m, group, m')
    ensures var s := Settle(c, m);
            Settled(c, m, s) && IssuesMost(c, s, group) && Shape(c, m') && Issues(c, s, group, m')
  {
    hide Settle, Settled, IssuesMost, Chosen, Nested, Timed, MemOrder, DepOrder, Barrier, StrictOrder, MemBound, IssueStats,
      Linked;
    Settles(c, m);
    ChosenIssuesMost(c, Settle(c, m), group);
  }
}
