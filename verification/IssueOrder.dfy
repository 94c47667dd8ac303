/** The order in which a whole run issues its instructions, and how the recorded issue cycles
    determine it. */
module IssueOrder {
  import opened IssuePipes
  import opened IssueMachine
  import opened IssueRun
  import opened IssueProgress

  /** What each cycle of the run issued, in turn. */
  ghost function OrderOf(c: Config, ms: seq<Machine>, groups: seq<seq<nat>>): seq<nat>
    requires Run(c, ms, groups)
    decreases |groups|
  {
    if |groups| == 0 then []
    else
      var n := |groups| - 1;
      assert Step(c, ms[n], groups[n], ms[n + 1]);
      OrderOf(c, ms[..n + 1], groups[..n]) + NewlyIssued(c, ms[n], groups[n])
  }

  /** i issued before j: in an earlier cycle; or in the same one, where free instructions come
      before those that take a slot, and otherwise the older one comes first. */
  ghost predicate Earlier(c: Config, m: Machine, i: nat, j: nat)
    requires Shape(c, m) && i < |c.ins| && j < |c.ins|
  {
    || m.issueCycle[i] < m.issueCycle[j]
    || (&& m.issueCycle[i] == m.issueCycle[j]
        && if c.IsFree(i) == c.IsFree(j) then i < j else c.IsFree(i))
  }

  ghost predicate ByCycle(c: Config, m: Machine, order: seq<nat>)
    requires Shape(c, m) && InTrace(c.ins, order)
  {
    forall a, b :: 0 <= a < b < |order| ==> Earlier(c, m, order[a], order[b])
  }

  ghost predicate IssuedBefore(c: Config, m: Machine)
    requires Shape(c, m)
  {
    forall i :: 0 <= i < |c.ins| && m.issued[i] ==> m.issueCycle[i] < m.cycle
  }

  // ---- The recorded cycles determine the order ----

  lemma LastIsLatest(c: Config, m: Machine, xs: seq<nat>, ys: seq<nat>)
    requires Shape(c, m) && InTrace(c.ins, xs) && InTrace(c.ins, ys) && ByCycle(c, m, xs) && ByCycle(c, m, ys)
    requires |xs| > 0 && |ys| > 0 && (forall i :: i in xs <==> i in ys)
    ensures xs[|xs| - 1] == ys[|ys| - 1]
  {
    hide Config.IsFree;
    var x, y := xs[|xs| - 1], ys[|ys| - 1];
    assert x in ys && y in xs;
    var a :| 0 <= a < |ys| && ys[a] == x;
    var b :| 0 <= b < |xs| && xs[b] == y;
  }

  lemma NotEmpty(xs: seq<nat>, ys: seq<nat>)
    requires |ys| > 0 && forall i :: i in ys <==> i in xs
    ensures |xs| > 0
  {
    assert ys[0] in xs;
  }

  lemma OnlyOnce(c: Config, m: Machine, xs: seq<nat>, n: nat)
    requires Shape(c, m) && InTrace(c.ins, xs) && ByCycle(c, m, xs) && |xs| == n + 1
    ensures forall i :: i in xs[..n] <==> i in xs && i != xs[n]
  {
    hide Config.IsFree;
    assert xs == xs[..n] + [xs[n]];
    assert forall k :: 0 <= k < n ==> Earlier(c, m, xs[k], xs[n]);
  }

  /** At most one order of a set of instructions agrees with their cycles. */
  lemma {:induction false} ByCycleUnique(c: Config, m: Machine, xs: seq<nat>, ys: seq<nat>)
    requires Shape(c, m) && InTrace(c.ins, xs) && InTrace(c.ins, ys) && ByCycle(c, m, xs) && ByCycle(c, m, ys)
    requires forall i :: i in xs <==> i in ys
    ensures xs == ys
    decreases |xs|
  {
    hide Earlier;
    if |xs| > 0 {
      NotEmpty(ys, xs);
      var p, q := |xs| - 1, |ys| - 1;
      LastIsLatest(c, m, xs, ys);
      OnlyOnce(c, m, xs, p);
      OnlyOnce(c, m, ys, q);
      ByCycleUnique(c, m, xs[..p], ys[..q]);
      assert xs == xs[..p] + [xs[p]] && ys == ys[..q] + [ys[q]];
    } else if |ys| > 0 {
      NotEmpty(xs, ys);
    }
  }

  // ---- Every run records its order ----

  lemma StepOrders(c: Config, m: Machine, group: seq<nat>, m': Machine, order: seq<nat>)
    requires Step(c, m, group, m') && Inv(c, m') && IssuedBefore(c, m)
    requires History(c, m, order) && ByCycle(c, m, order)
    requires InTrace(c.ins, order + NewlyIssued(c, m, group))
    ensures IssuedBefore(c, m') && ByCycle(c, m', order + NewlyIssued(c, m, group))
  {
    hide Config.IsFree, Nested, Timed, MemOrder, DepOrder, Barrier, StrictOrder, MemBound, Chosen, Settle, Finish, FreeIn,
      AllBefore, NewlyIssued;
    var added := NewlyIssued(c, m, group);
    SettleFacts(c, m);
    FinishFacts(c, m, group, m');
    StepStamps(c, m, group, m');
    NewOrder(c, m, group, m');
    var longer := order + added;
    forall a, b | 0 <= a < b < |longer|
      ensures Earlier(c, m', longer[a], longer[b])
    {
      if b < |order| {
        assert Earlier(c, m, order[a], order[b]);
        assert order[a] in order && order[b] in order;
      } else if a < |order| {
        assert order[a] in order && added[b - |order|] in added;
      } else {
        assert Earlier(c, m', added[a - |order|], added[b - |order|]);
      }
    }
  }

  /** Free instructions and a group that issue in one cycle are in order. */
  lemma TogetherOrdered(c: Config, m: Machine, free: seq<nat>, group: seq<nat>, cycle: int)
    requires Shape(c, m) && InTrace(c.ins, free) && InTrace(c.ins, group) && Ascending(free) && Ascending(group)
    requires forall k :: 0 <= k < |free| ==> m.issueCycle[free[k]] == cycle && c.IsFree(free[k])
    requires forall k :: 0 <= k < |group| ==> m.issueCycle[group[k]] == cycle && !c.IsFree(group[k])
    ensures InTrace(c.ins, free + group) && ByCycle(c, m, free + group)
  {
    hide Config.IsFree;
  }

  /** One cycle issues its free instructions and its group in this cycle, in order. */
  lemma NewOrder(c: Config, m: Machine, group: seq<nat>, m': Machine)
    requires Step(c, m, group, m') && Inv(c, m')
    ensures var added := NewlyIssued(c, m, group);
            && InTrace(c.ins, added) && ByCycle(c, m', added)
            && forall i :: i in added ==> i < |c.ins| && m'.issued[i] && !m.issued[i]
  {
    hide Config.IsFree, Nested, Timed, MemOrder, DepOrder, Barrier, StrictOrder, MemBound, Settle, Finish, Chosen, ByCycle;
    StepStamps(c, m, group, m');
    SettleFacts(c, m);
    FreeIssues(c, m, group, m');
    GroupAscends(c, m, group, m');
    var free := FreeIn(c, m.nextAdmit, Settle(c, m).nextAdmit);
    hide FreeIn;
    assert forall k :: 0 <= k < |free| ==> free[k] in free;
    assert forall k :: 0 <= k < |group| ==> group[k] in group;
    TogetherOrdered(c, m', free, group, m.cycle);
  }

  lemma {:induction false} FreeIssues(c: Config, m: Machine, group: seq<nat>, m': Machine)
    requires Step(c, m, group, m') && Inv(c, m')
    ensures m.nextAdmit <= Settle(c, m).nextAdmit
    ensures forall i :: i in FreeIn(c, m.nextAdmit, Settle(c, m).nextAdmit) ==>
                          i < |c.ins| && c.IsFree(i) && m'.issued[i] && !m.issued[i]
  {
    hide Config.IsFree, Timed, MemOrder, DepOrder, Barrier, StrictOrder, MemBound, Settle, Finish, Chosen;
    SettleFacts(c, m);
    FinishFacts(c, m, group, m');
  }

  lemma GroupAscends(c: Config, m: Machine, group: seq<nat>, m': Machine)
    requires Step(c, m, group, m')
    ensures Ascending(group)
  {
    hide Config.IsFree, Timed, MemOrder, DepOrder, Barrier, StrictOrder, MemBound, Settle, Finish, Chosen;
    GroupIsSelected(c, Settle(c, m), group);
  }

  lemma NothingOrdered(c: Config)
    requires c.Valid()
    ensures var m := Initial(c); History(c, m, []) && IssuedBefore(c, m) && ByCycle(c, m, [])
  {
    hide Inv, Earlier, AllBefore;
  }

  lemma {:induction false} RunOrders(c: Config, ms: seq<Machine>, groups: seq<seq<nat>>)
    requires c.Valid() && Begins(c, ms, groups)
    ensures var m, order := ms[|groups|], OrderOf(c, ms, groups);
            && Inv(c, m) && History(c, m, order) && IssuedBefore(c, m) && ByCycle(c, m, order)
    decreases |groups|
  {
    hide Inv, Chosen, Settle, NewlyIssued, ByCycle, AllBefore;
    if |groups| == 0 {
      NothingOrdered(c);
    } else {
      var n := |groups| - 1;
      assert Begins(c, ms[..n + 1], groups[..n]);
      RunOrders(c, ms[..n + 1], groups[..n]);
      assert Step(c, ms[n], groups[n], ms[n + 1]);
      var older := OrderOf(c, ms[..n + 1], groups[..n]);
      StepHistory(c, ms[n], groups[n], ms[n + 1], older);
      StepOrders(c, ms[n], groups[n], ms[n + 1], older);
    }
  }

  lemma {:induction false} OrderGrows(c: Config, ms: seq<Machine>, groups: seq<seq<nat>>, group: seq<nat>, m: Machine)
    requires Run(c, ms, groups) && Step(c, ms[|groups|], group, m)
    ensures Run(c, ms + [m], groups + [group])
    ensures OrderOf(c, ms + [m], groups + [group]) == OrderOf(c, ms, groups) + NewlyIssued(c, ms[|groups|], group)
  {
    hide Step, NewlyIssued;
    var longer, more := ms + [m], groups + [group];
    assert Run(c, longer, more) by {
      forall k | 0 <= k < |more|
        ensures Step(c, longer[k], more[k], longer[k + 1])
      {
      }
    }
    assert longer[..|groups| + 1] == ms && more[..|groups|] == groups;
  }
}
