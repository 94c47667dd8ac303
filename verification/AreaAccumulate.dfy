/** accumulate in synth/core/parallel_map.py: the memoised recursion over the retained hierarchy. */
module AreaAccumulate {
  import opened AreaGraph
  import opened Options

  /** A module's own mapped cells; a stat report without the fields counts as zero. */
  datatype Stats = Stats(area: real, sequential: real)

  datatype AreaError = MissingModules(missing: set<string>) | Cycle(at: string)

  type Report = map<string, Stats>

  function AreaOf(direct: Report): string -> real { m => if m in direct then direct[m].area else 0.0 }

  function SequentialOf(direct: Report): string -> real { m => if m in direct then direct[m].sequential else 0.0 }

  predicate ChildrenKnown(h: Hierarchy, direct: Report) {
    forall m, c :: m in direct && c in Children(h, m) ==> c in direct
  }

  ghost predicate HasCycle(h: Hierarchy, direct: Report) { exists p :: IsCycle(h, p) && p[0] in direct }

  // ---- Lists without repetition ----

  ghost function Names(list: seq<string>): set<string> { set x | x in list }

  lemma {:induction false} DistinctNames(list: seq<string>)
    requires Distinct(list)
    ensures |Names(list)| == |list|
  {
    if list != [] {
      var front, x := list[..|list| - 1], list[|list| - 1];
      DistinctNames(front);
      assert list == front + [x];
      assert Names(list) == Names(front) + {x};
    }
  }

  lemma DistinctFits(list: seq<string>, all: set<string>)
    requires Distinct(list) && forall x :: x in list ==> x in all
    ensures |list| <= |all|
  {
    DistinctNames(list);
    assert all == Names(list) + (all - Names(list));
  }

  // ---- The recursion ----

  type Areas = map<string, real>

  /** The sums over all the instances below m: what a report that lists m with everything below it
      shows. */
  function Total(h: Hierarchy, direct: Report, m: string): (real, real) {
    (PathSum(h, AreaOf(direct), m, |direct|), PathSum(h, SequentialOf(direct), m, |direct|))
  }

  /** What is memoised when the modules in `order` have been completed, in that order. */
  ghost predicate Memo(h: Hierarchy, direct: Report, areas: Areas, sequentials: Areas, order: seq<string>) {
    && ChildrenKnown(h, direct) && Distinct(order) && Ordered(h, order)
    && areas.Keys == sequentials.Keys == Names(order) && Names(order) <= direct.Keys
    && forall m :: m in areas && m in sequentials ==> (areas[m], sequentials[m]) == Total(h, direct, m)
  }

  /** The modules being expanded form a path. */
  ghost predicate Active(h: Hierarchy, direct: Report, visiting: set<string>, stack: seq<string>, order: seq<string>) {
    && IsPath(h, stack) && Distinct(stack) && visiting == Names(stack)
    && visiting <= direct.Keys && visiting !! Names(order)
  }

  lemma OrderGrows(h: Hierarchy, order: seq<string>, m: string)
    requires Ordered(h, order) && Distinct(order) && m !in order
    requires forall c :: c in Children(h, m) ==> c in order
    ensures Ordered(h, order + [m]) && Distinct(order + [m]) && Names(order + [m]) == Names(order) + {m}
  {
    hide Children;
    var longer := order + [m];
    forall i, c | 0 <= i < |longer| && c in Children(h, longer[i])
      ensures c in longer[..i]
    {
      if i < |order| {
        ChildBefore(h, order, i, c);
        assert longer[..i] == order[..i];
      } else {
        assert longer[..i] == order;
      }
    }
  }

  lemma {:induction false} TotalUnfolds(h: Hierarchy, direct: Report, order: seq<string>, m: string)
    requires Ordered(h, order) && Distinct(order) && Names(order) <= direct.Keys && m in order
    ensures Total(h, direct, m) ==
              (AreaOf(direct)(m) + ListSum(h, AreaOf(direct), Children(h, m), |direct|),
               SequentialOf(direct)(m) + ListSum(h, SequentialOf(direct), Children(h, m), |direct|))
  {
    hide PathSum, ListSum, Ordered, AreaOf, SequentialOf, Children, Distinct;
    DistinctFits(order, direct.Keys);
    PathSumUnfolds(h, AreaOf(direct), order, m, |direct|);
    PathSumUnfolds(h, SequentialOf(direct), order, m, |direct|);
  }

  lemma {:induction false} MemoGrows(h: Hierarchy, direct: Report, areas: Areas, sequentials: Areas, order: seq<string>, m: string,
                  sums: (real, real))
    requires Memo(h, direct, areas, sequentials, order) && m in direct && m !in order
    requires forall c :: c in Children(h, m) ==> c in order
    requires sums == (AreaOf(direct)(m) + ListSum(h, AreaOf(direct), Children(h, m), |direct|),
                      SequentialOf(direct)(m) + ListSum(h, SequentialOf(direct), Children(h, m), |direct|))
    ensures sums == Total(h, direct, m)
    ensures Memo(h, direct, areas[m := sums.0], sequentials[m := sums.1], order + [m])
  {
    OrderGrows(h, order, m);
    TotalUnfolds(h, direct, order + [m], m);
    hide ListSum, Total, Ordered, Distinct, ChildrenKnown, Children, AreaOf, SequentialOf;
  }

  lemma StackGrows(h: Hierarchy, direct: Report, visiting: set<string>, stack: seq<string>, order: seq<string>, m: string)
    requires Active(h, direct, visiting, stack, order) && m in direct && m !in order && m !in visiting
    requires stack != [] ==> m in Children(h, stack[|stack| - 1])
    ensures Active(h, direct, visiting + {m}, stack + [m], order)
  {
  }

  lemma PushPop(visiting: set<string>, stack: seq<string>, m: string)
    requires m !in visiting
    ensures visiting + {m} - {m} == visiting && (stack + [m])[..|stack|] == stack
  {
  }

  lemma StackShrinks(h: Hierarchy, direct: Report, visiting: set<string>, stack: seq<string>, order: seq<string>, m: string)
    requires Active(h, direct, visiting, stack, order) && stack != [] && m == stack[|stack| - 1]
    ensures Active(h, direct, visiting - {m}, stack[..|stack| - 1], order + [m]) && m !in order && m in direct
  {
    var front := stack[..|stack| - 1];
    assert stack == front + [m];
    assert Names(stack) == Names(front) + {m};
    assert Names(order + [m]) == Names(order) + {m};
  }

  lemma CycleFound(h: Hierarchy, direct: Report, visiting: set<string>, stack: seq<string>, order: seq<string>, m: string)
    requires Active(h, direct, visiting, stack, order) && m in visiting
    requires stack != [] ==> m in Children(h, stack[|stack| - 1])
    ensures HasCycle(h, direct)
  {
    var i := PlaceOf(stack, m);
    var p := stack[i..] + [m];
    assert IsCycle(h, p);
  }

  lemma MemoHas(h: Hierarchy, direct: Report, areas: Areas, sequentials: Areas, order: seq<string>, m: string)
    requires Memo(h, direct, areas, sequentials, order)
    ensures m in areas <==> m in order
    ensures m in areas <==> m in sequentials
    ensures m in areas ==> (areas[m], sequentials[m]) == Total(h, direct, m)
  {
  }

  lemma OwnStats(direct: Report, m: string)
    requires m in direct
    ensures AreaOf(direct)(m) == direct[m].area && SequentialOf(direct)(m) == direct[m].sequential
  {
  }

  lemma ChildKnown(h: Hierarchy, direct: Report, areas: Areas, sequentials: Areas, order: seq<string>,
                   visiting: set<string>, stack: seq<string>, c: string)
    requires Memo(h, direct, areas, sequentials, order) && Active(h, direct, visiting, stack, order)
    requires stack != [] && c in Children(h, stack[|stack| - 1])
    ensures c in direct
  {
  }

  lemma {:induction false} ListNext(h: Hierarchy, f: string -> real, list: seq<string>, k: nat, n: nat)
    requires k < |list|
    ensures list[..k + 1] == list[..k] + [list[k]]
    ensures ListSum(h, f, list[..k + 1], n) == ListSum(h, f, list[..k], n) + PathSum(h, f, list[k], n)
  {
    assert list[..k + 1][..k] == list[..k];
  }

  lemma {:induction false} ListNone(h: Hierarchy, f: string -> real, n: nat)
    ensures ListSum(h, f, [], n) == 0.0
  {
  }

  /** order is history: the modules in the order in which their areas were completed. stack is
      history: the modules being expanded, outermost first. */
  class Accumulator {
    const direct: Report
    const hierarchy: Hierarchy
    var recursiveArea: Areas
    var recursiveSequential: Areas
    var visiting: set<string>
    ghost var order: seq<string>
    ghost var stack: seq<string>

    constructor (direct: Report, hierarchy: Hierarchy)
      requires ChildrenKnown(hierarchy, direct)
      ensures this.direct == direct && this.hierarchy == hierarchy && Valid() && stack == [] && order == []
    {
      this.direct, this.hierarchy := direct, hierarchy;
      recursiveArea, recursiveSequential, visiting, order, stack := map[], map[], {}, [], [];
    }

    ghost predicate Valid()
      reads this
    {
      && Memo(hierarchy, direct, recursiveArea, recursiveSequential, order)
      && Active(hierarchy, direct, visiting, stack, order)
    }

    /** Success memoises the sums over all instances below the module; failure shows a cycle. */
    method Accumulate(name: string) returns (r: Result<(real, real), AreaError>)
      requires Valid() && name in direct
      requires stack != [] ==> name in Children(hierarchy, stack[|stack| - 1])
      modifies this
      ensures r.Failure? ==> r.error.Cycle? && HasCycle(hierarchy, direct)
      ensures r.Success? ==>
                && Valid() && stack == old(stack) && visiting == old(visiting) && old(order) <= order
                && name in order && r.value == Total(hierarchy, direct, name)
      decreases direct.Keys - visiting, 0
    {
      hide PathSum, ListSum, Memo, Active, HasCycle, Total, Children, AreaOf, SequentialOf;
      MemoHas(hierarchy, direct, recursiveArea, recursiveSequential, order, name);
      assert AreaOf(direct)(name) == direct[name].area && SequentialOf(direct)(name) == direct[name].sequential by {
        OwnStats(direct, name);
      }
      if name in recursiveArea {
        return Success((recursiveArea[name], recursiveSequential[name]));
      }
      if name in visiting {
        CycleFound(hierarchy, direct, visiting, stack, order, name);
        return Failure(Cycle(name));
      }
      StackGrows(hierarchy, direct, visiting, stack, order, name);
      PushPop(visiting, stack, name);
      visiting := visiting + {name};
      stack := stack + [name];
      var area, sequential := direct[name].area, direct[name].sequential;
      var sums := AddChildren(name, area, sequential);
      if sums.Failure? {
        return sums;
      }
      StackShrinks(hierarchy, direct, visiting, stack, order, name);
      MemoGrows(hierarchy, direct, recursiveArea, recursiveSequential, order, name, sums.value);
      visiting := visiting - {name};
      recursiveArea, recursiveSequential := recursiveArea[name := sums.value.0], recursiveSequential[name := sums.value.1];
      stack, order := stack[..|stack| - 1], order + [name];
      r := sums;
    }

    /** The loop over the children. */
    method AddChildren(name: string, area: real, sequential: real) returns (r: Result<(real, real), AreaError>)
      requires Valid() && stack != [] && stack[|stack| - 1] == name
      modifies this
      ensures r.Failure? ==> r.error.Cycle? && HasCycle(hierarchy, direct)
      ensures r.Success? ==>
                && Valid() && stack == old(stack) && visiting == old(visiting) && old(order) <= order
                && (forall c :: c in Children(hierarchy, name) ==> c in order)
                && r.value == (area + ListSum(hierarchy, AreaOf(direct), Children(hierarchy, name), |direct|),
                               sequential + ListSum(hierarchy, SequentialOf(direct), Children(hierarchy, name), |direct|))
      decreases direct.Keys - visiting, 1
    {
      hide PathSum, ListSum, Memo, Active, HasCycle, Children, AreaOf, SequentialOf;
      ListNone(hierarchy, AreaOf(direct), |direct|);
      ListNone(hierarchy, SequentialOf(direct), |direct|);
      var children := Children(hierarchy, name);
      var sums := (area, sequential);
      var k := 0;
      while k < |children|
        invariant k <= |children| && Valid() && stack == old(stack) && visiting == old(visiting) && old(order) <= order
        invariant forall c :: c in children[..k] ==> c in order
        invariant sums == (area + ListSum(hierarchy, AreaOf(direct), children[..k], |direct|),
                           sequential + ListSum(hierarchy, SequentialOf(direct), children[..k], |direct|))
      {
        ChildKnown(hierarchy, direct, recursiveArea, recursiveSequential, order, visiting, stack, children[k]);
        ghost var before := order;
        var child := Accumulate(children[k]);
        if child.Failure? {
          return child;
        }
        assert forall c :: c in before ==> c in order[..|before|];
        ListNext(hierarchy, AreaOf(direct), children, k, |direct|);
        ListNext(hierarchy, SequentialOf(direct), children, k, |direct|);
        sums := (sums.0 + child.value.0, sums.1 + child.value.1);
        k := k + 1;
      }
      assert children[..k] == children;
      r := Success(sums);
    }
  }

  // ---- The whole merge ----

  function Missing(h: Hierarchy, direct: Report): set<string> {
    set m, c | m in h && c in h[m] && c !in direct :: c
  }

  /** Either a child has no report, or the hierarchy has a cycle, or every module's report gets the
      sums over all the instances below it; nothing else happens. */
  method Merge(modules: seq<string>, direct: Report, hierarchy: Hierarchy)
    returns (r: Result<Report, AreaError>, ghost order: seq<string>)
    requires direct.Keys == Names(modules)
    ensures Missing(hierarchy, direct) != {} ==> r == Failure(MissingModules(Missing(hierarchy, direct)))
    ensures Missing(hierarchy, direct) == {} ==> (r.Failure? <==> HasCycle(hierarchy, direct)) && (r.Failure? ==> r.error.Cycle?)
    ensures r.Success? ==>
              && r.value.Keys == direct.Keys
              && (forall m :: m in direct ==> (r.value[m].area, r.value[m].sequential) == Total(hierarchy, direct, m))
              && Ordered(hierarchy, order) && Distinct(order) && Names(order) == direct.Keys
  {
    hide PathSum, Total;
    order := [];
    if Missing(hierarchy, direct) != {} {
      return Failure(MissingModules(Missing(hierarchy, direct))), [];
    }
    NoneMissing(hierarchy, direct);
    var sums := new Accumulator(direct, hierarchy);
    hide HasCycle, Missing, Memo, Active;
    var merged: Report := map[];
    for i := 0 to |modules|
      invariant sums.Valid() && sums.stack == [] && fresh(sums)
      invariant forall m :: m in modules[..i] ==> m in sums.order
      invariant merged.Keys == Names(modules[..i])
      invariant forall m :: m in merged ==> (merged[m].area, merged[m].sequential) == Total(hierarchy, direct, m)
    {
      ghost var before := sums.order;
      var sum := sums.Accumulate(modules[i]);
      if sum.Failure? {
        return Failure(sum.error), [];
      }
      assert forall m :: m in before ==> m in sums.order[..|before|];
      assert modules[..i + 1] == modules[..i] + [modules[i]];
      merged := merged[modules[i] := Stats(sum.value.0, sum.value.1)];
    }
    assert modules[..|modules|] == modules;
    CompleteAcyclic(sums);
    order := sums.order;
    MemoOrdered(hierarchy, direct, sums.recursiveArea, sums.recursiveSequential, order);
    r := Success(merged);
  }

  lemma MissingHas(h: Hierarchy, direct: Report, m: string, c: string)
    requires c in Children(h, m) && c !in direct
    ensures c in Missing(h, direct)
  {
  }

  lemma NoneMissing(h: Hierarchy, direct: Report)
    requires Missing(h, direct) == {}
    ensures ChildrenKnown(h, direct)
  {
    forall m, c | m in direct && c in Children(h, m)
      ensures c in direct
    {
      if c !in direct {
        MissingHas(h, direct, m, c);
      }
    }
  }

  lemma MemoOrdered(h: Hierarchy, direct: Report, areas: Areas, sequentials: Areas, order: seq<string>)
    requires Memo(h, direct, areas, sequentials, order) && forall m :: m in direct ==> m in order
    ensures Ordered(h, order) && Distinct(order) && Names(order) == direct.Keys
  {
  }

  lemma CompleteAcyclic(sums: Accumulator)
    requires sums.Valid() && forall m :: m in sums.direct ==> m in sums.order
    ensures !HasCycle(sums.hierarchy, sums.direct)
  {
    forall p | IsCycle(sums.hierarchy, p)
      ensures p[0] !in sums.direct
    {
      OrderedAcyclic(sums.hierarchy, sums.order, p);
    }
  }

  /** The sums count instances: each module's own area, times how often it occurs below m. */
  lemma {:induction false} TotalCounts(modules: seq<string>, direct: Report, h: Hierarchy, m: string)
    requires Distinct(modules) && direct.Keys == Names(modules) && ChildrenKnown(h, direct) && m in direct
    ensures Total(h, direct, m) == (Counted(h, AreaOf(direct), m, |direct|, modules),
                                    Counted(h, SequentialOf(direct), m, |direct|, modules))
  {
    hide PathSum, Counted;
    PathSumCounts(h, AreaOf(direct), m, |direct|, modules);
    PathSumCounts(h, SequentialOf(direct), m, |direct|, modules);
  }
}
