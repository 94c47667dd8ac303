/** The recursion walk and the total check of synth/core/summarize_resources.py, and how they undo the
    accumulation of synth/core/parallel_map.py. */
module AreaReport {
  import opened AreaGraph
  import opened AreaAccumulate
  import opened AreaPartition
  import opened Options

  lemma ShapeChildren(d: Design, m: string)
    ensures Children(Shape(d), m) == Kinds(ChildrenOf(d, m))
  {
  }

  lemma OwnIs(d: Design, f: string -> real, m: string)
    ensures Own(d, f)(m) == f(m) - Listed(f, Kinds(ChildrenOf(d, m)))
    ensures Clamped(d, f)(m) == Clamp(Own(d, f)(m))
  {
    ShapeChildren(d, m);
  }

  lemma EntryIs(d: Design, m: string)
    requires m in d.partition
    ensures Area(d)(m) == d.partition[m].area && Sequential(d)(m) == d.partition[m].sequential
    ensures Cells(d)(m) == d.partition[m].cells as real
  {
  }

  /** order lists the modules with children before parents; it exists because the hierarchy has no
      cycle. */
  class Walker {
    const d: Design
    ghost const order: seq<string>
    var keys: seq<string>
    var area: Table
    var sequential: Table
    var cells: Table
    var instances: map<string, seq<string>>

    constructor (d: Design, ghost order: seq<string>)
      ensures this.d == d && this.order == order && View() == Ledger([], map[], map[], map[], map[])
    {
      this.d, this.order := d, order;
      keys, area, sequential, cells, instances := [], map[], map[], map[], map[];
    }

    ghost function View(): Ledger
      reads this
    {
      Ledger(keys, area, sequential, cells, instances)
    }

    /** Adds one instance to its category. */
    method Record(c: string, values: (real, real, real), instance: string)
      modifies this
      ensures View() == Recorded(old(View()), c, values, instance)
    {
      hide Look;
      var shown := if c in instances then instances[c] else [];
      area, sequential, cells, instances, keys :=
        area[c := Look(area, c) + values.0],
        sequential[c := Look(sequential, c) + values.1],
        cells[c := Look(cells, c) + values.2],
        instances[c := shown + [instance]],
        if c in keys then keys else keys + [c];
    }

    /** The walk stops exactly if some instance below the module gives cause. Otherwise each category
        grows by the values that the instances in it have of their own, once for each instance. */
    method Walk(name: string, instance: string, ghost at: nat) returns (r: Option<WalkError>)
      requires Ordered(Shape(d), order) && at < |order| && order[at] == name && Tidy(View())
      modifies this
      ensures r.Some? <==> Stops(d, name)
      ensures r.None? ==> Tidy(View()) && Grown(d, old(View()), View(), name, |order|)
      ensures r.None? ==> Lists(d, old(View()), View(), name, instance)
      decreases at, 1
    {
      hide Tidy, Grown, ListGrown, Stops, Ordered, PathSum, Share, Gain, Recorded, Shape, Children, Lists, ListsUpTo;
      var step := Expand(name);
      ghost var start := View();
      if step.Failure? {
        StopsHere(d, name);
        return Some(step.error);
      }
      GrownFirst(d, View(), name, step.value.0, instance, |order|);
      ListsFirst(d, View(), name, step.value.0, step.value.1, instance);
      Record(step.value.0, step.value.1, instance);
      r := WalkChildren(name, instance, at, start);
    }

    /** The checks at the head of walk: the module's category and what it has of its own. */
    method Expand(name: string) returns (r: Result<(string, (real, real, real)), WalkError>)
      ensures match Trouble(d, name)
              case Some(error) => r == Failure(error)
              case None => r.Success? && CategoryOf(d, name) == Some(r.value.0) && r.value.1 == ValuesOf(d, name)
    {
      hide Own, Area, Sequential, Cells, Clamped, Listed, Kinds, Shape, Children, Clamp;
      ShapeChildren(d, name);
      OwnIs(d, Area(d), name);
      OwnIs(d, Sequential(d), name);
      if name !in d.partition {
        return Failure(MissingModule(name));
      }
      EntryIs(d, name);
      var kinds := Kinds(ChildrenOf(d, name));
      if exists c :: c in kinds && c !in d.partition {
        return Failure(MissingChild(name));
      }
      var stats := d.partition[name];
      var directArea := stats.area - Listed(Area(d), kinds);
      var directSequential := stats.sequential - Listed(Sequential(d), kinds);
      if directArea < -0.01 || directSequential < -0.01 {
        return Failure(NegativeArea(name));
      }
      var category := if name == d.top then Some(WRAPPER) else d.category(name);
      if category.None? {
        return Failure(Unclassified(name));
      }
      r := Success((category.value, (Clamp(directArea), Clamp(directSequential), stats.cells as real)));
    }

    method WalkChildren(name: string, instance: string, ghost at: nat, ghost start: Ledger) returns (r: Option<WalkError>)
      requires Ordered(Shape(d), order) && at < |order| && order[at] == name && Tidy(View())
      requires Trouble(d, name).None? && ListGrown(d, start, View(), name, [], |order|)
      requires ListsUpTo(d, start, View(), name, instance, 0)
      modifies this
      ensures r.Some? <==> Stops(d, name)
      ensures r.None? ==> Tidy(View()) && Grown(d, start, View(), name, |order|)
      ensures r.None? ==> Lists(d, start, View(), name, instance)
      decreases at, 0
    {
      hide Tidy, Grown, ListGrown, Stops, Ordered, Trouble, Shape, Children, Lists, ListsUpTo;
      ShapeChildren(d, name);
      var children := ChildrenOf(d, name);
      ghost var kinds := Kinds(children);
      var k := 0;
      assert kinds[..0] == [];
      while k < |children|
        invariant k <= |children| && Tidy(View()) && ListGrown(d, start, View(), name, kinds[..k], |order|)
        invariant ListsUpTo(d, start, View(), name, instance, k)
        invariant forall i :: 0 <= i < k ==> !Stops(d, kinds[i])
      {
        ChildBefore(Shape(d), order, at, kinds[k]);
        ghost var below := PlaceOf(order[..at], kinds[k]);
        ghost var before := View();
        r := Walk(children[k].kind, instance + "/" + children[k].name, below);
        if r.Some? {
          StopsAbove(d, name, kinds[k]);
          return;
        }
        GrownNext(d, start, before, View(), name, kinds, k, |order|);
        ListsNext(d, start, before, View(), name, instance, k);
        k := k + 1;
      }
      assert kinds[..k] == kinds;
      GrownLast(d, start, View(), order, name, |order|);
      ListsLast(d, start, View(), name, instance);
      StopsBelow(d, name);
      r := None;
    }
  }

  // ---- The total check ----

  function Abs(x: real): real { if x < 0.0 then -x else x }

  /** What the clamp adds over all instances. */
  function Slipped(d: Design, n: nat): real { PathSum(Shape(d), Slip(d, Area(d)), d.top, n) }

  lemma SlipIs(d: Design, f: string -> real, m: string)
    ensures Slip(d, f)(m) == if Own(d, f)(m) < 0.0 then -Own(d, f)(m) else 0.0
  {
  }

  lemma SlippedNonnegative(d: Design, n: nat)
    ensures Slipped(d, n) >= 0.0
  {
    forall m
      ensures Slip(d, Area(d))(m) >= 0.0
    {
      SlipIs(d, Area(d), m);
    }
    PathSumNonnegative(Shape(d), Slip(d, Area(d)), d.top, n);
  }

  lemma GrownFromEmpty(d: Design, order: seq<string>, after: Ledger)
    requires Ordered(Shape(d), order) && d.top in order
    requires Grown(d, Ledger([], map[], map[], map[], map[]), after, d.top, |order|)
    ensures Sum(after.area, after.keys) == Area(d)(d.top) + Slipped(d, |order|)
    ensures forall c :: LineOf(after, c) == Gain(d, c, d.top, |order|)
  {
    hide PathSum, Area, Slip, Shape, Clamped, Gain;
    ClampedTotal(d, Area(d), order, d.top, |order|);
  }

  /** main from the walk to the total check. It ends without an error exactly if no instance stops the
      walk, the total is positive, and the clamp has added at most 0.1; then the categories hold the
      instances' own values, and their total exceeds the top module's area by what the clamp added. */
  method Summarize(d: Design, ghost order: seq<string>) returns (r: Result<Walker, WalkError>)
    requires Ordered(Shape(d), order) && d.top in order && d.top in d.partition
    ensures r.Success? <==>
              && !Stops(d, d.top) && Area(d)(d.top) + Slipped(d, |order|) > 0.0 && Slipped(d, |order|) <= 0.1
    ensures r.Success? ==>
              && (forall c :: LineOf(r.value.View(), c) == Gain(d, c, d.top, |order|))
              && (forall c, x :: x in ShownIn(r.value.View(), c) <==> Named(d, d.top, d.top, c, x))
              && Sum(r.value.area, r.value.keys) == Area(d)(d.top) + Slipped(d, |order|)
  {
    hide Named, Stops, Gain, Slipped, Area, Shape, Ordered, Grown;
    var walker := new Walker(d, order);
    ghost var at := PlaceOf(order, d.top);
    EmptyTidy();
    var error := walker.Walk(d.top, d.top, at);
    if error.Some? {
      return Failure(error.value);
    }
    GrownFromEmpty(d, order, walker.View());
    SlippedNonnegative(d, |order|);
    EntryIs(d, d.top);
    var total := Sum(walker.area, walker.keys);
    if total <= 0.0 {
      return Failure(ZeroTotal);
    }
    if Abs(total - d.partition[d.top].area) > 0.1 {
      return Failure(Mismatch);
    }
    r := Success(walker);
  }

  lemma EmptyTidy()
    ensures Tidy(Ledger([], map[], map[], map[], map[]))
  {
  }

  // ---- Round trip ----

  /** The partition lists the accumulated sums of these modules' own areas, as Merge makes them. */
  ghost predicate Accumulated(d: Design, direct: Report, modules: seq<string>) {
    && Distinct(modules) && direct.Keys == Names(modules) == d.partition.Keys && d.top in direct
    && ChildrenKnown(Shape(d), direct)
    && (forall m :: m in direct ==>
          && (d.partition[m].area, d.partition[m].sequential) == Total(Shape(d), direct, m)
          && direct[m].area >= 0.0 && direct[m].sequential >= 0.0)
  }

  lemma {:induction false} ListedSums(d: Design, direct: Report, f: string -> real, g: string -> real, list: seq<string>)
    requires forall c :: c in list ==> f(c) == PathSum(Shape(d), g, c, |direct|)
    ensures Listed(f, list) == ListSum(Shape(d), g, list, |direct|)
  {
    if list != [] {
      ListedSums(d, direct, f, g, list[..|list| - 1]);
    }
  }

  /** Taking the children's areas away again leaves each module's own area. */
  lemma OwnRecovered(d: Design, direct: Report, modules: seq<string>, order: seq<string>, m: string)
    requires Accumulated(d, direct, modules) && Ordered(Shape(d), order) && Distinct(order) && Names(order) == direct.Keys
    requires m in direct
    ensures Own(d, Area(d))(m) == direct[m].area && Own(d, Sequential(d))(m) == direct[m].sequential
  {
    hide PathSum, ListSum, Shape, Children, Ordered, Distinct, Listed;
    assert m in order by { assert m in Names(order); }
    TotalUnfolds(Shape(d), direct, order, m);
    var list := Children(Shape(d), m);
    assert forall c :: c in list ==> c in direct;
    ListedSums(d, direct, Area(d), AreaOf(direct), list);
    ListedSums(d, direct, Sequential(d), SequentialOf(direct), list);
  }

  lemma {:induction false} PathKnown(d: Design, direct: Report, p: seq<string>)
    requires ChildrenKnown(Shape(d), direct) && IsPath(Shape(d), p) && p != [] && p[0] in direct
    ensures p[|p| - 1] in direct
    decreases |p|
  {
    if |p| > 1 {
      PathTail(Shape(d), p);
      assert p[1..][|p[1..]| - 1] == p[|p| - 1];
      PathKnown(d, direct, p[1..]);
    }
  }

  /** The hierarchy of the modules, in an order with children before parents. */
  ghost predicate Arranged(d: Design, direct: Report, modules: seq<string>, order: seq<string>) {
    Accumulated(d, direct, modules) && Ordered(Shape(d), order) && Distinct(order) && Names(order) == direct.Keys
  }

  lemma ArrangedOrder(d: Design, direct: Report, modules: seq<string>, order: seq<string>)
    requires Arranged(d, direct, modules, order)
    ensures Closed(Shape(d), order) && (forall m :: m in order <==> m in direct) && d.top in order
    ensures Closed(Shape(d), modules) && Distinct(modules) && d.top in modules && d.top in direct
  {
    hide Shape, Children, Ordered, Distinct;
    assert forall m :: m in order <==> m in Names(order);
    assert forall m :: m in modules <==> m in Names(modules);
  }

  lemma TroubleExactly(d: Design, direct: Report, modules: seq<string>, order: seq<string>, m: string)
    requires Arranged(d, direct, modules, order) && m in direct
    ensures Trouble(d, m).Some? <==> CategoryOf(d, m).None?
  {
    hide Own, Shape, Children, Ordered, Distinct, CategoryOf;
    OwnRecovered(d, direct, modules, order, m);
  }

  /** An instance below m whose module has no category. */
  ghost predicate UnclassifiedBelow(d: Design, m: string) {
    exists p :: IsPath(Shape(d), p) && p != [] && p[0] == m && CategoryOf(d, p[|p| - 1]).None?
  }

  lemma StopsExactly(d: Design, direct: Report, modules: seq<string>, order: seq<string>)
    requires Arranged(d, direct, modules, order)
    ensures Stops(d, d.top) <==> UnclassifiedBelow(d, d.top)
  {
    forall p | IsPath(Shape(d), p) && p != [] && p[0] == d.top
      ensures Trouble(d, p[|p| - 1]).Some? <==> CategoryOf(d, p[|p| - 1]).None?
    {
      hide Trouble, Shape, Children, Ordered, Distinct, CategoryOf;
      PathKnown(d, direct, p);
      TroubleExactly(d, direct, modules, order, p[|p| - 1]);
    }
    hide Trouble, CategoryOf, IsPath, Shape, Arranged;
  }

  lemma SlipZero(d: Design, direct: Report, modules: seq<string>, order: seq<string>, m: string)
    requires Arranged(d, direct, modules, order) && m in direct
    ensures Slip(d, Area(d))(m) == 0.0
  {
    hide Own, Slip, Shape, Children, Ordered, Distinct;
    OwnRecovered(d, direct, modules, order, m);
    SlipIs(d, Area(d), m);
  }

  lemma NothingSlips(d: Design, direct: Report, modules: seq<string>, order: seq<string>)
    requires Arranged(d, direct, modules, order)
    ensures Slipped(d, |order|) == 0.0
  {
    hide PathSum, Slip, Area, Arranged;
    var slip := Slip(d, Area(d));
    ArrangedOrder(d, direct, modules, order);
    forall m | m in order
      ensures slip(m) == Scaled(slip, 0.0)(m)
    {
      SlipZero(d, direct, modules, order, m);
    }
    hide Scaled, Closed, Distinct;
    PathSumAgrees(Shape(d), slip, Scaled(slip, 0.0), order, d.top, |order|);
    PathSumScales(Shape(d), slip, 0.0, d.top, |order|);
  }

  lemma WithinAgrees(d: Design, direct: Report, modules: seq<string>, order: seq<string>, c: string, m: string)
    requires Arranged(d, direct, modules, order) && m in direct
    ensures Within(d, c, Clamped(d, Area(d)))(m) == Within(d, c, AreaOf(direct))(m)
    ensures Within(d, c, Clamped(d, Sequential(d)))(m) == Within(d, c, SequentialOf(direct))(m)
  {
    hide Own, Shape, Children, Ordered, Distinct, CategoryOf, Clamped;
    OwnRecovered(d, direct, modules, order, m);
    OwnIs(d, Area(d), m);
    OwnIs(d, Sequential(d), m);
  }

  /** Module values of which each instance in a category counts once. */
  function CategoryTotal(d: Design, c: string, f: string -> real, n: nat, modules: seq<string>): real {
    Counted(Shape(d), Within(d, c, f), d.top, n, modules)
  }

  lemma {:induction false} CategoryCounts(d: Design, direct: Report, modules: seq<string>, order: seq<string>, c: string)
    requires Arranged(d, direct, modules, order)
    ensures var n := |order|;
            Gain(d, c, d.top, n) ==
              (CategoryTotal(d, c, AreaOf(direct), n, modules), CategoryTotal(d, c, SequentialOf(direct), n, modules),
               CategoryTotal(d, c, Cells(d), n, modules), CategoryTotal(d, c, One(), n, modules))
  {
    hide PathSum, Within, Area, Sequential, Cells, Arranged, Counted, Closed, Distinct, Shape;
    ArrangedOrder(d, direct, modules, order);
    forall m | m in order
      ensures Within(d, c, Clamped(d, Area(d)))(m) == Within(d, c, AreaOf(direct))(m)
      ensures Within(d, c, Clamped(d, Sequential(d)))(m) == Within(d, c, SequentialOf(direct))(m)
    {
      WithinAgrees(d, direct, modules, order, c, m);
    }
    PathSumAgrees(Shape(d), Within(d, c, Clamped(d, Area(d))), Within(d, c, AreaOf(direct)), order, d.top, |order|);
    PathSumAgrees(Shape(d), Within(d, c, Clamped(d, Sequential(d))), Within(d, c, SequentialOf(direct)), order, d.top, |order|);
    PathSumCounts(Shape(d), Within(d, c, AreaOf(direct)), d.top, |order|, modules);
    PathSumCounts(Shape(d), Within(d, c, SequentialOf(direct)), d.top, |order|, modules);
    PathSumCounts(Shape(d), Within(d, c, Cells(d)), d.top, |order|, modules);
    PathSumCounts(Shape(d), Within(d, c, One()), d.top, |order|, modules);
  }

  /** On accumulated sums the walk recovers the modules' own areas: it stops exactly when some instance is
      of a module without a category, the clamp adds nothing, and each category's areas, cells and instances
      count each of its modules' own once for each instance below the top. */
  lemma {:induction false} WalkUndoesAccumulate(d: Design, direct: Report, modules: seq<string>, order: seq<string>)
    requires Arranged(d, direct, modules, order)
    ensures Stops(d, d.top) <==> UnclassifiedBelow(d, d.top)
    ensures Slipped(d, |order|) == 0.0
    ensures forall c :: Gain(d, c, d.top, |order|) ==
                          (CategoryTotal(d, c, AreaOf(direct), |order|, modules),
                           CategoryTotal(d, c, SequentialOf(direct), |order|, modules),
                           CategoryTotal(d, c, Cells(d), |order|, modules), CategoryTotal(d, c, One(), |order|, modules))
  {
    hide Slipped, Gain, Arranged, CategoryTotal, CategoryOf, Stops, UnclassifiedBelow;
    StopsExactly(d, direct, modules, order);
    NothingSlips(d, direct, modules, order);
    forall c
      ensures Gain(d, c, d.top, |order|) ==
                (CategoryTotal(d, c, AreaOf(direct), |order|, modules),
                 CategoryTotal(d, c, SequentialOf(direct), |order|, modules),
                 CategoryTotal(d, c, Cells(d), |order|, modules), CategoryTotal(d, c, One(), |order|, modules))
    {
      CategoryCounts(d, direct, modules, order, c);
    }
  }
}
