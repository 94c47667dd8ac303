/** walk and the total check in synth/core/summarize_resources.py: the area report of a hierarchy is
    split into exclusive categories again. Areas are exact reals. */
module AreaPartition {
  import opened AreaGraph
  import opened AreaAccumulate
  import opened Options

  datatype Entry = Entry(area: real, sequential: real, cells: nat)

  datatype Child = Child(kind: string, name: string)

  type Partition = map<string, Entry>

  type Instantiations = map<string, seq<Child>>

  /** category stands for category_for; the top module has a category of its own. */
  datatype Design = Design(partition: Partition, instantiations: Instantiations, top: string,
                           category: string -> Option<string>)

  datatype WalkError =
    | MissingModule(name: string) | MissingChild(name: string) | NegativeArea(name: string) | Unclassified(name: string)
    | ZeroTotal | Mismatch

  const WRAPPER := "AXI wrapper/glue"

  function Kinds(list: seq<Child>): (kinds: seq<string>)
    ensures |kinds| == |list| && forall i :: 0 <= i < |list| ==> kinds[i] == list[i].kind
  {
    if list == [] then [] else Kinds(list[..|list| - 1]) + [list[|list| - 1].kind]
  }

  function ChildrenOf(d: Design, m: string): seq<Child> { if m in d.instantiations then d.instantiations[m] else [] }

  function Shape(d: Design): Hierarchy { map m | m in d.instantiations :: Kinds(d.instantiations[m]) }

  function Area(d: Design): string -> real { m => if m in d.partition then d.partition[m].area else 0.0 }

  function Sequential(d: Design): string -> real { m => if m in d.partition then d.partition[m].sequential else 0.0 }

  function Cells(d: Design): string -> real { m => if m in d.partition then d.partition[m].cells as real else 0.0 }

  /** The sum of the listed modules' values. */
  function Listed(f: string -> real, list: seq<string>): real {
    if list == [] then 0.0 else Listed(f, list[..|list| - 1]) + f(list[|list| - 1])
  }

  /** What is left of a module's value without that of its children. */
  function Own(d: Design, f: string -> real): string -> real { m => f(m) - Listed(f, Children(Shape(d), m)) }

  function Clamp(x: real): real { if x < 0.0 then 0.0 else x }

  /** What the clamp adds to a module's own value. */
  function Slip(d: Design, f: string -> real): string -> real { m => Clamp(Own(d, f)(m)) - Own(d, f)(m) }

  function Clamped(d: Design, f: string -> real): string -> real { m => Clamp(Own(d, f)(m)) }

  function CategoryOf(d: Design, m: string): Option<string> { if m == d.top then Some(WRAPPER) else d.category(m) }

  /** Why an instance of m stops the walk, if it does. */
  function Trouble(d: Design, m: string): Option<WalkError> {
    if m !in d.partition then Some(MissingModule(m))
    else if exists c :: c in Children(Shape(d), m) && c !in d.partition then Some(MissingChild(m))
    else if Own(d, Area(d))(m) < -0.01 || Own(d, Sequential(d))(m) < -0.01 then Some(NegativeArea(m))
    else if CategoryOf(d, m).None? then Some(Unclassified(m))
    else None
  }

  /** An instance below m that stops the walk. */
  ghost predicate Stops(d: Design, m: string) {
    exists p :: IsPath(Shape(d), p) && p != [] && p[0] == m && Trouble(d, p[|p| - 1]).Some?
  }

  lemma StopsHere(d: Design, m: string)
    requires Trouble(d, m).Some?
    ensures Stops(d, m)
  {
    var p := [m];
    assert IsPath(Shape(d), p) && p[0] == m;
  }

  lemma PathCons(h: Hierarchy, m: string, q: seq<string>)
    requires IsPath(h, q) && q != [] && q[0] in Children(h, m)
    ensures IsPath(h, [m] + q)
  {
    hide Children;
  }

  lemma PathTail(h: Hierarchy, p: seq<string>)
    requires IsPath(h, p) && |p| > 1
    ensures IsPath(h, p[1..]) && p[1] in Children(h, p[0])
  {
  }

  lemma StopsAbove(d: Design, m: string, c: string)
    requires c in Children(Shape(d), m) && Stops(d, c)
    ensures Stops(d, m)
  {
    hide Trouble, IsPath, Children, Shape;
    var q :| IsPath(Shape(d), q) && q != [] && q[0] == c && Trouble(d, q[|q| - 1]).Some?;
    PathCons(Shape(d), m, q);
    var p := [m] + q;
    assert p[0] == m && p[|p| - 1] == q[|q| - 1];
  }

  lemma StopsBelow(d: Design, m: string)
    ensures Stops(d, m) <==> Trouble(d, m).Some? || exists c :: c in Children(Shape(d), m) && Stops(d, c)
  {
    hide Trouble, IsPath, Children, Shape;
    if Trouble(d, m).Some? {
      StopsHere(d, m);
    }
    forall c | c in Children(Shape(d), m) && Stops(d, c)
      ensures Stops(d, m)
    {
      StopsAbove(d, m, c);
    }
    if Stops(d, m) {
      var p :| IsPath(Shape(d), p) && p != [] && p[0] == m && Trouble(d, p[|p| - 1]).Some?;
      if |p| > 1 {
        PathTail(Shape(d), p);
        assert p[1..][0] == p[1] && p[1..][|p[1..]| - 1] == p[|p| - 1];
      }
    }
  }

  // ---- Telescoping ----

  /** Summed over all instances, what each has of its own makes up the whole. */
  lemma {:induction false} Telescope(d: Design, f: string -> real, order: seq<string>, i: nat, n: nat)
    requires Ordered(Shape(d), order) && i < |order| && i <= n
    ensures PathSum(Shape(d), Own(d, f), order[i], n) == f(order[i])
    decreases i, 1, 0
  {
    var list := Children(Shape(d), order[i]);
    if i == 0 {
      if list != [] {
        ChildBefore(Shape(d), order, i, list[0]);
      }
    } else if n > 0 {
      ListTelescopes(d, f, order, i, list, n - 1);
    }
  }

  lemma {:induction false} ListTelescopes(d: Design, f: string -> real, order: seq<string>, i: nat, list: seq<string>,
                                          n: nat)
    requires Ordered(Shape(d), order) && 0 < i <= |order| && i - 1 <= n
    requires forall c :: c in list ==> c in order[..i]
    ensures ListSum(Shape(d), Own(d, f), list, n) == Listed(f, list)
    decreases i, 0, |list|
  {
    if list != [] {
      ListTelescopes(d, f, order, i, list[..|list| - 1], n);
      var j := PlaceOf(order[..i], list[|list| - 1]);
      Telescope(d, f, order, j, n);
    }
  }

  /** With the clamp the instances make up the whole and what the clamp added. */
  lemma {:induction false} ClampedTotal(d: Design, f: string -> real, order: seq<string>, m: string, n: nat)
    requires Ordered(Shape(d), order) && m in order && |order| <= n
    ensures PathSum(Shape(d), Clamped(d, f), m, n) == f(m) + PathSum(Shape(d), Slip(d, f), m, n)
  {
    var i := PlaceOf(order, m);
    Telescope(d, f, order, i, n);
    PathSumAdds(Shape(d), Own(d, f), Slip(d, f), Clamped(d, f), m, n);
  }

  // ---- The category tables ----

  type Table = map<string, real>

  function Look(t: Table, c: string): real { if c in t then t[c] else 0.0 }

  /** The sum of a table's values, in the order in which its keys were first used. */
  function Sum(t: Table, keys: seq<string>): real {
    if keys == [] then 0.0 else Sum(t, keys[..|keys| - 1]) + Look(t, keys[|keys| - 1])
  }

  lemma {:induction false} SumElsewhere(t: Table, keys: seq<string>, c: string, x: real)
    requires c !in keys
    ensures Sum(t[c := x], keys) == Sum(t, keys)
  {
    if keys != [] {
      SumElsewhere(t, keys[..|keys| - 1], c, x);
    }
  }

  lemma {:induction false} SumUpdated(t: Table, keys: seq<string>, c: string, x: real)
    requires c in keys && Distinct(keys)
    ensures Sum(t[c := Look(t, c) + x], keys) == Sum(t, keys) + x
  {
    var front, last := keys[..|keys| - 1], keys[|keys| - 1];
    assert keys == front + [last];
    if last == c {
      SumElsewhere(t, front, c, Look(t, c) + x);
    } else {
      SumUpdated(t, front, c, x);
    }
  }

  /** keys lists the categories in use, in the order of their first use. */
  datatype Ledger = Ledger(keys: seq<string>, area: Table, sequential: Table, cells: Table,
                           instances: map<string, seq<string>>)

  ghost predicate Tidy(l: Ledger) {
    && Distinct(l.keys)
    && l.area.Keys == l.sequential.Keys == l.cells.Keys == l.instances.Keys == Names(l.keys)
  }

  /** The values of one category: area, sequential area, cells, instances. */
  type Line = (real, real, real, real)

  function LineOf(l: Ledger, c: string): Line {
    (Look(l.area, c), Look(l.sequential, c), Look(l.cells, c), if c in l.instances then |l.instances[c]| as real else 0.0)
  }

  function Plus(a: Line, b: Line): Line { (a.0 + b.0, a.1 + b.1, a.2 + b.2, a.3 + b.3) }

  /** A weight, counted only at modules of category c. */
  function Within(d: Design, c: string, f: string -> real): string -> real {
    m => if CategoryOf(d, m) == Some(c) then f(m) else 0.0
  }

  function One(): string -> real { _ => 1.0 }

  /** What one instance of m adds to category c. */
  function Share(d: Design, c: string, m: string): Line {
    (Within(d, c, Clamped(d, Area(d)))(m), Within(d, c, Clamped(d, Sequential(d)))(m), Within(d, c, Cells(d))(m),
     Within(d, c, One())(m))
  }

  /** What all the instances below m add to category c. */
  function Gain(d: Design, c: string, m: string, n: nat): Line {
    (PathSum(Shape(d), Within(d, c, Clamped(d, Area(d))), m, n),
     PathSum(Shape(d), Within(d, c, Clamped(d, Sequential(d))), m, n),
     PathSum(Shape(d), Within(d, c, Cells(d)), m, n), PathSum(Shape(d), Within(d, c, One()), m, n))
  }

  function ListGain(d: Design, c: string, list: seq<string>, n: nat): Line {
    (ListSum(Shape(d), Within(d, c, Clamped(d, Area(d))), list, n),
     ListSum(Shape(d), Within(d, c, Clamped(d, Sequential(d))), list, n),
     ListSum(Shape(d), Within(d, c, Cells(d)), list, n), ListSum(Shape(d), Within(d, c, One()), list, n))
  }

  /** The ledger with one more instance in category c. */
  function Recorded(l: Ledger, c: string, values: (real, real, real), instance: string): Ledger {
    Ledger(if c in l.keys then l.keys else l.keys + [c],
           l.area[c := Look(l.area, c) + values.0],
           l.sequential[c := Look(l.sequential, c) + values.1],
           l.cells[c := Look(l.cells, c) + values.2],
           l.instances[c := (if c in l.instances then l.instances[c] else []) + [instance]])
  }

  function ValuesOf(d: Design, m: string): (real, real, real) {
    (Clamped(d, Area(d))(m), Clamped(d, Sequential(d))(m), Cells(d)(m))
  }

  lemma RecordedLine(l: Ledger, c: string, values: (real, real, real), instance: string, k: string)
    ensures LineOf(Recorded(l, c, values, instance), k) ==
              if k == c then Plus(LineOf(l, k), (values.0, values.1, values.2, 1.0)) else LineOf(l, k)
  {
  }

  lemma ShareIs(d: Design, m: string, c: string, k: string)
    requires CategoryOf(d, m) == Some(c)
    ensures var values := ValuesOf(d, m);
            Share(d, k, m) == if k == c then (values.0, values.1, values.2, 1.0) else (0.0, 0.0, 0.0, 0.0)
  {
    hide Clamped, Cells, Area, Sequential, CategoryOf;
  }

  lemma KeysGrow(keys: seq<string>, c: string)
    requires Distinct(keys)
    ensures var longer := if c in keys then keys else keys + [c];
            Distinct(longer) && Names(longer) == Names(keys) + {c}
  {
  }

  lemma RecordedTidy(l: Ledger, c: string, values: (real, real, real), instance: string)
    requires Tidy(l)
    ensures Tidy(Recorded(l, c, values, instance))
  {
    hide Look, Distinct, Names;
    KeysGrow(l.keys, c);
  }

  lemma RecordedSum(l: Ledger, c: string, values: (real, real, real), instance: string)
    requires Tidy(l)
    ensures var after := Recorded(l, c, values, instance);
            && Sum(after.area, after.keys) == Sum(l.area, l.keys) + values.0
            && Sum(after.sequential, after.keys) == Sum(l.sequential, l.keys) + values.1
  {
    hide Sum, Distinct, Names, Look;
    SumRecorded(l.area, l.keys, c, values.0);
    SumRecorded(l.sequential, l.keys, c, values.1);
  }

  lemma SumRecorded(t: Table, keys: seq<string>, c: string, x: real)
    requires Distinct(keys) && t.Keys == Names(keys)
    ensures Sum(t[c := Look(t, c) + x], if c in keys then keys else keys + [c]) == Sum(t, keys) + x
  {
    if c in keys {
      SumUpdated(t, keys, c, x);
    } else {
      SumElsewhere(t, keys, c, Look(t, c) + x);
      assert (keys + [c])[..|keys|] == keys;
    }
  }

  // ---- The names of instances ----

  /** Steps from an instance of m down to an instance below it. */
  ghost predicate Chain(d: Design, m: string, steps: seq<Child>)
    decreases |steps|
  {
    steps == [] || (steps[0] in ChildrenOf(d, m) && Chain(d, steps[0].kind, steps[1..]))
  }

  function EndOf(m: string, steps: seq<Child>): string { if steps == [] then m else steps[|steps| - 1].kind }

  /** The instance's name, and behind it the name of each step, separated by slashes. */
  function NameOf(instance: string, steps: seq<Child>): string {
    if steps == [] then instance else NameOf(instance, steps[..|steps| - 1]) + "/" + steps[|steps| - 1].name
  }

  /** x names an instance of category c at or below this instance of m. */
  ghost predicate Named(d: Design, m: string, instance: string, c: string, x: string) {
    exists steps :: Chain(d, m, steps) && CategoryOf(d, EndOf(m, steps)) == Some(c) && NameOf(instance, steps) == x
  }

  lemma {:induction false} NameFront(instance: string, first: Child, rest: seq<Child>)
    ensures NameOf(instance, [first] + rest) == NameOf(instance + "/" + first.name, rest)
  {
    if rest == [] {
      assert [first] + rest == [first] && [first][..0] == [];
    } else {
      NameFront(instance, first, rest[..|rest| - 1]);
      assert ([first] + rest)[..|rest|] == [first] + rest[..|rest| - 1];
    }
  }

  lemma NamedHere(d: Design, m: string, instance: string, c: string)
    requires CategoryOf(d, m) == Some(c)
    ensures Named(d, m, instance, c, instance)
  {
    hide CategoryOf;
    var steps: seq<Child> := [];
    assert Chain(d, m, steps) && NameOf(instance, steps) == instance;
  }

  lemma NamedAbove(d: Design, m: string, instance: string, child: Child, c: string, x: string)
    requires child in ChildrenOf(d, m) && Named(d, child.kind, instance + "/" + child.name, c, x)
    ensures Named(d, m, instance, c, x)
  {
    hide CategoryOf;
    var rest :| Chain(d, child.kind, rest) && CategoryOf(d, EndOf(child.kind, rest)) == Some(c)
                && NameOf(instance + "/" + child.name, rest) == x;
    var steps := [child] + rest;
    NameFront(instance, child, rest);
    assert steps[1..] == rest;
  }

  lemma NamedBelow(d: Design, m: string, instance: string, c: string, x: string)
    requires Named(d, m, instance, c, x)
    ensures (CategoryOf(d, m) == Some(c) && x == instance)
            || exists child :: child in ChildrenOf(d, m) && Named(d, child.kind, instance + "/" + child.name, c, x)
  {
    hide CategoryOf;
    var steps :| Chain(d, m, steps) && CategoryOf(d, EndOf(m, steps)) == Some(c) && NameOf(instance, steps) == x;
    if steps != [] {
      var first, rest := steps[0], steps[1..];
      assert steps == [first] + rest;
      NameFront(instance, first, rest);
      assert Named(d, first.kind, instance + "/" + first.name, c, x);
    }
  }

  function ShownIn(l: Ledger, c: string): seq<string> { if c in l.instances then l.instances[c] else [] }

  /** What the walk has added to the lists of instances. */
  ghost predicate Lists(d: Design, before: Ledger, after: Ledger, m: string, instance: string) {
    forall c, x :: x in ShownIn(after, c) <==> x in ShownIn(before, c) || Named(d, m, instance, c, x)
  }

  /** The instance itself and everything at or below its first k children. */
  ghost predicate NamedUpTo(d: Design, m: string, instance: string, k: nat, c: string, x: string) {
    || (CategoryOf(d, m) == Some(c) && x == instance)
    || exists i :: 0 <= i < k && i < |ChildrenOf(d, m)| &&
         Named(d, ChildrenOf(d, m)[i].kind, instance + "/" + ChildrenOf(d, m)[i].name, c, x)
  }

  ghost predicate ListsUpTo(d: Design, before: Ledger, after: Ledger, m: string, instance: string, k: nat) {
    forall c, x :: x in ShownIn(after, c) <==> x in ShownIn(before, c) || NamedUpTo(d, m, instance, k, c, x)
  }

  lemma ListsFirst(d: Design, l: Ledger, m: string, c: string, values: (real, real, real), instance: string)
    requires CategoryOf(d, m) == Some(c)
    ensures ListsUpTo(d, l, Recorded(l, c, values, instance), m, instance, 0)
  {
    hide CategoryOf, Named, Look;
  }

  lemma ListsNext(d: Design, start: Ledger, before: Ledger, after: Ledger, m: string, instance: string, k: nat)
    requires k < |ChildrenOf(d, m)| && ListsUpTo(d, start, before, m, instance, k)
    requires Lists(d, before, after, ChildrenOf(d, m)[k].kind, instance + "/" + ChildrenOf(d, m)[k].name)
    ensures ListsUpTo(d, start, after, m, instance, k + 1)
  {
    hide CategoryOf, Named, ShownIn, ChildrenOf;
    forall c, x
      ensures x in ShownIn(after, c) <==> x in ShownIn(start, c) || NamedUpTo(d, m, instance, k + 1, c, x)
    {
      assert x in ShownIn(before, c) <==> x in ShownIn(start, c) || NamedUpTo(d, m, instance, k, c, x);
    }
  }

  lemma ListsLast(d: Design, start: Ledger, after: Ledger, m: string, instance: string)
    requires ListsUpTo(d, start, after, m, instance, |ChildrenOf(d, m)|)
    ensures Lists(d, start, after, m, instance)
  {
    hide CategoryOf, Named, ShownIn, ChildrenOf;
    forall c, x
      ensures NamedUpTo(d, m, instance, |ChildrenOf(d, m)|, c, x) <==> Named(d, m, instance, c, x)
    {
      AllNamed(d, m, instance, c, x);
    }
  }

  lemma AllNamed(d: Design, m: string, instance: string, c: string, x: string)
    ensures NamedUpTo(d, m, instance, |ChildrenOf(d, m)|, c, x) <==> Named(d, m, instance, c, x)
  {
    hide CategoryOf, Named, ChildrenOf;
    var list := ChildrenOf(d, m);
    if Named(d, m, instance, c, x) {
      NamedBelow(d, m, instance, c, x);
      if !(CategoryOf(d, m) == Some(c) && x == instance) {
        var child :| child in list && Named(d, child.kind, instance + "/" + child.name, c, x);
        var i :| 0 <= i < |list| && list[i] == child;
      }
    }
    if NamedUpTo(d, m, instance, |list|, c, x) {
      if CategoryOf(d, m) == Some(c) && x == instance {
        NamedHere(d, m, instance, c);
      } else {
        var i :| 0 <= i < |list| && Named(d, list[i].kind, instance + "/" + list[i].name, c, x);
        NamedAbove(d, m, instance, list[i], c, x);
      }
    }
  }

  // ---- Gains ----

  lemma GainUnfolds(d: Design, c: string, order: seq<string>, m: string, n: nat)
    requires Ordered(Shape(d), order) && m in order && |order| <= n
    ensures Gain(d, c, m, n) == Plus(Share(d, c, m), ListGain(d, c, Children(Shape(d), m), n))
  {
    hide PathSum, ListSum, Within, Clamped, Ordered, Children, Shape, Area, Sequential, Cells, One;
    PathSumUnfolds(Shape(d), Within(d, c, Clamped(d, Area(d))), order, m, n);
    PathSumUnfolds(Shape(d), Within(d, c, Clamped(d, Sequential(d))), order, m, n);
    PathSumUnfolds(Shape(d), Within(d, c, Cells(d)), order, m, n);
    PathSumUnfolds(Shape(d), Within(d, c, One()), order, m, n);
  }

  lemma ListGainNext(d: Design, c: string, list: seq<string>, k: nat, n: nat)
    requires k < |list|
    ensures ListGain(d, c, list[..k + 1], n) == Plus(ListGain(d, c, list[..k], n), Gain(d, c, list[k], n))
  {
    hide PathSum, ListSum, Within, Clamped, Shape, Area, Sequential, Cells, One;
    ListNext(Shape(d), Within(d, c, Clamped(d, Area(d))), list, k, n);
    ListNext(Shape(d), Within(d, c, Clamped(d, Sequential(d))), list, k, n);
    ListNext(Shape(d), Within(d, c, Cells(d)), list, k, n);
    ListNext(Shape(d), Within(d, c, One()), list, k, n);
  }

  /** Every category has grown by these instances' shares, and the totals by their clamped values. */
  ghost predicate Grown(d: Design, before: Ledger, after: Ledger, m: string, n: nat) {
    && (forall c :: LineOf(after, c) == Plus(LineOf(before, c), Gain(d, c, m, n)))
    && Sum(after.area, after.keys) == Sum(before.area, before.keys) + PathSum(Shape(d), Clamped(d, Area(d)), m, n)
    && Sum(after.sequential, after.keys) ==
       Sum(before.sequential, before.keys) + PathSum(Shape(d), Clamped(d, Sequential(d)), m, n)
  }

  ghost predicate ListGrown(d: Design, before: Ledger, after: Ledger, m: string, list: seq<string>, n: nat) {
    && (forall c :: LineOf(after, c) == Plus(Plus(LineOf(before, c), Share(d, c, m)), ListGain(d, c, list, n)))
    && Sum(after.area, after.keys) ==
       Sum(before.area, before.keys) + Clamped(d, Area(d))(m) + ListSum(Shape(d), Clamped(d, Area(d)), list, n)
    && Sum(after.sequential, after.keys) ==
       Sum(before.sequential, before.keys) + Clamped(d, Sequential(d))(m) +
       ListSum(Shape(d), Clamped(d, Sequential(d)), list, n)
  }

  lemma GrownFirst(d: Design, l: Ledger, m: string, c: string, instance: string, n: nat)
    requires Tidy(l) && CategoryOf(d, m) == Some(c)
    ensures var after := Recorded(l, c, ValuesOf(d, m), instance); Tidy(after) && ListGrown(d, l, after, m, [], n)
  {
    hide Tidy, Recorded, Share, Within, Sum, LineOf, Shape, CategoryOf, Clamped, Cells;
    RecordedTidy(l, c, ValuesOf(d, m), instance);
    RecordedSum(l, c, ValuesOf(d, m), instance);
    forall k
      ensures LineOf(Recorded(l, c, ValuesOf(d, m), instance), k) == Plus(LineOf(l, k), Share(d, k, m))
    {
      RecordedLine(l, c, ValuesOf(d, m), instance, k);
      ShareIs(d, m, c, k);
    }
  }

  lemma GrownNext(d: Design, start: Ledger, before: Ledger, after: Ledger, m: string, list: seq<string>, k: nat, n: nat)
    requires k < |list| && ListGrown(d, start, before, m, list[..k], n) && Grown(d, before, after, list[k], n)
    ensures ListGrown(d, start, after, m, list[..k + 1], n)
  {
    hide Share, Within, Clamped, Sum, LineOf, Shape, Gain, ListGain, PathSum, ListSum, Area, Sequential;
    ListNext(Shape(d), Clamped(d, Area(d)), list, k, n);
    ListNext(Shape(d), Clamped(d, Sequential(d)), list, k, n);
    forall c
      ensures LineOf(after, c) == Plus(Plus(LineOf(start, c), Share(d, c, m)), ListGain(d, c, list[..k + 1], n))
    {
      ListGainNext(d, c, list, k, n);
    }
  }

  lemma GrownLast(d: Design, start: Ledger, after: Ledger, order: seq<string>, m: string, n: nat)
    requires Ordered(Shape(d), order) && m in order && |order| <= n
    requires ListGrown(d, start, after, m, Children(Shape(d), m), n)
    ensures Grown(d, start, after, m, n)
  {
    hide Share, Within, Clamped, Sum, LineOf, Shape, Gain, ListGain, PathSum, ListSum, Area, Sequential, Ordered, Children;
    PathSumUnfolds(Shape(d), Clamped(d, Area(d)), order, m, n);
    PathSumUnfolds(Shape(d), Clamped(d, Sequential(d)), order, m, n);
    forall c
      ensures LineOf(after, c) == Plus(LineOf(start, c), Gain(d, c, m, n))
    {
      GainUnfolds(d, c, order, m, n);
    }
  }
}
