/** The retained module hierarchy of the synthesis reports, and sums over all the instances below a
    module. */
module AreaGraph {
  /** The child modules of each module, one entry per instance. */
  type Hierarchy = map<string, seq<string>>

  function Children(h: Hierarchy, m: string): seq<string> { if m in h then h[m] else [] }

  /** The weights summed over every path of at most n edges that starts at m: once for each instance,
      however often a module is instantiated. */
  function PathSum(h: Hierarchy, f: string -> real, m: string, n: nat): real
    decreases n, 0
  {
    f(m) + if n == 0 then 0.0 else ListSum(h, f, Children(h, m), n - 1)
  }

  function ListSum(h: Hierarchy, f: string -> real, list: seq<string>, n: nat): real
    decreases n, |list|
  {
    if list == [] then 0.0
    else ListSum(h, f, list[..|list| - 1], n) + PathSum(h, f, list[|list| - 1], n)
  }

  function Ones(x: string): string -> real { m => if m == x then 1.0 else 0.0 }

  /** How many instances of x there are below m, m itself included. */
  function Instances(h: Hierarchy, m: string, x: string, n: nat): real { PathSum(h, Ones(x), m, n) }

  /** Each module's weight times its number of instances. */
  function Counted(h: Hierarchy, f: string -> real, m: string, n: nat, modules: seq<string>): real {
    if modules == [] then 0.0 else
      Counted(h, f, m, n, modules[..|modules| - 1]) +
      Instances(h, m, modules[|modules| - 1], n) * f(modules[|modules| - 1])
  }

  // ---- Order and cycles ----

  predicate Distinct(list: seq<string>) { forall i, j :: 0 <= i < j < |list| ==> list[i] != list[j] }

  /** Every child comes before its parent. */
  ghost predicate Ordered(h: Hierarchy, order: seq<string>) {
    forall i, c :: 0 <= i < |order| && c in Children(h, order[i]) ==> c in order[..i]
  }

  ghost predicate IsPath(h: Hierarchy, p: seq<string>) {
    forall i :: 0 <= i < |p| - 1 ==> p[i + 1] in Children(h, p[i])
  }

  ghost predicate IsCycle(h: Hierarchy, p: seq<string>) { |p| > 1 && p[0] == p[|p| - 1] && IsPath(h, p) }

  lemma PlaceOf(list: seq<string>, x: string) returns (i: nat)
    requires x in list
    ensures i < |list| && list[i] == x
  {
    i :| 0 <= i < |list| && list[i] == x;
  }

  /** Along a path, the places in an order only go down. */
  lemma {:induction false} PathDescends(h: Hierarchy, order: seq<string>, p: seq<string>, i: nat) returns (j: nat)
    requires Ordered(h, order) && Distinct(order) && IsPath(h, p) && |p| > 0 && i < |order| && order[i] == p[0]
    ensures j < |order| && order[j] == p[|p| - 1] && j + |p| - 1 <= i
    decreases |p|
  {
    if |p| == 1 {
      j := i;
    } else {
      assert p[1] in order[..i];
      var k := PlaceOf(order[..i], p[1]);
      assert p[1..][|p[1..]| - 1] == p[|p| - 1];
      j := PathDescends(h, order, p[1..], k);
    }
  }

  /** An ordered list contains no cycle. */
  lemma OrderedAcyclic(h: Hierarchy, order: seq<string>, p: seq<string>)
    requires Ordered(h, order) && Distinct(order) && IsCycle(h, p)
    ensures p[0] !in order
  {
    if p[0] in order {
      var i := PlaceOf(order, p[0]);
      var j := PathDescends(h, order, p, i);
    }
  }

  // ---- Sums on an ordered hierarchy ----

  lemma ChildBefore(h: Hierarchy, order: seq<string>, i: nat, c: string)
    requires Ordered(h, order) && i < |order| && c in Children(h, order[i])
    ensures c in order[..i]
  {
  }

  lemma {:induction false} Stable(h: Hierarchy, f: string -> real, order: seq<string>, i: nat, n: nat, k: nat)
    requires Ordered(h, order) && i < |order| && i <= n && i <= k
    ensures PathSum(h, f, order[i], n) == PathSum(h, f, order[i], k)
    decreases i, 1, 0
  {
    var list := Children(h, order[i]);
    if i == 0 {
      if list != [] {
        ChildBefore(h, order, i, list[0]);
      }
    } else {
      ListStable(h, f, order, i, list, n - 1, k - 1);
    }
  }

  lemma {:induction false} ListStable(h: Hierarchy, f: string -> real, order: seq<string>, i: nat, list: seq<string>,
                                      n: nat, k: nat)
    requires Ordered(h, order) && 0 < i <= |order| && i - 1 <= n && i - 1 <= k
    requires forall c :: c in list ==> c in order[..i]
    ensures ListSum(h, f, list, n) == ListSum(h, f, list, k)
    decreases i, 0, |list|
  {
    if list != [] {
      ListStable(h, f, order, i, list[..|list| - 1], n, k);
      var j := PlaceOf(order[..i], list[|list| - 1]);
      Stable(h, f, order, j, n, k);
    }
  }

  /** On an ordered hierarchy the sum is the module's own weight and the sums of its instances. */
  lemma {:induction false} PathSumUnfolds(h: Hierarchy, f: string -> real, order: seq<string>, m: string, n: nat)
    requires Ordered(h, order) && m in order && |order| <= n
    ensures PathSum(h, f, m, n) == f(m) + ListSum(h, f, Children(h, m), n)
  {
    var i := PlaceOf(order, m);
    Stable(h, f, order, i, n, n + 1);
  }

  // ---- Sums are linear ----

  lemma {:induction false} PathSumAdds(h: Hierarchy, f: string -> real, g: string -> real, s: string -> real, m: string,
                                       n: nat)
    requires forall x :: s(x) == f(x) + g(x)
    ensures PathSum(h, s, m, n) == PathSum(h, f, m, n) + PathSum(h, g, m, n)
    decreases n, 0
  {
    if n > 0 {
      ListSumAdds(h, f, g, s, Children(h, m), n - 1);
    }
  }

  lemma {:induction false} ListSumAdds(h: Hierarchy, f: string -> real, g: string -> real, s: string -> real,
                                       list: seq<string>, n: nat)
    requires forall x :: s(x) == f(x) + g(x)
    ensures ListSum(h, s, list, n) == ListSum(h, f, list, n) + ListSum(h, g, list, n)
    decreases n, |list|
  {
    if list != [] {
      ListSumAdds(h, f, g, s, list[..|list| - 1], n);
      PathSumAdds(h, f, g, s, list[|list| - 1], n);
    }
  }

  function Only(f: string -> real, list: seq<string>): string -> real { m => if m in list then f(m) else 0.0 }

  function Scaled(f: string -> real, k: real): string -> real { m => f(m) * k }

  lemma {:induction false} PathSumScales(h: Hierarchy, f: string -> real, k: real, m: string, n: nat)
    ensures PathSum(h, Scaled(f, k), m, n) == PathSum(h, f, m, n) * k
    decreases n, 0
  {
    if n > 0 {
      ListSumScales(h, f, k, Children(h, m), n - 1);
    }
  }

  lemma {:induction false} ListSumScales(h: Hierarchy, f: string -> real, k: real, list: seq<string>, n: nat)
    ensures ListSum(h, Scaled(f, k), list, n) == ListSum(h, f, list, n) * k
    decreases n, |list|
  {
    if list != [] {
      ListSumScales(h, f, k, list[..|list| - 1], n);
      PathSumScales(h, f, k, list[|list| - 1], n);
    }
  }

  lemma {:induction false} OnlyNone(h: Hierarchy, f: string -> real, m: string, n: nat)
    ensures PathSum(h, Only(f, []), m, n) == 0.0
  {
    PathSumScales(h, Only(f, []), 0.0, m, n);
    PathSumSame(h, Only(f, []), Scaled(Only(f, []), 0.0), m, n);
  }

  lemma {:induction false} OnlyMore(h: Hierarchy, f: string -> real, m: string, n: nat, front: seq<string>, x: string)
    requires x !in front
    ensures PathSum(h, Only(f, front + [x]), m, n) == PathSum(h, Only(f, front), m, n) + Instances(h, m, x, n) * f(x)
  {
    PathSumScales(h, Ones(x), f(x), m, n);
    PathSumAdds(h, Only(f, front), Scaled(Ones(x), f(x)), Only(f, front + [x]), m, n);
    hide PathSum;
  }

  lemma {:induction false} CountedOnly(h: Hierarchy, f: string -> real, m: string, n: nat, modules: seq<string>)
    requires Distinct(modules)
    ensures PathSum(h, Only(f, modules), m, n) == Counted(h, f, m, n, modules)
    decreases |modules|
  {
    hide PathSum, Only, Instances;
    if modules == [] {
      OnlyNone(h, f, m, n);
    } else {
      var front, x := modules[..|modules| - 1], modules[|modules| - 1];
      CountedOnly(h, f, m, n, front);
      assert modules == front + [x];
      OnlyMore(h, f, m, n, front, x);
    }
  }

  predicate Closed(h: Hierarchy, modules: seq<string>) {
    forall m, c :: m in modules && c in Children(h, m) ==> c in modules
  }

  lemma {:induction false} PathSumClosed(h: Hierarchy, f: string -> real, m: string, n: nat, modules: seq<string>)
    requires Closed(h, modules) && m in modules
    ensures PathSum(h, f, m, n) == PathSum(h, Only(f, modules), m, n)
    decreases n, 0
  {
    if n > 0 {
      ListSumClosed(h, f, Children(h, m), n - 1, modules);
    }
  }

  lemma {:induction false} ListSumClosed(h: Hierarchy, f: string -> real, list: seq<string>, n: nat, modules: seq<string>)
    requires Closed(h, modules) && forall c :: c in list ==> c in modules
    ensures ListSum(h, f, list, n) == ListSum(h, Only(f, modules), list, n)
    decreases n, |list|
  {
    if list != [] {
      ListSumClosed(h, f, list[..|list| - 1], n, modules);
      PathSumClosed(h, f, list[|list| - 1], n, modules);
    }
  }

  /** Over a closed list of modules, summing along paths is the same as counting instances. */
  lemma {:induction false} PathSumCounts(h: Hierarchy, f: string -> real, m: string, n: nat, modules: seq<string>)
    requires Distinct(modules) && Closed(h, modules) && m in modules
    ensures PathSum(h, f, m, n) == Counted(h, f, m, n, modules)
  {
    PathSumClosed(h, f, m, n, modules);
    CountedOnly(h, f, m, n, modules);
  }

  lemma {:induction false} PathSumSame(h: Hierarchy, f: string -> real, g: string -> real, m: string, n: nat)
    requires forall x :: f(x) == g(x)
    ensures PathSum(h, f, m, n) == PathSum(h, g, m, n)
    decreases n, 0
  {
    if n > 0 {
      ListSumSame(h, f, g, Children(h, m), n - 1);
    }
  }

  lemma {:induction false} ListSumSame(h: Hierarchy, f: string -> real, g: string -> real, list: seq<string>, n: nat)
    requires forall x :: f(x) == g(x)
    ensures ListSum(h, f, list, n) == ListSum(h, g, list, n)
    decreases n, |list|
  {
    if list != [] {
      ListSumSame(h, f, g, list[..|list| - 1], n);
      PathSumSame(h, f, g, list[|list| - 1], n);
    }
  }

  lemma {:induction false} PathSumNonnegative(h: Hierarchy, f: string -> real, m: string, n: nat)
    requires forall x :: f(x) >= 0.0
    ensures PathSum(h, f, m, n) >= 0.0
    decreases n, 0
  {
    if n > 0 {
      ListSumNonnegative(h, f, Children(h, m), n - 1);
    }
  }

  lemma {:induction false} ListSumNonnegative(h: Hierarchy, f: string -> real, list: seq<string>, n: nat)
    requires forall x :: f(x) >= 0.0
    ensures ListSum(h, f, list, n) >= 0.0
    decreases n, |list|
  {
    if list != [] {
      ListSumNonnegative(h, f, list[..|list| - 1], n);
      PathSumNonnegative(h, f, list[|list| - 1], n);
    }
  }

  /** Only the weights of the modules in the order matter below a module of the order. */
  lemma {:induction false} PathSumAgrees(h: Hierarchy, f: string -> real, g: string -> real, order: seq<string>, m: string,
                                         n: nat)
    requires Closed(h, order) && m in order && forall x :: x in order ==> f(x) == g(x)
    ensures PathSum(h, f, m, n) == PathSum(h, g, m, n)
    decreases n, 0
  {
    if n > 0 {
      ListSumAgrees(h, f, g, order, Children(h, m), n - 1);
    }
  }

  lemma {:induction false} ListSumAgrees(h: Hierarchy, f: string -> real, g: string -> real, order: seq<string>,
                                         list: seq<string>, n: nat)
    requires Closed(h, order) && (forall c :: c in list ==> c in order) && forall x :: x in order ==> f(x) == g(x)
    ensures ListSum(h, f, list, n) == ListSum(h, g, list, n)
    decreases n, |list|
  {
    if list != [] {
      ListSumAgrees(h, f, g, order, list[..|list| - 1], n);
      PathSumAgrees(h, f, g, order, list[|list| - 1], n);
    }
  }
}
