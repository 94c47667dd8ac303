/** make_order and make_successors in tools/gen_multichase_ring.py. */
module MultichaseRing {
  import opened Arithmetic
  import opened FisherYates
  import opened Options

  datatype RingError = OrderNotPermutation | ClosesEarly | NotOneRing

  // ---- make_order ----

  function Groups(nodes: nat, per: nat): nat
    requires per > 0
  {
    (nodes + per - 1) / per
  }

  /** The first node of group g. */
  function GroupStart(g: int, per: nat): int { g * per }

  predicate InGroup(v: int, g: int, per: nat) { GroupStart(g, per) <= v < GroupStart(g, per) + per }

  function GroupSize(nodes: nat, g: int, per: nat): int {
    if per <= nodes - GroupStart(g, per) then per else nodes - GroupStart(g, per)
  }

  lemma GroupBase(nodes: nat, per: nat, g: int)
    requires per > 0 && 0 <= g < Groups(nodes, per)
    ensures 0 <= GroupStart(g, per) < nodes && 0 < GroupSize(nodes, g, per)
  {
    var d := Groups(nodes, per);
    assert d * per <= nodes + per - 1;
    assert (g + 1) * per <= d * per;
    assert (g + 1) * per == g * per + per;
  }

  lemma GroupOf(nodes: nat, per: nat, v: int)
    requires per > 0 && 0 <= v < nodes
    ensures 0 <= v / per < Groups(nodes, per) && InGroup(v, v / per, per)
  {
    var q := v / per;
    assert v == q * per + v % per;
    var d := Groups(nodes, per);
    assert nodes + per - 1 == d * per + (nodes + per - 1) % per;
    if d <= q {
      Times(d, q, per);
    }
  }

  lemma GroupsApart(g: int, h: int, per: nat)
    requires g < h
    ensures g * per + per <= h * per
  {
    Times(g + 1, h, per);
    assert (g + 1) * per == g * per + per;
  }

  lemma OneGroup(v: int, g: int, h: int, per: nat)
    requires InGroup(v, g, per) && InGroup(v, h, per)
    ensures g == h
  {
    if g < h {
      GroupsApart(g, h, per);
    } else if h < g {
      GroupsApart(h, g, per);
    }
  }

  predicate GroupList(groups: seq<int>, nodes: nat, per: nat)
    requires per > 0
  {
    forall i :: 0 <= i < |groups| ==> 0 <= groups[i] < Groups(nodes, per)
  }

  lemma GroupInList(groups: seq<int>, nodes: nat, per: nat, m: nat)
    requires per > 0 && GroupList(groups, nodes, per) && m < |groups|
    ensures 0 <= groups[m] < Groups(nodes, per) && GroupSize(nodes, groups[m], per) > 0
  {
    GroupBase(nodes, per, groups[m]);
  }

  /** The nodes of the first m listed groups, each group shuffled with the next draws. */
  function Extended(raw: nat -> nat, at: nat, nodes: nat, per: nat, groups: seq<int>, m: nat): (order: seq<int>)
    requires per > 0 && GroupList(groups, nodes, per) && m <= |groups|
  {
    if m == 0 then [] else
      var before := Extended(raw, at, nodes, per, groups, m - 1);
      var g := groups[m - 1];
      GroupBase(nodes, per, g);
      before + Shuffle(Draws(raw, at + |before|, GroupSize(nodes, g, per)), GroupStart(g, per))
  }

  lemma {:induction false} GroupsInRange(raw: nat -> nat, at: nat, nodes: nat, per: nat)
    requires per > 0
    ensures GroupList(Shuffle(Draws(raw, at, Groups(nodes, per)), 0), nodes, per)
  {
    ShufflePermutes(Draws(raw, at, Groups(nodes, per)), 0);
  }

  /** The order that make_order computes from the stream, starting at position `at`. */
  function OrderOf(raw: nat -> nat, at: nat, nodes: nat, per: nat): seq<int>
    requires per > 0
  {
    var count := Groups(nodes, per);
    GroupsInRange(raw, at, nodes, per);
    Extended(raw, at + count, nodes, per, Shuffle(Draws(raw, at, count), 0), count)
  }

  /** rank[i] says which of the first m groups the node at i came from. */
  ghost predicate Ranked(order: seq<int>, groups: seq<int>, m: nat, per: nat, rank: seq<nat>)
    requires m <= |groups|
  {
    && |rank| == |order|
    && (forall i :: 0 <= i < |order| ==> rank[i] < m && InGroup(order[i], groups[rank[i]], per))
    && (forall i, j :: 0 <= i <= j < |order| ==> rank[i] <= rank[j])
  }

  ghost predicate Covers(order: seq<int>, groups: seq<int>, m: nat, nodes: nat, per: nat)
    requires m <= |groups|
  {
    && Distinct(order)
    && (forall i :: 0 <= i < |order| ==> 0 <= order[i] < nodes)
    && (forall k, v :: 0 <= k < m && InGroup(v, groups[k], per) && 0 <= v < nodes ==> v in order)
  }

  lemma ExtendRanked(order: seq<int>, more: seq<int>, groups: seq<int>, m: nat, nodes: nat, per: nat, rank: seq<nat>)
    returns (longer: seq<nat>)
    requires per > 0 && m < |groups| && Distinct(groups) && GroupList(groups, nodes, per)
    requires Ranked(order, groups, m, per, rank) && Covers(order, groups, m, nodes, per)
    requires |more| == GroupSize(nodes, groups[m], per) && Permutation(more, GroupStart(groups[m], per))
    ensures Ranked(order + more, groups, m + 1, per, longer)
    ensures Covers(order + more, groups, m + 1, nodes, per)
  {
    longer := rank + seq(|more|, _ => m);
    GroupBase(nodes, per, groups[m]);
    forall i | 0 <= i < |order|
      ensures order[i] !in more
    {
      if order[i] in more {
        OneGroup(order[i], groups[rank[i]], groups[m], per);
      }
    }
    forall k, v | 0 <= k < m + 1 && InGroup(v, groups[k], per) && 0 <= v < nodes
      ensures v in order + more
    {
      if k < m {
        assert v in order;
      } else {
        assert v in more;
      }
    }
  }

  lemma ExtendedNext(raw: nat -> nat, at: nat, nodes: nat, per: nat, groups: seq<int>, m: nat)
    returns (more: seq<int>)
    requires per > 0 && m < |groups| && GroupList(groups, nodes, per)
    ensures |more| == GroupSize(nodes, groups[m], per) && Permutation(more, GroupStart(groups[m], per))
    ensures Extended(raw, at, nodes, per, groups, m + 1) == Extended(raw, at, nodes, per, groups, m) + more
  {
    hide Groups, GroupSize, GroupList, Permutation, Shuffle, Draws, GroupStart;
    GroupInList(groups, nodes, per, m);
    var draws := Draws(raw, at + |Extended(raw, at, nodes, per, groups, m)|, GroupSize(nodes, groups[m], per));
    more := Shuffle(draws, GroupStart(groups[m], per));
    ShufflePermutes(draws, GroupStart(groups[m], per));
  }

  lemma {:induction false} NoneRanked(raw: nat -> nat, at: nat, nodes: nat, per: nat, groups: seq<int>)
    requires per > 0 && GroupList(groups, nodes, per)
    ensures var order := Extended(raw, at, nodes, per, groups, 0);
            Ranked(order, groups, 0, per, []) && Covers(order, groups, 0, nodes, per)
  {
  }

  lemma {:induction false} ExtendedRanked(raw: nat -> nat, at: nat, nodes: nat, per: nat, groups: seq<int>, m: nat)
    returns (rank: seq<nat>)
    requires per > 0 && m <= |groups| && Distinct(groups) && GroupList(groups, nodes, per)
    ensures var order := Extended(raw, at, nodes, per, groups, m);
            Ranked(order, groups, m, per, rank) && Covers(order, groups, m, nodes, per)
  {
    hide Covers, Ranked, GroupSize, GroupList, Permutation, GroupStart, Distinct, Extended;
    if m == 0 {
      rank := [];
      NoneRanked(raw, at, nodes, per, groups);
    } else {
      rank := ExtendedRanked(raw, at, nodes, per, groups, m - 1);
      var more := ExtendedNext(raw, at, nodes, per, groups, m - 1);
      rank := ExtendRanked(Extended(raw, at, nodes, per, groups, m - 1), more, groups, m - 1, nodes, per, rank);
    }
  }

  ghost predicate Contiguous(order: seq<int>, per: nat) {
    forall i, j, k, g :: 0 <= i <= j <= k < |order| && InGroup(order[i], g, per) && InGroup(order[k], g, per) ==>
      InGroup(order[j], g, per)
  }

  lemma RankedContiguous(order: seq<int>, groups: seq<int>, per: nat, rank: seq<nat>)
    requires Distinct(groups) && Ranked(order, groups, |groups|, per, rank)
    ensures Contiguous(order, per)
  {
    forall i, j, k, g | 0 <= i <= j <= k < |order| && InGroup(order[i], g, per) && InGroup(order[k], g, per)
      ensures InGroup(order[j], g, per)
    {
      OneGroup(order[i], g, groups[rank[i]], per);
      OneGroup(order[k], g, groups[rank[k]], per);
      assert rank[i] <= rank[j] <= rank[k];
    }
  }

  lemma CoversAll(order: seq<int>, groups: seq<int>, nodes: nat, per: nat)
    requires per > 0 && |groups| == Groups(nodes, per) && Permutation(groups, 0)
    requires Covers(order, groups, |groups|, nodes, per)
    ensures |order| == nodes && Permutation(order, 0)
  {
    forall v | 0 <= v < nodes
      ensures v in order
    {
      GroupOf(nodes, per, v);
      assert v / per in groups;
    }
    CountDistinct(order, nodes);
  }

  /** Whatever is drawn, the order lists every node once, and the nodes of a locality group follow
      one another without a gap. */
  lemma OrderPermutesByGroup(raw: nat -> nat, at: nat, nodes: nat, per: nat)
    requires per > 0
    ensures var order := OrderOf(raw, at, nodes, per);
            |order| == nodes && Permutation(order, 0) && Contiguous(order, per)
  {
    hide Groups, Shuffle, Extended, Draws, Ranked, Covers, Contiguous, GroupList;
    var draws := Draws(raw, at, Groups(nodes, per));
    ShufflePermutes(draws, 0);
    GroupsInRange(raw, at, nodes, per);
    var groups := Shuffle(draws, 0);
    var rank := ExtendedRanked(raw, at + |groups|, nodes, per, groups, |groups|);
    RankedContiguous(OrderOf(raw, at, nodes, per), groups, per, rank);
    CoversAll(OrderOf(raw, at, nodes, per), groups, nodes, per);
  }

  // ---- Counting ----

  ghost function Below(n: nat): (b: set<int>)
    ensures |b| == n
    ensures forall v :: v in b <==> 0 <= v < n
  {
    if n == 0 then {} else Below(n - 1) + {n - 1}
  }

  ghost function Elements(s: seq<int>): set<int> { set v | v in s }

  lemma {:induction false} ElementsSize(s: seq<int>)
    ensures |Elements(s)| <= |s|
    ensures |Elements(s)| == |s| <==> Distinct(s)
  {
    if s != [] {
      var n := |s| - 1;
      ElementsSize(s[..n]);
      assert s == s[..n] + [s[n]];
      assert Elements(s) == Elements(s[..n]) + {s[n]};
      if s[n] in s[..n] {
        assert Elements(s) == Elements(s[..n]);
      }
    }
  }

  lemma CountDistinct(s: seq<int>, n: nat)
    requires forall v :: 0 <= v < n ==> v in s
    requires forall i :: 0 <= i < |s| ==> 0 <= s[i] < n
    ensures Distinct(s) <==> |s| == n
  {
    assert Elements(s) == Below(n);
    ElementsSize(s);
  }

  // ---- The method and its internal check ----

  function Range(n: nat): seq<int> {
    if n == 0 then [] else Range(n - 1) + [n - 1]
  }

  lemma {:induction false} RangeCounts(n: nat, v: int)
    ensures |Range(n)| == n && multiset(Range(n))[v] == if 0 <= v < n then 1 else 0
  {
    if n > 0 {
      RangeCounts(n - 1, v);
    }
  }

  lemma {:induction false} DistinctCounts(s: seq<int>, v: int)
    requires Distinct(s)
    ensures multiset(s)[v] == if v in s then 1 else 0
  {
    if s != [] {
      var n := |s| - 1;
      DistinctCounts(s[..n], v);
      assert s == s[..n] + [s[n]];
      assert multiset(s) == multiset(s[..n]) + multiset{s[n]};
    }
  }

  /** A permutation sorts to 0 .. n - 1. */
  lemma {:induction false} PermutationSorts(p: seq<int>)
    requires Permutation(p, 0)
    ensures multiset(p) == multiset(Range(|p|))
  {
    forall v
      ensures multiset(p)[v] == multiset(Range(|p|))[v]
    {
      DistinctCounts(p, v);
      RangeCounts(|p|, v);
    }
  }

  lemma {:induction false} OrderSorts(raw: nat -> nat, at: nat, nodes: nat, per: nat)
    requires per > 0
    ensures multiset(OrderOf(raw, at, nodes, per)) == multiset(Range(nodes)) && |OrderOf(raw, at, nodes, per)| == nodes
  {
    OrderPermutesByGroup(raw, at, nodes, per);
    hide OrderOf, Contiguous;
    PermutationSorts(OrderOf(raw, at, nodes, per));
  }

  /** The first internal error cannot be raised. */
  method MakeOrder(nodes: nat, per: nat, rng: Rng) returns (r: Result<seq<int>, RingError>)
    requires per > 0
    modifies rng
    ensures r == Success(OrderOf(rng.raw, old(rng.drawn), nodes, per))
    ensures rng.drawn == old(rng.drawn) + Groups(nodes, per) + nodes
  {
    hide Shuffle, Draws, Draw, Groups, GroupList, Permutation, Range;
    ghost var at := rng.drawn;
    var groups := Groups(nodes, per);
    GroupsInRange(rng.raw, at, nodes, per);
    var list := RandomPermutation(groups, 0, rng);
    var groupOrder := list[..];
    var order: seq<int> := [];
    for m := 0 to groups
      invariant order == Extended(rng.raw, at + groups, nodes, per, groupOrder, m)
      invariant rng.drawn == at + groups + |order|
    {
      var g := groupOrder[m];
      GroupInList(groupOrder, nodes, per, m);
      var part := RandomPermutation(GroupSize(nodes, g, per), GroupStart(g, per), rng);
      order := order + part[..];
    }
    OrderSorts(rng.raw, at, nodes, per);
    if multiset(order) != multiset(Range(nodes)) {
      return Failure(OrderNotPermutation);
    }
    r := Success(order);
  }
}
