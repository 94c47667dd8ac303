/** make_successors in tools/gen_multichase_ring.py: the links of the ring and the walk that checks
    them. */
module MultichaseLinks {
  import opened FisherYates
  import opened MultichaseRing
  import opened Options

  predicate InRange(s: seq<int>, n: nat) { forall i :: 0 <= i < |s| ==> 0 <= s[i] < n }

  function After(order: seq<int>, i: nat): int
    requires i < |order|
  {
    order[if i + 1 == |order| then 0 else i + 1]
  }

  /** The links after the first k nodes of the order have been given their successors. */
  function Links(order: seq<int>, k: nat): (links: seq<int>)
    requires InRange(order, |order|) && k <= |order|
    ensures |links| == |order| && InRange(links, |order|)
  {
    if k == 0 then seq(|order|, _ => 0) else Links(order, k - 1)[order[k - 1] := After(order, k - 1)]
  }

  /** Where k steps from node 0 lead. */
  function Follow(links: seq<int>, k: nat): (node: int)
    requires InRange(links, |links|) && links != []
    ensures 0 <= node < |links|
  {
    if k == 0 then 0 else links[Follow(links, k - 1)]
  }

  /** The walk from node 0 returns after |links| steps and meets no node twice before that. */
  ghost predicate OneRing(links: seq<int>) {
    && InRange(links, |links|)
    && (links != [] ==> Follow(links, |links|) == 0)
    && forall i, j :: 0 <= i < j < |links| ==> Follow(links, i) != Follow(links, j)
  }

  ghost function Walked(links: seq<int>, k: nat): (s: seq<int>)
    requires InRange(links, |links|) && links != []
    ensures |s| == k && forall i :: 0 <= i < k ==> s[i] == Follow(links, i)
  {
    if k == 0 then [] else Walked(links, k - 1) + [Follow(links, k - 1)]
  }

  /** In one ring, every node is met, and every node has a predecessor on the walk. */
  lemma RingVisits(links: seq<int>, v: int) returns (k: nat)
    requires OneRing(links) && 0 <= v < |links|
    ensures k < |links| && links[Follow(links, k)] == v
  {
    var n := |links|;
    var walked := Walked(links, n);
    AllMet(walked, n, v);
    var i := IndexOf(walked, v);
    k := if i == 0 then n - 1 else i - 1;
  }

  lemma AllMet(s: seq<int>, n: nat, v: int)
    requires Distinct(s) && |s| == n && InRange(s, n) && 0 <= v < n
    ensures v in s
  {
    ElementsSize(s);
    hide Distinct;
    var rest := Below(n) - Elements(s);
    assert Below(n) == Elements(s) + rest;
    assert v !in s ==> v in rest;
  }

  // ---- A permutation links into one ring ----

  lemma {:induction false} LinksAt(order: seq<int>, k: nat, i: nat)
    requires Permutation(order, 0) && i < k <= |order|
    ensures Links(order, k)[order[i]] == After(order, i)
  {
    if i < k - 1 {
      LinksAt(order, k - 1, i);
    }
  }

  /** The walk follows the order, starting at the place of node 0. */
  lemma {:induction false} FollowOrder(order: seq<int>, k: nat)
    requires Permutation(order, 0) && 0 < |order| && k <= |order|
    ensures var start := IndexOf(order, 0);
            Follow(Links(order, |order|), k) == order[if start + k < |order| then start + k else start + k - |order|]
  {
    if k > 0 {
      var n, start := |order|, IndexOf(order, 0);
      FollowOrder(order, k - 1);
      var i := if start + k - 1 < n then start + k - 1 else start + k - 1 - n;
      LinksAt(order, n, i);
    }
  }

  lemma {:induction false} PermutationRings(order: seq<int>)
    requires Permutation(order, 0)
    ensures OneRing(Links(order, |order|))
  {
    var n := |order|;
    var links := Links(order, n);
    if n > 0 {
      FollowOrder(order, n);
      forall i, j | 0 <= i < j < n
        ensures Follow(links, i) != Follow(links, j)
      {
        FollowOrder(order, i);
        FollowOrder(order, j);
      }
    }
  }

  // ---- Only a permutation does ----

  lemma {:induction false} LinkSource(order: seq<int>, k: nat, u: int)
    requires InRange(order, |order|) && k <= |order| && 0 <= u < |order|
    ensures if u in order[..k] then Links(order, k)[u] in order else Links(order, k)[u] == 0
  {
    if k > 0 {
      LinkSource(order, k - 1, u);
      assert order[..k] == order[..k - 1] + [order[k - 1]];
    }
  }

  lemma {:induction false} ZeroListed(order: seq<int>)
    requires InRange(order, |order|) && OneRing(Links(order, |order|)) && order != []
    ensures 0 in order
  {
    hide Links;
    LinkSource(order, |order|, 0);
    WholePrefix(order);
    if |order| > 1 {
      ZeroMoves(Links(order, |order|));
    } else {
      assert order[0] == 0;
    }
  }

  lemma WholePrefix(s: seq<int>)
    ensures s[..|s|] == s
  {
  }

  lemma ZeroMoves(links: seq<int>)
    requires OneRing(links) && |links| > 1
    ensures links[0] != 0
  {
    assert Follow(links, 0) == 0 && Follow(links, 1) == links[0];
  }

  lemma {:induction false} RingLists(order: seq<int>, v: int)
    requires InRange(order, |order|) && OneRing(Links(order, |order|)) && 0 <= v < |order|
    ensures v in order
  {
    hide Links, OneRing, Follow;
    var k := RingVisits(Links(order, |order|), v);
    LinkSource(order, |order|, Follow(Links(order, |order|), k));
    ZeroListed(order);
  }

  lemma {:induction false} RingPermutes(order: seq<int>)
    requires InRange(order, |order|) && OneRing(Links(order, |order|))
    ensures Permutation(order, 0)
  {
    hide Links, OneRing;
    forall v | 0 <= v < |order|
      ensures v in order
    {
      RingLists(order, v);
    }
    CountDistinct(order, |order|);
  }

  lemma {:induction false} RingExactly(order: seq<int>)
    requires InRange(order, |order|)
    ensures OneRing(Links(order, |order|)) <==> Permutation(order, 0)
  {
    hide Links, OneRing, Permutation;
    if OneRing(Links(order, |order|)) { RingPermutes(order); }
    if Permutation(order, 0) { PermutationRings(order); }
  }

  /** The walk of the check, after `step` nodes. */
  ghost predicate Walking(links: seq<int>, step: nat, node: int, visited: set<int>) {
    && InRange(links, |links|) && step <= |links|
    && (links != [] ==> node == Follow(links, step))
    && (links == [] ==> node == 0)
    && |visited| == step
    && (forall v :: v in visited <==> exists i :: 0 <= i < step && Follow(links, i) == v)
    && forall i, j :: 0 <= i < j < step ==> Follow(links, i) != Follow(links, j)
  }

  lemma WalkOn(links: seq<int>, step: nat, node: int, visited: set<int>)
    requires Walking(links, step, node, visited) && step < |links|
    ensures 0 <= node < |links|
    ensures if node in visited then !OneRing(links) else Walking(links, step + 1, links[node], visited + {node})
  {
    if node in visited {
      WalkCloses(links, step, node, visited);
    } else {
      WalkContinues(links, step, node, visited);
    }
    hide Walking, OneRing;
  }

  lemma WalkCloses(links: seq<int>, step: nat, node: int, visited: set<int>)
    requires Walking(links, step, node, visited) && step < |links| && node in visited
    ensures !OneRing(links)
  {
  }

  lemma WalkContinues(links: seq<int>, step: nat, node: int, visited: set<int>)
    requires Walking(links, step, node, visited) && step < |links| && node !in visited && 0 <= node < |links|
    ensures Walking(links, step + 1, links[node], visited + {node})
  {
    assert Follow(links, step + 1) == links[node];
    hide Follow;
    assert Follow(links, step) in visited + {node};
  }

  lemma WalkEnds(links: seq<int>, node: int, visited: set<int>)
    requires Walking(links, |links|, node, visited)
    ensures OneRing(links) <==> node == 0 && |visited| == |links|
  {
  }

  lemma NextIndex(k: nat, n: nat)
    requires k < n
    ensures (k + 1) % n == if k + 1 == n then 0 else k + 1
  {
  }

  lemma LinkNext(order: seq<int>, k: nat)
    requires InRange(order, |order|) && k < |order|
    ensures 0 <= (k + 1) % |order| < |order|
    ensures Links(order, k + 1) == Links(order, k)[order[k] := order[(k + 1) % |order|]]
  {
    NextIndex(k, |order|);
    assert After(order, k) == order[(k + 1) % |order|];
    hide After;
  }

  /** The internal errors are raised exactly when the order is not a permutation, so never on an
      order from make_order. */
  method MakeSuccessors(order: seq<int>) returns (r: Result<array<int>, RingError>)
    requires InRange(order, |order|)
    ensures r.Success? <==> Permutation(order, 0)
    ensures r.Success? ==> fresh(r.value) && r.value[..] == Links(order, |order|) && OneRing(r.value[..])
  {
    hide OneRing, Permutation;
    var n := |order|;
    var successors := new int[n](_ => 0);
    for index := 0 to n
      invariant successors[..] == Links(order, index)
    {
      LinkNext(order, index);
      successors[order[index]] := order[(index + 1) % n];
    }
    hide Links;
    ghost var links := successors[..];
    RingExactly(order);
    var visited: set<int> := {};
    var node := 0;
    assert Walking(links, 0, 0, {});
    hide Walking;
    for step := 0 to n
      invariant successors[..] == links && |links| == n
      invariant Walking(links, step, node, visited)
    {
      WalkOn(links, step, node, visited);
      if node in visited {
        return Failure(ClosesEarly);
      }
      visited := visited + {node};
      node := successors[node];
    }
    WalkEnds(links, node, visited);
    if node != 0 || |visited| != n {
      return Failure(NotOneRing);
    }
    r := Success(successors);
  }
}
