/** emit in tools/gen_multichase_ring.py: the assembler lines of the arena, read back by following
    the pointers in the assembled image. */
module MultichaseLayout {
  import opened Arithmetic
  import opened FisherYates
  import opened MultichaseRing
  import opened MultichaseLinks
  import opened Options

  /** The lines between pointer_chase_arena and pointer_chase_arena_end. Quad(target) is the eight
      byte address of the byte at offset `target` in the arena. */
  datatype Line = Zero(count: nat) | Start | Quad(target: nat)

  datatype EmitError = NotPositive | BadStride | BytesNotStride | LocalityNotStride | Internal(error: RingError)

  function Size(lines: seq<Line>): nat {
    if lines == [] then 0 else
      Size(lines[..|lines| - 1]) +
      match lines[|lines| - 1] case Zero(count) => count case Start => 0 case Quad(_) => 8
  }

  /** The pointer stored at byte `address` of the assembled arena, if one starts there. */
  function Load(lines: seq<Line>, address: nat): Option<nat> {
    if lines == [] then None else
      var front, last := lines[..|lines| - 1], lines[|lines| - 1];
      if last.Quad? && address == Size(front) then Some(last.target) else Load(front, address)
  }

  /** The address of pointer_chase_start. */
  function StartAddress(lines: seq<Line>): Option<nat> {
    if lines == [] then None else
      var front, last := lines[..|lines| - 1], lines[|lines| - 1];
      if last.Start? then Some(Size(front)) else StartAddress(front)
  }

  /** Where `hops` loads, each from the address that the one before returned, lead. */
  function Chase(lines: seq<Line>, address: nat, hops: nat): Option<nat> {
    if hops == 0 then Some(address) else
      match Chase(lines, address, hops - 1)
      case None => None
      case Some(at) => Load(lines, at)
  }

  // ---- The emitted lines ----

  predicate Offsets(offsets: seq<nat>, stride: nat) {
    forall i :: 0 <= i < |offsets| ==> offsets[i] % 8 == 0 && offsets[i] + 8 <= stride
  }

  /** The address of a node's element. */
  function Base(node: nat, stride: nat): nat { node * stride }

  function Place(offsets: seq<nat>, stride: nat, node: nat): nat
    requires node < |offsets|
  {
    Base(node, stride) + offsets[node]
  }

  function Gap(count: nat): seq<Line> { if count > 0 then [Zero(count)] else [] }

  /** The lines of one node. */
  function Element(node: nat, successor: nat, offsets: seq<nat>, stride: nat): seq<Line>
    requires node < |offsets| && successor < |offsets| && Offsets(offsets, stride)
  {
    Gap(offsets[node]) + (if node == 0 then [Start] else []) +
    [Quad(Place(offsets, stride, successor))] + Gap(stride - offsets[node] - 8)
  }

  /** The lines of the first k nodes. */
  function Lines(links: seq<int>, offsets: seq<nat>, stride: nat, k: nat): seq<Line>
    requires k <= |links| == |offsets| && InRange(links, |links|) && Offsets(offsets, stride)
  {
    if k == 0 then [] else Lines(links, offsets, stride, k - 1) + Element(k - 1, links[k - 1], offsets, stride)
  }

  lemma {:induction false} SizeSnoc(lines: seq<Line>, last: Line)
    ensures Size(lines + [last]) == Size(lines) + match last case Zero(count) => count case Start => 0 case Quad(_) => 8
    ensures forall a: nat :: Load(lines + [last], a) ==
              if last.Quad? && a == Size(lines) then Some(last.target) else Load(lines, a)
    ensures StartAddress(lines + [last]) == if last.Start? then Some(Size(lines)) else StartAddress(lines)
  {
    assert (lines + [last])[..|lines|] == lines;
  }

  lemma {:induction false} GapAppended(lines: seq<Line>, count: nat)
    ensures Size(lines + Gap(count)) == Size(lines) + count
    ensures forall a: nat :: Load(lines + Gap(count), a) == Load(lines, a)
    ensures StartAddress(lines + Gap(count)) == StartAddress(lines)
  {
    SizeSnoc(lines, Zero(count));
    assert lines + [] == lines;
  }

  lemma StartAppended(lines: seq<Line>, first: bool)
    ensures var all := lines + (if first then [Start] else []);
            && Size(all) == Size(lines) && (forall a: nat :: Load(all, a) == Load(lines, a))
            && StartAddress(all) == if first then Some(Size(lines)) else StartAddress(lines)
  {
    SizeSnoc(lines, Start);
    assert lines + [] == lines;
  }

  /** The four parts of an element, added one after the other. */
  lemma ElementParts(lines: seq<Line>, node: nat, successor: nat, offsets: seq<nat>, stride: nat)
    returns (gap: seq<Line>, named: seq<Line>, stored: seq<Line>)
    requires node < |offsets| && successor < |offsets| && Offsets(offsets, stride)
    ensures gap == lines + Gap(offsets[node]) && named == gap + (if node == 0 then [Start] else [])
    ensures stored == named + [Quad(Place(offsets, stride, successor))] && offsets[node] + 8 <= stride
    ensures lines + Element(node, successor, offsets, stride) == stored + Gap(stride - offsets[node] - 8)
  {
    gap := lines + Gap(offsets[node]);
    named := gap + (if node == 0 then [Start] else []);
    stored := named + [Quad(Place(offsets, stride, successor))];
  }

  lemma {:induction false} ElementAppended(lines: seq<Line>, node: nat, successor: nat, offsets: seq<nat>, stride: nat)
    requires node < |offsets| && successor < |offsets| && Offsets(offsets, stride)
    requires Size(lines) == Base(node, stride)
    ensures var all := lines + Element(node, successor, offsets, stride);
            && Size(all) == Base(node, stride) + stride
            && (forall a: nat :: Load(all, a) ==
                  if a == Place(offsets, stride, node) then Some(Place(offsets, stride, successor)) else Load(lines, a))
            && StartAddress(all) == if node == 0 then Some(Place(offsets, stride, 0)) else StartAddress(lines)
  {
    hide Size, Load, StartAddress, Offsets, Gap, Element, Base;
    var gap, named, stored := ElementParts(lines, node, successor, offsets, stride);
    GapAppended(lines, offsets[node]);
    StartAppended(gap, node == 0);
    SizeSnoc(named, Quad(Place(offsets, stride, successor)));
    GapAppended(stored, stride - offsets[node] - 8);
  }

  /** The lines hold exactly the first k nodes, each at its place and pointing to its successor's. */
  ghost predicate Holds(lines: seq<Line>, links: seq<int>, offsets: seq<nat>, stride: nat, k: nat)
    requires k <= |links| == |offsets| && InRange(links, |links|)
  {
    && Size(lines) == Base(k, stride)
    && (forall i :: 0 <= i < k ==> Load(lines, Place(offsets, stride, i)) == Some(Place(offsets, stride, links[i])))
    && (k > 0 ==> StartAddress(lines) == Some(Place(offsets, stride, 0)))
  }

  lemma HoldsNext(lines: seq<Line>, links: seq<int>, offsets: seq<nat>, stride: nat, k: nat)
    requires k < |links| == |offsets| && InRange(links, |links|) && Offsets(offsets, stride)
    requires Holds(lines, links, offsets, stride, k)
    ensures Holds(lines + Element(k, links[k], offsets, stride), links, offsets, stride, k + 1)
  {
    hide Size, Load, StartAddress, Element, Place;
    ElementAppended(lines, k, links[k], offsets, stride);
    forall i | 0 <= i < k
      ensures Place(offsets, stride, i) != Place(offsets, stride, k)
    {
      PlacesDiffer(offsets, stride, i, k);
    }
    assert (k + 1) * stride == k * stride + stride;
  }

  lemma {:induction false} LinesHold(links: seq<int>, offsets: seq<nat>, stride: nat, k: nat)
    requires k <= |links| == |offsets| && InRange(links, |links|) && Offsets(offsets, stride)
    ensures Holds(Lines(links, offsets, stride, k), links, offsets, stride, k)
  {
    hide Offsets, Element, Place;
    if k > 0 {
      LinesHold(links, offsets, stride, k - 1);
      HoldsNext(Lines(links, offsets, stride, k - 1), links, offsets, stride, k - 1);
    }
  }

  lemma PlacesDiffer(offsets: seq<nat>, stride: nat, i: nat, j: nat)
    requires i < j < |offsets| && Offsets(offsets, stride)
    ensures Place(offsets, stride, i) + 8 <= Place(offsets, stride, j)
  {
    Times(i + 1, j, stride);
    assert (i + 1) * stride == i * stride + stride;
  }

  // ---- Following the pointers ----

  lemma {:induction false} ChaseFollows(lines: seq<Line>, links: seq<int>, offsets: seq<nat>, stride: nat, hops: nat)
    requires 0 < |links| == |offsets| && InRange(links, |links|)
    requires Holds(lines, links, offsets, stride, |links|)
    ensures Chase(lines, Place(offsets, stride, 0), hops) == Some(Place(offsets, stride, Follow(links, hops)))
  {
    hide Load, Place;
    if hops > 0 {
      ChaseFollows(lines, links, offsets, stride, hops - 1);
    }
  }

  /** Loading pointers from pointer_chase_start, `nodes` loads lead back there and fewer do not, and
      on the way every stride-sized element of the arena is visited exactly once. */
  ghost predicate ChasesAll(lines: seq<Line>, nodes: nat, stride: nat) {
    && Size(lines) == Base(nodes, stride)
    && StartAddress(lines).Some?
    && var start := StartAddress(lines).value;
       && Chase(lines, start, nodes) == Some(start)
       && (forall k :: 0 < k < nodes ==> Chase(lines, start, k) != Some(start))
       && (forall k :: 0 <= k < nodes ==> Chase(lines, start, k).Some?)
       && forall v :: 0 <= v < nodes ==> VisitedOnce(lines, start, nodes, v, stride)
  }

  ghost predicate VisitedOnce(lines: seq<Line>, start: nat, nodes: nat, v: nat, stride: nat) {
    exists k ::
      && 0 <= k < nodes && Visits(lines, start, k, v, stride)
      && forall j :: 0 <= j < nodes && j != k ==> !Visits(lines, start, j, v, stride)
  }

  /** After k loads the address lies in element v, aligned and with room for the pointer. */
  ghost predicate Visits(lines: seq<Line>, start: nat, k: nat, v: nat, stride: nat) {
    && Chase(lines, start, k).Some?
    && var at := Chase(lines, start, k).value;
       Base(v, stride) <= at && at + 8 <= Base(v, stride) + stride && (at - Base(v, stride)) % 8 == 0
  }

  lemma PlaceInside(offsets: seq<nat>, stride: nat, node: nat, v: nat)
    requires node < |offsets| && Offsets(offsets, stride)
    ensures var at := Place(offsets, stride, node);
            Base(v, stride) <= at && at + 8 <= Base(v, stride) + stride && (at - Base(v, stride)) % 8 == 0 <==> v == node
  {
    if v < node {
      Times(v + 1, node, stride);
      assert (v + 1) * stride == v * stride + stride;
    } else if node < v {
      Times(node + 1, v, stride);
      assert (node + 1) * stride == node * stride + stride;
    }
  }

  lemma {:induction false} VisitsFollow(lines: seq<Line>, links: seq<int>, offsets: seq<nat>, stride: nat, k: nat, v: nat)
    requires 0 < |links| == |offsets| && InRange(links, |links|) && Offsets(offsets, stride)
    requires Holds(lines, links, offsets, stride, |links|)
    ensures Visits(lines, Place(offsets, stride, 0), k, v, stride) <==> v == Follow(links, k)
  {
    ChaseFollows(lines, links, offsets, stride, k);
    PlaceInside(offsets, stride, Follow(links, k), v);
    hide Place, Holds, Offsets, Chase;
  }

  lemma RingVisitsOnce(lines: seq<Line>, links: seq<int>, offsets: seq<nat>, stride: nat, v: nat)
    requires 0 < |links| == |offsets| && OneRing(links) && Offsets(offsets, stride)
    requires Holds(lines, links, offsets, stride, |links|) && v < |links|
    ensures VisitedOnce(lines, Place(offsets, stride, 0), |links|, v, stride)
  {
    hide Holds, Place, Offsets, Visits, Follow;
    var i := RingMeets(links, v);
    forall j: nat | j < |links|
      ensures Visits(lines, Place(offsets, stride, 0), j, v, stride) <==> j == i
    {
      VisitsFollow(lines, links, offsets, stride, j, v);
      VisitsFollow(lines, links, offsets, stride, i, v);
      assert j < i ==> Follow(links, j) != Follow(links, i);
      assert i < j ==> Follow(links, i) != Follow(links, j);
    }
    assert Visits(lines, Place(offsets, stride, 0), i, v, stride);
  }

  lemma {:induction false} ChaseAway(lines: seq<Line>, links: seq<int>, offsets: seq<nat>, stride: nat, k: nat)
    requires 0 < |links| == |offsets| && OneRing(links) && Offsets(offsets, stride)
    requires Holds(lines, links, offsets, stride, |links|) && k <= |links|
    ensures var start := Place(offsets, stride, 0);
            Chase(lines, start, k).Some? && (0 < k < |links| <==> Chase(lines, start, k) != Some(start))
  {
    hide Holds, Place, Offsets, Chase;
    ChaseFollows(lines, links, offsets, stride, k);
    if 0 < k < |links| {
      assert Follow(links, 0) != Follow(links, k);
      PlacesDiffer(offsets, stride, 0, Follow(links, k));
    }
  }

  lemma RingChases(lines: seq<Line>, links: seq<int>, offsets: seq<nat>, stride: nat)
    requires 0 < |links| == |offsets| && OneRing(links) && Offsets(offsets, stride)
    requires Holds(lines, links, offsets, stride, |links|)
    ensures ChasesAll(lines, |links|, stride)
  {
    hide Place, Offsets, Chase, Load, Size, StartAddress, Visits, OneRing, VisitedOnce;
    forall k: nat | k <= |links|
      ensures var start := Place(offsets, stride, 0);
              Chase(lines, start, k).Some? && (0 < k < |links| <==> Chase(lines, start, k) != Some(start))
    {
      ChaseAway(lines, links, offsets, stride, k);
    }
    forall v: nat | v < |links|
      ensures VisitedOnce(lines, Place(offsets, stride, 0), |links|, v, stride)
    {
      RingVisitsOnce(lines, links, offsets, stride, v);
    }
  }

  lemma RingMeets(links: seq<int>, v: nat) returns (i: nat)
    requires OneRing(links) && v < |links|
    ensures i < |links| && Follow(links, i) == v
  {
    var walked := Walked(links, |links|);
    AllMet(walked, |links|, v);
    i := IndexOf(walked, v);
  }

  // ---- emit ----

  /** The pointer offsets within the elements: nodes further draws. */
  function OffsetsOf(raw: nat -> nat, at: nat, nodes: nat, slots: nat): (offsets: seq<nat>)
    requires slots > 0
    ensures |offsets| == nodes
  {
    if nodes == 0 then [] else
      OffsetsOf(raw, at, nodes - 1, slots) + [Draw(raw, at + nodes - 1, slots - 1) * 8]
  }

  lemma {:induction false} OffsetsFit(raw: nat -> nat, at: nat, nodes: nat, slots: nat)
    requires slots > 0
    ensures Offsets(OffsetsOf(raw, at, nodes, slots), slots * 8)
  {
    if nodes > 0 {
      OffsetsFit(raw, at, nodes - 1, slots);
    }
  }

  lemma PermutationInRange(order: seq<int>)
    requires Permutation(order, 0)
    ensures InRange(order, |order|)
  {
  }

  /** The lines for these sizes and this stream of draws. */
  function Emitted(raw: nat -> nat, at: nat, nodes: nat, per: nat, slots: nat): seq<Line>
    requires per > 0 && slots > 0
  {
    var order := OrderOf(raw, at, nodes, per);
    var offsets := OffsetsOf(raw, at + Groups(nodes, per) + nodes, nodes, slots);
    OrderPermutesByGroup(raw, at, nodes, per);
    OffsetsFit(raw, at + Groups(nodes, per) + nodes, nodes, slots);
    Lines(Links(order, nodes), offsets, slots * 8, nodes)
  }

  /** Whatever is drawn, the pointers form a single ring through the whole arena. */
  lemma EmittedChases(raw: nat -> nat, at: nat, nodes: nat, per: nat, slots: nat)
    requires nodes > 0 && per > 0 && slots > 0
    ensures ChasesAll(Emitted(raw, at, nodes, per, slots), nodes, slots * 8)
  {
    hide Links, OrderOf, OffsetsOf, Lines, Permutation, ChasesAll, Holds, Offsets, OneRing, Groups;
    var order := OrderOf(raw, at, nodes, per);
    var offsets := OffsetsOf(raw, at + Groups(nodes, per) + nodes, nodes, slots);
    OrderPermutesByGroup(raw, at, nodes, per);
    OffsetsFit(raw, at + Groups(nodes, per) + nodes, nodes, slots);
    PermutationInRange(order);
    PermutationRings(order);
    LinesHold(Links(order, nodes), offsets, slots * 8, nodes);
    RingChases(Emitted(raw, at, nodes, per, slots), Links(order, nodes), offsets, slots * 8);
  }

  lemma {:induction false} OffsetAt(raw: nat -> nat, at: nat, nodes: nat, slots: nat, v: nat)
    requires slots > 0 && v < nodes
    ensures OffsetsOf(raw, at, nodes, slots)[v] == Draw(raw, at + v, slots - 1) * 8
  {
    hide Draw;
    if v < nodes - 1 {
      OffsetAt(raw, at, nodes - 1, slots, v);
    }
  }

  /** Where the k-th load leads: to the node that lies k places behind node 0 in the drawn order, at the
      slot drawn for that node. */
  lemma {:induction false} EmittedVisits(raw: nat -> nat, at: nat, nodes: nat, per: nat, slots: nat, k: nat)
    requires 0 < nodes && per > 0 && slots > 0 && k <= nodes
    ensures var lines, order := Emitted(raw, at, nodes, per, slots), OrderOf(raw, at, nodes, per);
            && |order| == nodes && 0 in order && StartAddress(lines).Some?
            && var i := IndexOf(order, 0) + k;
               var v := order[if i < nodes then i else i - nodes];
               && 0 <= v < nodes
               && Chase(lines, StartAddress(lines).value, k) ==
                  Some(v * (slots * 8) + Draw(raw, at + Groups(nodes, per) + nodes + v, slots - 1) * 8)
  {
    hide Links, OrderOf, OffsetsOf, Lines, Offsets, Groups, Contiguous, Chase, StartAddress, Draw, Load, Size;
    var order := OrderOf(raw, at, nodes, per);
    var from := at + Groups(nodes, per) + nodes;
    var offsets := OffsetsOf(raw, from, nodes, slots);
    OrderPermutesByGroup(raw, at, nodes, per);
    OffsetsFit(raw, from, nodes, slots);
    PermutationInRange(order);
    LinesHold(Links(order, nodes), offsets, slots * 8, nodes);
    FollowOrder(order, k);
    var v := Follow(Links(order, nodes), k);
    ChaseFollows(Emitted(raw, at, nodes, per, slots), Links(order, nodes), offsets, slots * 8, k);
    OffsetAt(raw, from, nodes, slots, v);
  }

  predicate Positive(byteCount: int, stride: int, locality: int) { byteCount > 0 && stride > 0 && locality > 0 }

  /** The first complaint about the sizes, in the order in which they are checked. */
  function Complaint(byteCount: int, stride: int, locality: int): Option<EmitError> {
    if !Positive(byteCount, stride, locality) then Some(NotPositive)
    else if stride < 8 || stride % 8 != 0 then Some(BadStride)
    else if byteCount % stride != 0 then Some(BytesNotStride)
    else if locality % stride != 0 then Some(LocalityNotStride)
    else None
  }

  method DrawOffsets(nodes: nat, slots: nat, rng: Rng) returns (offsets: seq<nat>)
    requires slots > 0
    modifies rng
    ensures offsets == OffsetsOf(rng.raw, old(rng.drawn), nodes, slots)
  {
    hide Draw;
    offsets := [];
    for i := 0 to nodes
      invariant rng.drawn == old(rng.drawn) + i && offsets == OffsetsOf(rng.raw, old(rng.drawn), i, slots)
    {
      var slot := rng.Bounded(slots - 1);
      offsets := offsets + [slot * 8];
    }
  }

  /** The body of the loop over the nodes. */
  method WriteElement(lines: seq<Line>, node: nat, successor: nat, offsets: seq<nat>, stride: nat)
    returns (longer: seq<Line>)
    requires node < |offsets| && successor < |offsets| && Offsets(offsets, stride)
    ensures longer == lines + Element(node, successor, offsets, stride)
  {
    ghost var gap, named, stored := ElementParts(lines, node, successor, offsets, stride);
    hide Element, Offsets;
    longer := lines;
    if offsets[node] > 0 {
      longer := longer + [Zero(offsets[node])];
    }
    assert longer == gap;
    if node == 0 {
      longer := longer + [Start];
    }
    assert longer == named;
    longer := longer + [Quad(successor * stride + offsets[successor])];
    if stride - offsets[node] - 8 > 0 {
      longer := longer + [Zero(stride - offsets[node] - 8)];
    }
  }

  method WriteLines(successors: seq<int>, offsets: seq<nat>, stride: nat) returns (lines: seq<Line>)
    requires |successors| == |offsets| && InRange(successors, |successors|) && Offsets(offsets, stride)
    ensures lines == Lines(successors, offsets, stride, |successors|)
  {
    hide Offsets, Element;
    lines := [];
    for node := 0 to |successors|
      invariant lines == Lines(successors, offsets, stride, node)
    {
      lines := WriteElement(lines, node, successors[node], offsets, stride);
    }
  }

  /** emit writes its arena exactly for sizes without a complaint, and then it is a single ring;
      none of the internal errors is raised. */
  method Emit(byteCount: int, stride: int, locality: int, rng: Rng) returns (r: Result<seq<Line>, EmitError>)
    modifies rng
    ensures match Complaint(byteCount, stride, locality)
            case Some(error) => r == Failure(error)
            case None =>
              && r == Success(Emitted(rng.raw, old(rng.drawn), byteCount / stride, locality / stride, stride / 8))
              && ChasesAll(r.value, byteCount / stride, stride) && Size(r.value) == byteCount
  {
    if byteCount <= 0 || stride <= 0 || locality <= 0 {
      return Failure(NotPositive);
    }
    if stride < 8 || stride % 8 != 0 {
      return Failure(BadStride);
    }
    if byteCount % stride != 0 {
      return Failure(BytesNotStride);
    }
    if locality % stride != 0 {
      return Failure(LocalityNotStride);
    }
    Divides(byteCount, stride);
    Divides(locality, stride);
    Divides(stride, 8);
    hide ChasesAll;
    EmittedChases(rng.raw, rng.drawn, byteCount / stride, locality / stride, stride / 8);
    var lines := EmitRing(byteCount / stride, locality / stride, stride / 8, rng);
    ChasesSize(lines, byteCount / stride, stride);
    r := Success(lines);
  }

  /** The part of emit after the checks. */
  method EmitRing(nodes: nat, per: nat, slots: nat, rng: Rng) returns (lines: seq<Line>)
    requires per > 0 && slots > 0
    modifies rng
    ensures lines == Emitted(rng.raw, old(rng.drawn), nodes, per, slots)
  {
    hide Links, OrderOf, OffsetsOf, Lines, Permutation, Offsets, OneRing, Groups, Contiguous;
    OrderPermutesByGroup(rng.raw, rng.drawn, nodes, per);
    PermutationInRange(OrderOf(rng.raw, rng.drawn, nodes, per));
    var order := MakeOrder(nodes, per, rng);
    var successors := MakeSuccessors(order.value);
    OffsetsFit(rng.raw, rng.drawn, nodes, slots);
    var offsets := DrawOffsets(nodes, slots, rng);
    lines := WriteLines(successors.value[..], offsets, slots * 8);
  }

  lemma Divides(x: int, d: int)
    requires x > 0 && d > 0 && x % d == 0
    ensures x / d > 0 && x / d * d == x
  {
  }

  lemma {:induction false} ChasesSize(lines: seq<Line>, nodes: nat, stride: nat)
    requires ChasesAll(lines, nodes, stride)
    ensures Size(lines) == nodes * stride
  {
  }
}
