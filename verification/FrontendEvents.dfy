/** FrontendBreakdown in tb/verilator_checkpoint_main.cpp: what becomes of each predicted redirect, and
    which bucket each empty cycle falls into. The signals of one cycle are arbitrary. */
module FrontendEvents {
  datatype Source = ResidentFetchLine | AlternateFal | L1iHit | L1iMiss | TranslationPtw | ChainedRedirect

  datatype Fate = Waiting | Delivered(source: Source, bubbles: nat) | SupersededByControl | SupersededByPrediction

  datatype Recovery = NoRecovery | PredictedRedirect | DirectionRedirect | ControlFlush

  /** Why the frontend was empty, when it was not recovering. */
  datatype Causes = Causes(barrier: bool, ptw: bool, l1i: bool, uncached: bool, translate: bool, backpressure: bool,
                           complete: bool, pendingAny: bool, currentSector: bool, laneFound: bool, active: bool)

  /** targetValid, alternate, delayed and missed are about the pending target; resident and the rest about
      a new one. */
  datatype Signals = Signals(cycle: nat, predicted: bool, direction: bool, flush: bool, controlRedirect: bool,
                             targetValid: bool, alternate: bool, delayed: bool, missed: bool, resident: bool,
                             empty: bool, causes: Causes)

  datatype Target = Target(valid: bool, chained: bool, resident: bool, delayed: bool, missed: bool, start: nat)

  const LATENCY_BUCKETS := 6
  const EMPTY_BUCKETS := 15
  const EXACT_BUCKETS := 9

  function LatencyBucket(bubbles: nat): (b: nat)
    ensures b < LATENCY_BUCKETS
  {
    if bubbles <= 3 then bubbles else if bubbles <= 7 then 4 else 5
  }

  function ExactBucket(bubbles: nat): (b: nat)
    ensures b < EXACT_BUCKETS
  {
    if bubbles <= 7 then bubbles else 8
  }

  function SourceIndex(s: Source): (i: nat)
    ensures i < 6
  {
    match s
    case ResidentFetchLine => 0 case AlternateFal => 1 case L1iHit => 2
    case L1iMiss => 3 case TranslationPtw => 4 case ChainedRedirect => 5
  }

  /** The first that applies. */
  function SourceOf(t: Target, s: Signals): Source {
    if t.chained then ChainedRedirect
    else if t.resident then ResidentFetchLine
    else if s.alternate then AlternateFal
    else if t.delayed then TranslationPtw
    else if t.missed then L1iMiss
    else L1iHit
  }

  function Bubbles(t: Target, cycle: nat): nat { if cycle <= t.start + 1 then 0 else cycle - t.start - 1 }

  function Observed(t: Target, s: Signals): Target { t.(delayed := t.delayed || s.delayed, missed := t.missed || s.missed) }

  // ---- What becomes of the events ----

  /** The fate that this cycle gives the pending target, before new redirects are looked at. */
  function Resolution(t: Target, s: Signals): Fate {
    if s.targetValid then Delivered(SourceOf(Observed(t, s), s), Bubbles(t, s.cycle))
    else if s.flush || s.controlRedirect then SupersededByControl
    else Waiting
  }

  /** The pending target after this cycle: it keeps what it has observed until it is replaced. */
  function NextPending(t: Target, s: Signals): Target {
    var resolved := t.valid && !Resolution(t, s).Waiting?;
    if s.predicted then Target(true, t.valid && (s.targetValid || !resolved), s.resident, false, false, s.cycle)
    else if t.valid then Observed(t, s).(valid := !resolved)
    else t
  }

  function PendingAfter(t: Target, cycles: seq<Signals>): Target {
    if cycles == [] then t else NextPending(PendingAfter(t, cycles[..|cycles| - 1]), cycles[|cycles| - 1])
  }

  ghost predicate AnyDelayed(cycles: seq<Signals>) { exists s :: s in cycles && s.delayed }

  ghost predicate AnyMissed(cycles: seq<Signals>) { exists s :: s in cycles && s.missed }

  predicate Quiet(s: Signals) { !s.predicted && !s.targetValid && !s.flush && !s.controlRedirect }

  /** A target that waits remembers whether any cycle since its prediction delayed it or missed. */
  lemma {:induction false} PendingRemembers(t: Target, cycles: seq<Signals>)
    requires t.valid && forall s :: s in cycles ==> Quiet(s)
    ensures PendingAfter(t, cycles) ==
              t.(delayed := t.delayed || AnyDelayed(cycles), missed := t.missed || AnyMissed(cycles))
  {
    if cycles != [] {
      var last := |cycles| - 1;
      PendingRemembers(t, cycles[..last]);
      assert cycles == cycles[..last] + [cycles[last]];
      assert AnyDelayed(cycles) <==> AnyDelayed(cycles[..last]) || cycles[last].delayed;
      assert AnyMissed(cycles) <==> AnyMissed(cycles[..last]) || cycles[last].missed;
      assert Quiet(cycles[last]);
    }
  }

  function Replaced(fates: seq<Fate>, f: Fate): seq<Fate>
    requires fates != []
  {
    fates[..|fates| - 1] + [f]
  }

  /** The fates after this cycle; only the latest event can still be waiting. */
  function NextFates(fates: seq<Fate>, t: Target, s: Signals): seq<Fate>
    requires t.valid ==> fates != []
  {
    var resolved := if t.valid then Replaced(fates, Resolution(t, s)) else fates;
    if !s.predicted then resolved
    else if t.valid && Resolution(t, s).Waiting? then Replaced(resolved, SupersededByPrediction) + [Waiting]
    else resolved + [Waiting]
  }

  function Tally(fates: seq<Fate>, p: Fate -> bool): nat {
    if fates == [] then 0 else Tally(fates[..|fates| - 1], p) + if p(fates[|fates| - 1]) then 1 else 0
  }

  lemma {:induction false} TallyLast(fates: seq<Fate>, p: Fate -> bool, f: Fate)
    ensures Tally(fates + [f], p) == Tally(fates, p) + if p(f) then 1 else 0
  {
    assert (fates + [f])[..|fates|] == fates;
  }

  function IsDelivered(): Fate -> bool { (f: Fate) => f.Delivered? }
  function IsControl(): Fate -> bool { (f: Fate) => f.SupersededByControl? }
  function IsPrediction(): Fate -> bool { (f: Fate) => f.SupersededByPrediction? }
  function IsWaiting(): Fate -> bool { (f: Fate) => f.Waiting? }
  function InBucket(b: nat): Fate -> bool { (f: Fate) => f.Delivered? && LatencyBucket(f.bubbles) == b }
  function FromSource(s: nat): Fate -> bool { (f: Fate) => f.Delivered? && SourceIndex(f.source) == s }
  function FromInBucket(s: nat, b: nat): Fate -> bool { (f: Fate) => FromSource(s)(f) && InBucket(b)(f) }
  function HitExactly(k: nat): Fate -> bool { (f: Fate) => f.Delivered? && f.source.L1iHit? && ExactBucket(f.bubbles) == k }

  /** Every event is delivered, superseded in one of the two ways, or waiting. */
  lemma {:induction false} FatesAddUp(fates: seq<Fate>)
    ensures |fates| == Tally(fates, IsDelivered()) + Tally(fates, IsControl()) + Tally(fates, IsPrediction()) +
                       Tally(fates, IsWaiting())
  {
    if fates != [] {
      FatesAddUp(fates[..|fates| - 1]);
    }
  }

  function Sum(counts: seq<nat>): nat { if counts == [] then 0 else Sum(counts[..|counts| - 1]) + counts[|counts| - 1] }

  lemma {:induction false} SumIncremented(counts: seq<nat>, k: nat)
    requires k < |counts|
    ensures Sum(counts[k := counts[k] + 1]) == Sum(counts) + 1
  {
    var last := |counts| - 1;
    if k < last {
      SumIncremented(counts[..last], k);
      assert counts[k := counts[k] + 1][..last] == counts[..last][k := counts[k] + 1];
    } else {
      assert counts[k := counts[k] + 1][..last] == counts[..last];
    }
  }

  /** The latency histogram adds up to the deliveries. */
  lemma {:induction false} LatenciesAddUp(fates: seq<Fate>)
    ensures Tally(fates, IsDelivered()) ==
              Tally(fates, InBucket(0)) + Tally(fates, InBucket(1)) + Tally(fates, InBucket(2)) +
              Tally(fates, InBucket(3)) + Tally(fates, InBucket(4)) + Tally(fates, InBucket(5))
  {
    if fates != [] {
      LatenciesAddUp(fates[..|fates| - 1]);
    }
  }

  /** Each source's histogram adds up to its deliveries, and each bucket's sources to the bucket. */
  lemma {:induction false} SourcesAddUp(fates: seq<Fate>, s: nat, b: nat)
    requires s < 6 && b < LATENCY_BUCKETS
    ensures Tally(fates, FromSource(s)) ==
              Tally(fates, FromInBucket(s, 0)) + Tally(fates, FromInBucket(s, 1)) + Tally(fates, FromInBucket(s, 2)) +
              Tally(fates, FromInBucket(s, 3)) + Tally(fates, FromInBucket(s, 4)) + Tally(fates, FromInBucket(s, 5))
    ensures Tally(fates, InBucket(b)) ==
              Tally(fates, FromInBucket(0, b)) + Tally(fates, FromInBucket(1, b)) + Tally(fates, FromInBucket(2, b)) +
              Tally(fates, FromInBucket(3, b)) + Tally(fates, FromInBucket(4, b)) + Tally(fates, FromInBucket(5, b))
  {
    if fates != [] {
      SourcesAddUp(fates[..|fates| - 1], s, b);
    }
  }

  /** The exact histogram adds up to the deliveries from an instruction cache hit. */
  lemma {:induction false} HitsAddUp(fates: seq<Fate>)
    ensures Tally(fates, FromSource(SourceIndex(L1iHit))) ==
              Tally(fates, HitExactly(0)) + Tally(fates, HitExactly(1)) + Tally(fates, HitExactly(2)) +
              Tally(fates, HitExactly(3)) + Tally(fates, HitExactly(4)) + Tally(fates, HitExactly(5)) +
              Tally(fates, HitExactly(6)) + Tally(fates, HitExactly(7)) + Tally(fates, HitExactly(8))
  {
    if fates != [] {
      HitsAddUp(fates[..|fates| - 1]);
    }
  }

  // ---- Empty cycles ----

  function NextRecovery(r: Recovery, s: Signals): Recovery {
    if s.flush then ControlFlush
    else if s.direction then DirectionRedirect
    else if s.predicted then PredictedRedirect
    else if !s.empty then NoRecovery
    else r
  }

  /** The counters in the order of the source's fields; the first cause that applies is counted. */
  function EmptyBucket(r: Recovery, c: Causes): (b: nat)
    ensures b < EMPTY_BUCKETS
  {
    match r
    case ControlFlush => 2
    case DirectionRedirect => 1
    case PredictedRedirect => 0
    case NoRecovery =>
      if c.barrier then 3 else if c.ptw then 4 else if c.l1i then 5 else if c.uncached then 6
      else if c.translate then 7 else if c.backpressure then 8 else if c.complete then 9
      else if c.pendingAny then 10 else if !c.currentSector then 11 else if !c.laneFound then 12
      else if !c.active then 13 else 14
  }

  // ---- What the cycles so far amount to ----

  const NO_TARGET := Target(false, false, false, false, false, 0)

  function RecoveryAfter(cycles: seq<Signals>): Recovery {
    if cycles == [] then NoRecovery else NextRecovery(RecoveryAfter(cycles[..|cycles| - 1]), cycles[|cycles| - 1])
  }

  function FatesAfter(cycles: seq<Signals>): (fates: seq<Fate>)
    ensures PendingAfter(NO_TARGET, cycles).valid ==> fates != [] && fates[|fates| - 1] == Waiting
  {
    if cycles == [] then [] else
      NextFates(FatesAfter(cycles[..|cycles| - 1]), PendingAfter(NO_TARGET, cycles[..|cycles| - 1]), cycles[|cycles| - 1])
  }

  function RecoveryFlags(r: Recovery): (f: seq<bool>)
    ensures |f| == 3
  {
    [r == PredictedRedirect, r == DirectionRedirect, r == ControlFlush]
  }

  function RequestFlags(c: Causes): (f: seq<bool>)
    ensures |f| == 6
  {
    [c.barrier, c.ptw, c.l1i, c.uncached, c.translate, c.backpressure]
  }

  function OutputFlags(c: Causes): (f: seq<bool>)
    ensures |f| == 6
  {
    [c.complete, c.pendingAny, !c.currentSector, !c.laneFound, !c.active, true]
  }

  /** The causes of an empty cycle in the order in which they are asked for, the last one for lack of any
      other. */
  function Flags(r: Recovery, c: Causes): (flags: seq<bool>)
    ensures |flags| == EMPTY_BUCKETS
  {
    RecoveryFlags(r) + RequestFlags(c) + OutputFlags(c)
  }

  predicate FirstRaised(flags: seq<bool>, k: nat) {
    k < |flags| && flags[k] && forall i :: 0 <= i < k ==> !flags[i]
  }

  /** The number of empty cycles whose first raised cause is cause k. */
  function Caused(cycles: seq<Signals>, k: nat): nat {
    if cycles == [] then 0 else
      var s := cycles[|cycles| - 1];
      Caused(cycles[..|cycles| - 1], k)
      + if s.empty && FirstRaised(Flags(RecoveryAfter(cycles), s.causes), k) then 1 else 0
  }

  function EmptyCycles(cycles: seq<Signals>): nat {
    if cycles == [] then 0 else EmptyCycles(cycles[..|cycles| - 1]) + if cycles[|cycles| - 1].empty then 1 else 0
  }

  lemma FirstIsUnique(flags: seq<bool>, j: nat, k: nat)
    requires FirstRaised(flags, j) && FirstRaised(flags, k)
    ensures j == k
  {
  }

  lemma FlagsAt(r: Recovery, c: Causes)
    ensures var f := Flags(r, c);
            && f[0] == (r == PredictedRedirect) && f[1] == (r == DirectionRedirect) && f[2] == (r == ControlFlush)
            && f[3] == c.barrier && f[4] == c.ptw && f[5] == c.l1i && f[6] == c.uncached && f[7] == c.translate
            && f[8] == c.backpressure && f[9] == c.complete && f[10] == c.pendingAny && f[11] == !c.currentSector
            && f[12] == !c.laneFound && f[13] == !c.active && f[14]
  {
    hide RecoveryFlags, RequestFlags, OutputFlags;
    JoinedAt(RecoveryFlags(r), RequestFlags(c), OutputFlags(c));
    RecoveryFlagsAt(r);
    RequestFlagsAt(c);
    OutputFlagsAt(c);
  }

  lemma RecoveryFlagsAt(r: Recovery)
    ensures var f := RecoveryFlags(r); f[0] == (r == PredictedRedirect) && f[1] == (r == DirectionRedirect) && f[2] == (r == ControlFlush)
  {
  }

  lemma RequestFlagsAt(c: Causes)
    ensures var f := RequestFlags(c);
            && f[0] == c.barrier && f[1] == c.ptw && f[2] == c.l1i && f[3] == c.uncached && f[4] == c.translate
            && f[5] == c.backpressure
  {
  }

  lemma OutputFlagsAt(c: Causes)
    ensures var f := OutputFlags(c);
            && f[0] == c.complete && f[1] == c.pendingAny && f[2] == !c.currentSector && f[3] == !c.laneFound
            && f[4] == !c.active && f[5]
  {
  }

  lemma JoinedAt(x: seq<bool>, y: seq<bool>, z: seq<bool>)
    requires |x| == 3 && |y| == |z| == 6
    ensures var f := x + y + z;
            && f[0] == x[0] && f[1] == x[1] && f[2] == x[2]
            && f[3] == y[0] && f[4] == y[1] && f[5] == y[2] && f[6] == y[3] && f[7] == y[4] && f[8] == y[5]
            && f[9] == z[0] && f[10] == z[1] && f[11] == z[2] && f[12] == z[3] && f[13] == z[4] && f[14] == z[5]
  {
  }

  lemma BucketIsRaised(r: Recovery, c: Causes)
    ensures FirstRaised(Flags(r, c), EmptyBucket(r, c))
  {
    hide Flags;
    FlagsAt(r, c);
    var f, b := Flags(r, c), EmptyBucket(r, c);
    assert f[b];
    forall i | 0 <= i < b
      ensures !f[i]
    {
      assert i in {0, 1, 2, 3, 4, 5, 6, 7, 8, 9, 10, 11, 12, 13};
    }
  }

  lemma BucketIsFirst(r: Recovery, c: Causes, k: nat)
    ensures EmptyBucket(r, c) == k <==> FirstRaised(Flags(r, c), k)
  {
    BucketIsRaised(r, c);
    hide Flags, EmptyBucket, FirstRaised;
    if FirstRaised(Flags(r, c), k) {
      FirstIsUnique(Flags(r, c), EmptyBucket(r, c), k);
    }
  }

  lemma {:induction false} HistoryNext(cycles: seq<Signals>, s: Signals)
    ensures RecoveryAfter(cycles + [s]) == NextRecovery(RecoveryAfter(cycles), s)
    ensures PendingAfter(NO_TARGET, cycles + [s]) == NextPending(PendingAfter(NO_TARGET, cycles), s)
    ensures FatesAfter(cycles + [s]) == NextFates(FatesAfter(cycles), PendingAfter(NO_TARGET, cycles), s)
    ensures EmptyCycles(cycles + [s]) == EmptyCycles(cycles) + if s.empty then 1 else 0
    ensures forall k: nat :: Caused(cycles + [s], k) == Caused(cycles, k) +
              if s.empty && EmptyBucket(RecoveryAfter(cycles + [s]), s.causes) == k then 1 else 0
  {
    assert (cycles + [s])[..|cycles|] == cycles;
    hide NextRecovery, NextPending, NextFates, EmptyBucket, FirstRaised, Flags;
    forall k: nat
      ensures EmptyBucket(RecoveryAfter(cycles + [s]), s.causes) == k <==>
              FirstRaised(Flags(RecoveryAfter(cycles + [s]), s.causes), k)
    {
      BucketIsFirst(RecoveryAfter(cycles + [s]), s.causes, k);
    }
  }

  // ---- Said of the cycles alone ----

  predicate Redirects(s: Signals) { s.flush || s.direction || s.predicted }

  /** The recovery is that of the latest cycle that redirected or was not empty: of its redirects the first
      in this order, or none. */
  lemma {:induction false} RecoveryIsLatest(cycles: seq<Signals>, j: nat, k: nat)
    requires j < |cycles| && (Redirects(cycles[j]) || !cycles[j].empty)
    requires forall i :: j < i < |cycles| ==> !Redirects(cycles[i]) && cycles[i].empty
    requires FirstRaised([cycles[j].flush, cycles[j].direction, cycles[j].predicted, true], k)
    ensures RecoveryAfter(cycles) == [ControlFlush, DirectionRedirect, PredictedRedirect, NoRecovery][k]
    decreases |cycles|
  {
    var last := |cycles| - 1;
    if j < last {
      RecoveryIsLatest(cycles[..last], j, k);
    } else {
      NextByPrecedence(RecoveryAfter(cycles[..last]), cycles[last], k);
    }
  }

  lemma NextByPrecedence(r: Recovery, s: Signals, k: nat)
    requires Redirects(s) || !s.empty
    requires FirstRaised([s.flush, s.direction, s.predicted, true], k)
    ensures NextRecovery(r, s) == [ControlFlush, DirectionRedirect, PredictedRedirect, NoRecovery][k]
  {
    var f := [s.flush, s.direction, s.predicted, true];
    assert f[0] == s.flush && f[1] == s.direction && f[2] == s.predicted;
  }

  lemma {:induction false} NoRecoveryYet(cycles: seq<Signals>)
    requires forall s :: s in cycles ==> !Redirects(s)
    ensures RecoveryAfter(cycles) == NoRecovery
  {
    if cycles != [] {
      NoRecoveryYet(cycles[..|cycles| - 1]);
      assert !Redirects(cycles[|cycles| - 1]);
    }
  }

  /** The buckets are intervals of bubbles. */
  lemma BucketsAreIntervals(bubbles: nat, b: nat, k: nat)
    requires b < LATENCY_BUCKETS && k < EXACT_BUCKETS
    ensures LatencyBucket(bubbles) == b <==>
            [0, 1, 2, 3, 4, 8][b] <= bubbles && (b < 5 ==> bubbles < [1, 2, 3, 4, 8][b])
    ensures ExactBucket(bubbles) == k <==> k <= bubbles && (k < 8 ==> bubbles == k)
  {
  }

  lemma SourcesListed(s: Source)
    ensures [ResidentFetchLine, AlternateFal, L1iHit, L1iMiss, TranslationPtw, ChainedRedirect][SourceIndex(s)] == s
  {
  }

  /** How an event ends that was predicted in cycle `from` and is delivered in the last of the cycles that
      it waits. */
  ghost predicate DeliveredAs(f: Fate, chained: bool, from: Signals, waits: seq<Signals>)
    requires waits != []
  {
    var now := waits[|waits| - 1];
    && f.Delivered?
    && (forall k: nat :: FirstRaised([chained, from.resident, now.alternate, AnyDelayed(waits), AnyMissed(waits), true], k) ==>
          f.source == [ChainedRedirect, ResidentFetchLine, AlternateFal, TranslationPtw, L1iMiss, L1iHit][k])
    && (if now.cycle <= from.cycle then f.bubbles == 0 else f.bubbles == now.cycle - from.cycle - 1)
  }

  lemma {:induction false} PendingJoins(t: Target, first: seq<Signals>, more: seq<Signals>)
    ensures PendingAfter(t, first + more) == PendingAfter(PendingAfter(t, first), more)
  {
    hide NextPending;
    if more == [] {
      assert first + more == first;
    } else {
      PendingJoins(t, first, more[..|more| - 1]);
      assert (first + more)[..|first + more| - 1] == first + more[..|more| - 1];
    }
  }

  /** While its target waits, an event stays as it is. */
  lemma {:induction false} QuietPending(first: seq<Signals>, more: seq<Signals>)
    requires PendingAfter(NO_TARGET, first).valid && forall s :: s in more ==> Quiet(s)
    ensures var t := PendingAfter(NO_TARGET, first);
            PendingAfter(NO_TARGET, first + more) ==
              t.(delayed := t.delayed || AnyDelayed(more), missed := t.missed || AnyMissed(more))
  {
    hide PendingAfter, Quiet, AnyDelayed, AnyMissed;
    PendingJoins(NO_TARGET, first, more);
    PendingRemembers(PendingAfter(NO_TARGET, first), more);
  }

  lemma {:induction false} QuietKeeps(first: seq<Signals>, more: seq<Signals>)
    requires PendingAfter(NO_TARGET, first).valid && forall s :: s in more ==> Quiet(s)
    ensures FatesAfter(first + more) == FatesAfter(first)
  {
    hide PendingAfter, AnyDelayed, AnyMissed;
    if more == [] {
      assert first + more == first;
    } else {
      var front, s := more[..|more| - 1], more[|more| - 1];
      QuietKeeps(first, front);
      QuietPending(first, front);
      assert first + more == first + front + [s] && Quiet(s);
      HistoryNext(first + front, s);
      hide FatesAfter;
      LastWaits(first);
    }
  }

  lemma {:induction false} LastWaits(first: seq<Signals>)
    requires PendingAfter(NO_TARGET, first).valid
    ensures FatesAfter(first) != [] && Replaced(FatesAfter(first), Waiting) == FatesAfter(first)
  {
    hide PendingAfter;
  }

  /** The fate of the event that cycle `from` predicts, decided by the first later cycle that is not quiet. */
  lemma {:induction false} FateIs(first: seq<Signals>, from: Signals, waits: seq<Signals>, now: Signals)
    requires from.predicted && (forall s :: s in waits ==> Quiet(s)) && !Quiet(now)
    ensures var before, after := FatesAfter(first + [from]), FatesAfter(first + [from] + waits + [now]);
            && before != [] && |before| <= |after|
            && var f := after[|before| - 1];
               if now.targetValid then
                 DeliveredAs(f, ChainedAt(first, from), from, waits + [now])
               else if now.flush || now.controlRedirect then f == SupersededByControl
               else f == SupersededByPrediction
  {
    hide PendingAfter, FatesAfter, SourceOf, FirstRaised, RecoveryAfter, EmptyCycles, Caused;
    HistoryNext(first, from);
    QuietPending(first + [from], waits);
    QuietKeeps(first + [from], waits);
    HistoryNext(first + [from] + waits, now);
    var t := PendingAfter(NO_TARGET, first + [from] + waits);
    assert AnyDelayed(waits + [now]) <==> AnyDelayed(waits) || now.delayed by { AnyLast(waits, now); }
    assert AnyMissed(waits + [now]) <==> AnyMissed(waits) || now.missed by { AnyLast(waits, now); }
    SourceIsFirst(Observed(t, now), now);
  }

  lemma AnyLast(waits: seq<Signals>, now: Signals)
    ensures AnyDelayed(waits + [now]) <==> AnyDelayed(waits) || now.delayed
    ensures AnyMissed(waits + [now]) <==> AnyMissed(waits) || now.missed
  {
    assert now in waits + [now];
    assert forall s :: s in waits ==> s in waits + [now];
  }

  lemma SourceIsFirst(t: Target, s: Signals)
    ensures forall k: nat :: FirstRaised([t.chained, t.resident, s.alternate, t.delayed, t.missed, true], k) ==>
              SourceOf(t, s) == [ChainedRedirect, ResidentFetchLine, AlternateFal, TranslationPtw, L1iMiss, L1iHit][k]
  {
    var f := [t.chained, t.resident, s.alternate, t.delayed, t.missed, true];
    assert f[0] == t.chained && f[1] == t.resident && f[2] == s.alternate && f[3] == t.delayed && f[4] == t.missed;
  }

  /** A redirect is chained when it is predicted while a target waits that is not superseded by control. */
  predicate ChainedAt(first: seq<Signals>, from: Signals) {
    PendingAfter(NO_TARGET, first).valid && (from.targetValid || !(from.flush || from.controlRedirect))
  }

  /** What has been decided stays, and there is one fate for each prediction. */
  lemma {:induction false} FatesStay(first: seq<Signals>, more: seq<Signals>)
    ensures |FatesAfter(first)| <= |FatesAfter(first + more)|
    ensures forall i :: 0 <= i < |FatesAfter(first)| && !FatesAfter(first)[i].Waiting? ==>
              FatesAfter(first + more)[i] == FatesAfter(first)[i]
  {
    hide PendingAfter, FatesAfter, NextPending, Resolution;
    if more == [] {
      assert first + more == first;
    } else {
      var front, s := more[..|more| - 1], more[|more| - 1];
      FatesStay(first, front);
      assert first + more == first + front + [s];
      HistoryNext(first + front, s);
    }
  }

  /** cycles and fates are history: the cycles sampled so far, and what became of each predicted redirect,
      in the order of their event numbers. */
  class Breakdown {
    var predictions: nat
    var deliveries: nat
    var controls: nat
    var supersededPredictions: nat
    var nextEvent: nat
    const latency: array<nat>
    const bySource: array2<nat>
    const exact: array<nat>
    var pending: Target
    var recovery: Recovery
    var empty: nat
    const empties: array<nat>
    ghost var fates: seq<Fate>
    ghost var cycles: seq<Signals>

    constructor ()
      ensures Valid() && cycles == []
      ensures fresh(latency) && fresh(bySource) && fresh(exact) && fresh(empties)
    {
      latency, exact := new nat[LATENCY_BUCKETS](_ => 0), new nat[EXACT_BUCKETS](_ => 0);
      bySource, empties := new nat[6, LATENCY_BUCKETS]((_, _) => 0), new nat[EMPTY_BUCKETS](_ => 0);
      predictions, deliveries, controls, supersededPredictions, nextEvent, empty := 0, 0, 0, 0, 0, 0;
      pending, recovery, fates, cycles := NO_TARGET, NoRecovery, [], [];
      new;
      SumZeros(empties[..]);
    }

    ghost predicate Shaped() {
      && latency.Length == LATENCY_BUCKETS && exact.Length == EXACT_BUCKETS && empties.Length == EMPTY_BUCKETS
      && bySource.Length0 == 6 && bySource.Length1 == LATENCY_BUCKETS
      && latency != exact && latency != empties && exact != empties
    }

    /** The counters of these fates, without the histograms. */
    ghost predicate Counted(seen: seq<Fate>)
      reads this`deliveries, this`controls, this`supersededPredictions
    {
      && deliveries == Tally(seen, IsDelivered()) && controls == Tally(seen, IsControl())
      && supersededPredictions == Tally(seen, IsPrediction())
    }

    ghost predicate Histograms(seen: seq<Fate>)
      requires Shaped()
      reads latency, bySource, exact
    {
      && (forall b :: 0 <= b < LATENCY_BUCKETS ==> latency[b] == Tally(seen, InBucket(b)))
      && (forall s, b :: 0 <= s < 6 && 0 <= b < LATENCY_BUCKETS ==> bySource[s, b] == Tally(seen, FromInBucket(s, b)))
      && forall k :: 0 <= k < EXACT_BUCKETS ==> exact[k] == Tally(seen, HitExactly(k))
    }

    /** The state is what the sampled cycles amount to. */
    ghost predicate Recorded()
      reads this, empties
    {
      && empties.Length == EMPTY_BUCKETS
      && recovery == RecoveryAfter(cycles) && pending == PendingAfter(NO_TARGET, cycles) && fates == FatesAfter(cycles)
      && empty == EmptyCycles(cycles) && forall k :: 0 <= k < EMPTY_BUCKETS ==> empties[k] == Caused(cycles, k)
    }

    ghost predicate Valid()
      reads this, latency, bySource, exact, empties
    {
      Consistent() && Recorded()
    }

    /** Only the latest event can be waiting, and does exactly if a target is pending. */
    ghost predicate Consistent()
      reads this, latency, bySource, exact, empties
    {
      && Shaped() && predictions == nextEvent == |fates|
      && (pending.valid ==> fates != [])
      && (forall i :: 0 <= i < |fates| ==> (fates[i].Waiting? <==> pending.valid && i == |fates| - 1))
      && Counted(fates) && Histograms(fates) && Sum(empties[..]) == empty
    }

    /** A target that has been decoded is counted in all three histograms. */
    method Deliver(source: Source, bubbles: nat, ghost front: seq<Fate>)
      requires Shaped() && Counted(front) && Histograms(front)
      modifies this`deliveries, latency, bySource, exact
      ensures Counted(front + [Delivered(source, bubbles)]) && Histograms(front + [Delivered(source, bubbles)])
    {
      hide Tally, InBucket, FromInBucket, HitExactly;
      var bucket := LatencyBucket(bubbles);
      latency[bucket] := latency[bucket] + 1;
      bySource[SourceIndex(source), bucket] := bySource[SourceIndex(source), bucket] + 1;
      if source.L1iHit? {
        exact[ExactBucket(bubbles)] := exact[ExactBucket(bubbles)] + 1;
      }
      deliveries := deliveries + 1;
      DeliveredTallies(front, source, bubbles);
    }

    /** What this cycle does to the pending target. */
    method Resolve(s: Signals) returns (deliveredNow: bool)
      requires Consistent() && pending.valid
      modifies this`deliveries, this`controls, this`pending, this`fates, latency, bySource, exact
      ensures Consistent() && fates == Replaced(old(fates), Resolution(old(pending), s))
      ensures pending == Observed(old(pending), s).(valid := Resolution(old(pending), s).Waiting?)
      ensures deliveredNow <==> s.targetValid
      ensures empties[..] == old(empties[..])
    {
      hide Tally, InBucket, FromInBucket, HitExactly, Sum, LatencyBucket;
      ghost var front := fates[..|fates| - 1];
      assert fates == front + [Waiting];
      UndeliveredTallies(front, Waiting);
      deliveredNow := false;
      pending := Observed(pending, s);
      if s.targetValid {
        var source, bubbles := SourceOf(pending, s), Bubbles(pending, s.cycle);
        Deliver(source, bubbles, front);
        pending := pending.(valid := false);
        deliveredNow := true;
        fates := front + [Delivered(source, bubbles)];
      } else if s.flush || s.controlRedirect {
        UndeliveredTallies(front, SupersededByControl);
        controls := controls + 1;
        pending := pending.(valid := false);
        fates := front + [SupersededByControl];
      }
    }

    /** A new prediction takes the place of the pending target, if there still is one. */
    method Predict(s: Signals, deliveredNow: bool)
      requires Consistent()
      modifies this`predictions, this`nextEvent, this`supersededPredictions, this`pending, this`fates
      ensures Consistent() && pending == Target(true, deliveredNow || old(pending.valid), s.resident, false, false, s.cycle)
      ensures fates == (if old(pending.valid) then Replaced(old(fates), SupersededByPrediction) else old(fates)) + [Waiting]
    {
      hide Tally, InBucket, FromInBucket, HitExactly, Sum;
      var chained := deliveredNow;
      predictions := predictions + 1;
      if pending.valid {
        ghost var front := fates[..|fates| - 1];
        assert fates == front + [Waiting];
        UndeliveredTallies(front, Waiting);
        UndeliveredTallies(front, SupersededByPrediction);
        supersededPredictions := supersededPredictions + 1;
        chained := true;
        fates := front + [SupersededByPrediction];
      }
      UndeliveredTallies(fates, Waiting);
      nextEvent := nextEvent + 1;
      pending := Target(true, chained, s.resident, false, false, s.cycle);
      fates := fates + [Waiting];
    }

    /** One cycle. */
    method Sample(s: Signals)
      requires Valid()
      modifies this, latency, bySource, exact, empties
      ensures Valid() && cycles == old(cycles) + [s]
      ensures fates == NextFates(old(fates), old(pending), s)
      ensures pending == NextPending(old(pending), s)
      ensures recovery == NextRecovery(old(recovery), s) && empty == old(empty) + (if s.empty then 1 else 0)
      ensures s.empty ==>
                var k := EmptyBucket(recovery, s.causes);
                empties[..] == old(empties[..])[k := old(empties[k]) + 1]
      ensures !s.empty ==> empties[..] == old(empties[..])
    {
      hide Counted, Histograms, Sum, EmptyBucket, Resolution, RecoveryAfter, PendingAfter, FatesAfter, EmptyCycles, Caused;
      HistoryNext(cycles, s);
      var deliveredNow := false;
      if pending.valid {
        deliveredNow := Resolve(s);
      }
      if s.predicted {
        Predict(s, deliveredNow);
      }
      CountEmpty(s);
      cycles := cycles + [s];
      assert forall k :: 0 <= k < EMPTY_BUCKETS ==> empties[k] == empties[..][k] && old(empties[k]) == old(empties[..])[k];
    }

    /** The part of a cycle that is about empty fetches. */
    method CountEmpty(s: Signals)
      requires Consistent()
      modifies this`recovery, this`empty, empties
      ensures Consistent()
      ensures recovery == NextRecovery(old(recovery), s) && empty == old(empty) + (if s.empty then 1 else 0)
      ensures s.empty ==>
                var k := EmptyBucket(recovery, s.causes);
                empties[..] == old(empties[..])[k := old(empties[k]) + 1]
      ensures !s.empty ==> empties[..] == old(empties[..])
    {
      hide Tally, InBucket, FromInBucket, HitExactly, Sum, EmptyBucket;
      recovery := if s.flush then ControlFlush else if s.direction then DirectionRedirect
                  else if s.predicted then PredictedRedirect else recovery;
      if !s.empty {
        if !s.flush && !s.direction && !s.predicted {
          recovery := NoRecovery;
        }
        return;
      }
      empty := empty + 1;
      var k := EmptyBucket(recovery, s.causes);
      SumIncremented(empties[..], k);
      empties[k] := empties[k] + 1;
    }
  }

  lemma {:induction false} SumZeros(counts: seq<nat>)
    requires forall i :: 0 <= i < |counts| ==> counts[i] == 0
    ensures Sum(counts) == 0
  {
    if counts != [] {
      SumZeros(counts[..|counts| - 1]);
    }
  }

  /** An event that is not delivered is in no histogram. */
  lemma {:induction false} UndeliveredTallies(front: seq<Fate>, f: Fate)
    requires !f.Delivered?
    ensures var all := front + [f];
            && Tally(all, IsDelivered()) == Tally(front, IsDelivered())
            && Tally(all, IsControl()) == Tally(front, IsControl()) + (if f.SupersededByControl? then 1 else 0)
            && Tally(all, IsPrediction()) == Tally(front, IsPrediction()) + (if f.SupersededByPrediction? then 1 else 0)
            && (forall b :: 0 <= b < LATENCY_BUCKETS ==> Tally(all, InBucket(b)) == Tally(front, InBucket(b)))
            && (forall s, b :: 0 <= s < 6 && 0 <= b < LATENCY_BUCKETS ==>
                  Tally(all, FromInBucket(s, b)) == Tally(front, FromInBucket(s, b)))
            && (forall k :: 0 <= k < EXACT_BUCKETS ==> Tally(all, HitExactly(k)) == Tally(front, HitExactly(k)))
  {
    TallyLast(front, IsDelivered(), f);
    TallyLast(front, IsControl(), f);
    TallyLast(front, IsPrediction(), f);
    forall b: nat | b < LATENCY_BUCKETS
      ensures Tally(front + [f], InBucket(b)) == Tally(front, InBucket(b))
    {
      TallyLast(front, InBucket(b), f);
    }
    forall s: nat, b: nat | s < 6 && b < LATENCY_BUCKETS
      ensures Tally(front + [f], FromInBucket(s, b)) == Tally(front, FromInBucket(s, b))
    {
      TallyLast(front, FromInBucket(s, b), f);
    }
    forall k: nat | k < EXACT_BUCKETS
      ensures Tally(front + [f], HitExactly(k)) == Tally(front, HitExactly(k))
    {
      TallyLast(front, HitExactly(k), f);
    }
  }

  lemma {:induction false} DeliveredTallies(front: seq<Fate>, source: Source, bubbles: nat)
    ensures var all := front + [Delivered(source, bubbles)];
            && Tally(all, IsDelivered()) == Tally(front, IsDelivered()) + 1
            && Tally(all, IsControl()) == Tally(front, IsControl()) && Tally(all, IsPrediction()) == Tally(front, IsPrediction())
            && (forall b :: 0 <= b < LATENCY_BUCKETS ==>
                  Tally(all, InBucket(b)) == Tally(front, InBucket(b)) + if b == LatencyBucket(bubbles) then 1 else 0)
            && (forall s, b :: 0 <= s < 6 && 0 <= b < LATENCY_BUCKETS ==>
                  Tally(all, FromInBucket(s, b)) == Tally(front, FromInBucket(s, b)) +
                    if s == SourceIndex(source) && b == LatencyBucket(bubbles) then 1 else 0)
            && (forall k :: 0 <= k < EXACT_BUCKETS ==>
                  Tally(all, HitExactly(k)) == Tally(front, HitExactly(k)) +
                    if source.L1iHit? && k == ExactBucket(bubbles) then 1 else 0)
  {
    var f := Delivered(source, bubbles);
    TallyLast(front, IsDelivered(), f);
    TallyLast(front, IsControl(), f);
    TallyLast(front, IsPrediction(), f);
    forall b: nat | b < LATENCY_BUCKETS
      ensures Tally(front + [f], InBucket(b)) == Tally(front, InBucket(b)) + if b == LatencyBucket(bubbles) then 1 else 0
    {
      TallyLast(front, InBucket(b), f);
    }
    forall s: nat, b: nat | s < 6 && b < LATENCY_BUCKETS
      ensures Tally(front + [f], FromInBucket(s, b)) == Tally(front, FromInBucket(s, b)) +
                if s == SourceIndex(source) && b == LatencyBucket(bubbles) then 1 else 0
    {
      TallyLast(front, FromInBucket(s, b), f);
    }
    forall k: nat | k < EXACT_BUCKETS
      ensures Tally(front + [f], HitExactly(k)) == Tally(front, HitExactly(k)) +
                if source.L1iHit? && k == ExactBucket(bubbles) then 1 else 0
    {
      TallyLast(front, HitExactly(k), f);
    }
  }

  /** The sums that report prints, in every state that sampling can reach. */
  lemma ReportAddsUp(b: Breakdown)
    requires b.Valid()
    ensures b.predictions == b.deliveries + b.controls + b.supersededPredictions + if b.pending.valid then 1 else 0
    ensures b.latency[0] + b.latency[1] + b.latency[2] + b.latency[3] + b.latency[4] + b.latency[5] == b.deliveries
    ensures b.exact[0] + b.exact[1] + b.exact[2] + b.exact[3] + b.exact[4] + b.exact[5] + b.exact[6] + b.exact[7] +
            b.exact[8] == Tally(b.fates, FromSource(SourceIndex(L1iHit)))
    ensures Sum(b.empties[..]) == b.empty == EmptyCycles(b.cycles)
    ensures b.fates == FatesAfter(b.cycles)
    ensures forall k :: 0 <= k < EMPTY_BUCKETS ==> b.empties[k] == Caused(b.cycles, k)
  {
    FatesAddUp(b.fates);
    LatenciesAddUp(b.fates);
    HitsAddUp(b.fates);
    OneWaiting(b.fates, b.pending.valid);
    hide Tally, InBucket, HitExactly, FromSource, FromInBucket;
  }

  lemma {:induction false} NoneWaiting(fates: seq<Fate>)
    requires forall i :: 0 <= i < |fates| ==> !fates[i].Waiting?
    ensures Tally(fates, IsWaiting()) == 0
  {
    if fates != [] {
      NoneWaiting(fates[..|fates| - 1]);
    }
  }

  lemma {:induction false} OneWaiting(fates: seq<Fate>, pending: bool)
    requires pending ==> fates != []
    requires forall i :: 0 <= i < |fates| ==> (fates[i].Waiting? <==> pending && i == |fates| - 1)
    ensures Tally(fates, IsWaiting()) == if pending then 1 else 0
  {
    if fates != [] {
      NoneWaiting(fates[..|fates| - 1]);
    }
  }
}
