/** The two policies of choose in tools/issue_window_experiment.py, proved against
    WindowChoice and StrictChoice. */
module IssueChoice {
  import opened Options
  import opened IssueTrace
  import opened IssuePipes

  /** The strict policy issues the longest legal prefix of the oldest unissued instructions. */
  ghost predicate StrictChoice(ins: Trace, unissued: seq<nat>, ready: seq<nat>, group: seq<nat>) {
    && group <= unissued && LegalGroup(ins, ready, group)
    && forall k :: |group| < k <= |unissued| ==> !LegalGroup(ins, ready, unissued[..k])
  }

  lemma StrictChoiceUnique(ins: Trace, unissued: seq<nat>, ready: seq<nat>, g: seq<nat>, h: seq<nat>)
    requires StrictChoice(ins, unissued, ready, g) && StrictChoice(ins, unissued, ready, h)
    ensures g == h
  {
    hide LegalGroup;
    assert g == unissued[..|g|] && h == unissued[..|h|];
  }

  /** itertools.combinations: the width-element subsequences of xs, in tuple order. */
  function Combinations(xs: seq<nat>, width: nat): seq<seq<nat>> {
    if width == 0 then [[]]
    else if |xs| < width then []
    else Prepend(xs[0], Combinations(xs[1..], width - 1)) + Combinations(xs[1..], width)
  }

  function Prepend(x: nat, combos: seq<seq<nat>>): (r: seq<seq<nat>>)
    ensures |r| == |combos| && forall k :: 0 <= k < |r| ==> r[k] == [x] + combos[k]
  {
    seq(|combos|, k requires 0 <= k < |combos| => [x] + combos[k])
  }

  /** Every ascending selection of that width is enumerated, and nothing else. */
  lemma {:induction false} CombinationsComplete(xs: seq<nat>, width: nat, c: seq<nat>)
    requires Ascending(xs)
    ensures c in Combinations(xs, width) <==>
              |c| == width && Ascending(c) && forall k :: 0 <= k < |c| ==> c[k] in xs
  {
    if width == 0 {
    } else if |xs| < width {
      if |c| == width && Ascending(c) && forall k :: 0 <= k < |c| ==> c[k] in xs {
        SelectionFits(xs, c);
      }
    } else {
      var rest := xs[1..];
      CombinationsComplete(rest, width, c);
      if |c| > 0 {
        CombinationsComplete(rest, width - 1, c[1..]);
        assert c == [c[0]] + c[1..];
        if c[0] == xs[0] {
          FirstTaken(xs, width, c);
        } else {
          FirstSkipped(xs, width, c);
        }
      }
      assert forall combo :: combo in Prepend(xs[0], Combinations(rest, width - 1)) ==> |combo| > 0 && combo[0] == xs[0];
    }
  }

  lemma FirstTaken(xs: seq<nat>, width: nat, c: seq<nat>)
    requires Ascending(xs) && 1 <= width <= |xs| && |c| > 0 && c[0] == xs[0]
    requires c[1..] in Combinations(xs[1..], width - 1) <==>
             |c[1..]| == width - 1 && Ascending(c[1..]) && forall k :: 0 <= k < |c[1..]| ==> c[1..][k] in xs[1..]
    requires c in Combinations(xs[1..], width) <==>
             |c| == width && Ascending(c) && forall k :: 0 <= k < |c| ==> c[k] in xs[1..]
    ensures c in Combinations(xs, width) <==>
             |c| == width && Ascending(c) && forall k :: 0 <= k < |c| ==> c[k] in xs
  {
    assert c[0] !in xs[1..];
    var tails := Combinations(xs[1..], width - 1);
    var heads := Prepend(xs[0], tails);
    assert c == [xs[0]] + c[1..];
    assert c in heads <==> c[1..] in tails by {
      if c in heads {
        var k :| 0 <= k < |heads| && heads[k] == c;
        assert c[1..] == tails[k];
      }
      if c[1..] in tails {
        var k :| 0 <= k < |tails| && tails[k] == c[1..];
        assert heads[k] == c;
      }
    }
    if |c| == width && Ascending(c) && forall k :: 0 <= k < |c| ==> c[k] in xs {
      forall k | 0 <= k < |c[1..]|
        ensures c[1..][k] in xs[1..]
      {
        assert c[k + 1] > c[0] && c[k + 1] in xs;
      }
    }
    if |c[1..]| == width - 1 && Ascending(c[1..]) && forall k :: 0 <= k < |c[1..]| ==> c[1..][k] in xs[1..] {
      forall k | 0 < k < |c|
        ensures c[k] in xs && c[0] < c[k]
      {
        assert c[1..][k - 1] in xs[1..];
      }
      forall a, b | 0 < a < b < |c|
        ensures c[a] < c[b]
      {
        assert c[1..][a - 1] < c[1..][b - 1];
      }
    }
  }

  lemma {:induction false} FirstSkipped(xs: seq<nat>, width: nat, c: seq<nat>)
    requires Ascending(xs) && 1 <= width <= |xs| && |c| > 0 && c[0] != xs[0]
    requires c in Combinations(xs[1..], width) <==>
             |c| == width && Ascending(c) && forall k :: 0 <= k < |c| ==> c[k] in xs[1..]
    ensures c in Combinations(xs, width) <==>
             |c| == width && Ascending(c) && forall k :: 0 <= k < |c| ==> c[k] in xs
  {
  }

  lemma {:induction false} SelectionFits(xs: seq<nat>, c: seq<nat>)
    requires Ascending(xs) && Ascending(c) && forall k :: 0 <= k < |c| ==> c[k] in xs
    ensures |c| <= |xs|
  {
    if |c| > 0 {
      assert c[0] in xs;
      forall k | 0 <= k < |c[1..]|
        ensures c[1..][k] in xs[1..]
      {
        assert c[0] < c[k + 1] && c[k + 1] in xs && xs[0] <= c[0];
      }
      SelectionFits(xs[1..], c[1..]);
    }
  }

  /** Some member is hard and has a younger companion. */
  predicate HardInside(ins: Trace, combination: seq<nat>)
    requires forall k :: 0 <= k < |combination| ==> combination[k] < |ins|
  {
    exists index | index in combination ::
      ins[index].IsHard() && exists younger | younger in combination :: younger > index
  }

  lemma HardInsideMeansNotLast(ins: Trace, combination: seq<nat>)
    requires InTrace(ins, combination) && Ascending(combination)
    ensures HardInside(ins, combination) <==> !HardOnlyLast(ins, combination)
  {
    hide Instruction.IsHard;
    if HardInside(ins, combination) {
      var index :| index in combination && ins[index].IsHard()
                   && exists younger :: younger in combination && younger > index;
      var younger :| younger in combination && younger > index;
      var a :| 0 <= a < |combination| && combination[a] == index;
      var b :| 0 <= b < |combination| && combination[b] == younger;
      assert a < b;
    }
    if !HardOnlyLast(ins, combination) {
      var k :| 0 <= k < |combination| - 1 && ins[combination[k]].IsHard();
      assert combination[k + 1] in combination && combination[k + 1] > combination[k];
    }
  }

  ghost predicate BestOfWidth(ins: Trace, ready: seq<nat>, width: nat, seen: seq<seq<nat>>,
                              best: Option<seq<nat>>) {
    match best
    case Some(group) =>
      && |group| == width && LegalGroup(ins, ready, group)
      && forall other :: other in seen && LegalGroup(ins, ready, other) ==>
                           |other| == width && !LexBefore(other, group)
    case None => forall other :: other in seen ==> !LegalGroup(ins, ready, other)
  }

  method WidestOfWidth(ins: Trace, ready: seq<nat>, width: nat)
    returns (best: Option<seq<nat>>, bestAssignment: map<nat, nat>)
    requires InTrace(ins, ready) && Ascending(ready) && 1 <= width <= 3
    ensures BestOfWidth(ins, ready, width, Combinations(ready, width), best)
    ensures best.Some? ==> Assigns(ins, best.value, bestAssignment)
  {
    hide Instruction.PipeOptions, Instruction.IsHard, LegalGroup, LexBefore, Combinations;
    best, bestAssignment := None, map[];
    var combinations := Combinations(ready, width);
    for at := 0 to |combinations|
      invariant BestOfWidth(ins, ready, width, combinations[..at], best)
      invariant best.Some? ==> Assigns(ins, best.value, bestAssignment)
    {
      var combination := combinations[at];
      ghost var before := best;
      assert combinations[..at + 1] == combinations[..at] + [combination];
      CombinationsComplete(ready, width, combination);
      CombinationInTrace(ins, ready, combination);
      var legal := !HardInside(ins, combination);
      if legal {
        var assignment := PipeAssignment(ins, combination);
        legal := assignment.Some?;
        if legal && (best.None? || LexBefore(combination, best.value)) {
          best := Some(combination);
          bestAssignment := assignment.value;
        }
      }
      LegalCombination(ins, ready, combination);
      assert legal <==> LegalGroup(ins, ready, combination);
      BestExtends(ins, ready, width, combinations[..at], combination, before, best);
    }
    assert combinations[..|combinations|] == combinations;
  }

  ghost predicate Assigns(ins: Trace, group: seq<nat>, assignment: map<nat, nat>) {
    InTrace(ins, group) && exists pipes :: LegalPipes(ins, group, pipes) && Records(group, pipes, assignment)
  }

  lemma CombinationInTrace(ins: Trace, ready: seq<nat>, combination: seq<nat>)
    requires InTrace(ins, ready)
    requires forall k :: 0 <= k < |combination| ==> combination[k] in ready
    ensures InTrace(ins, combination)
  {
  }

  lemma LegalCombination(ins: Trace, ready: seq<nat>, combination: seq<nat>)
    requires InTrace(ins, combination) && Ascending(combination) && |combination| <= 3
    requires forall k :: 0 <= k < |combination| ==> combination[k] in ready
    ensures LegalGroup(ins, ready, combination) <==>
              !HardInside(ins, combination) && Assignable(ins, combination)
  {
    hide Assignable, HardInside, Instruction.IsHard;
    HardInsideMeansNotLast(ins, combination);
  }

  lemma {:induction false} BestExtends(ins: Trace, ready: seq<nat>, width: nat, seen: seq<seq<nat>>, next: seq<nat>,
                    before: Option<seq<nat>>, after: Option<seq<nat>>)
    requires BestOfWidth(ins, ready, width, seen, before)
    requires |next| == width
    requires after == (if LegalGroup(ins, ready, next)
                          && (before.None? || LexBefore(next, before.value)) then Some(next) else before)
    ensures BestOfWidth(ins, ready, width, seen + [next], after)
  {
    hide LegalGroup;
    if after != before {
      forall other | other in seen + [next] && LegalGroup(ins, ready, other)
        ensures |other| == width && !LexBefore(other, next)
      {
        if other != next {
          assert other in seen;
          assert before.Some?;
          if LexBefore(other, next) {
            LexChain(other, next, before.value);
          }
        } else {
          LexIrreflexive(next);
        }
      }
    } else {
      forall other | other in seen + [next] && LegalGroup(ins, ready, other)
        ensures after.Some? && |other| == width && !LexBefore(other, after.value)
      {
        if other == next {
          LexIrreflexive(next);
        } else {
          assert other in seen;
        }
      }
    }
  }

  lemma {:induction false} LexIrreflexive(a: seq<nat>)
    ensures !LexBefore(a, a)
  {
    if |a| > 0 {
      LexIrreflexive(a[1..]);
    }
  }

  lemma {:induction false} LexChain(a: seq<nat>, b: seq<nat>, c: seq<nat>)
    requires |a| == |b| == |c|
    requires LexBefore(a, b) && LexBefore(b, c)
    ensures LexBefore(a, c)
  {
    if a[0] == b[0] == c[0] {
      LexChain(a[1..], b[1..], c[1..]);
    }
  }

  /** The window branch of choose. */
  method ChooseWindow(ins: Trace, ready: seq<nat>) returns (group: seq<nat>, assignment: map<nat, nat>)
    requires InTrace(ins, ready) && Ascending(ready)
    ensures WindowChoice(ins, ready, group)
    ensures Assigns(ins, group, assignment)
  {
    hide Instruction.PipeOptions, Instruction.IsHard, LegalGroup, LexBefore, Combinations;
    var width := if |ready| < 3 then |ready| else 3;
    assert forall other :: LegalGroup(ins, ready, other) ==> |other| <= width by {
      forall other | LegalGroup(ins, ready, other)
        ensures |other| <= width
      {
        LegalFits(ins, ready, other);
      }
    }
    while width > 0
      invariant 0 <= width <= 3
      invariant forall other :: LegalGroup(ins, ready, other) ==> |other| <= width
    {
      var best, bestAssignment := WidestOfWidth(ins, ready, width);
      forall other | LegalGroup(ins, ready, other) && |other| == width
        ensures other in Combinations(ready, width)
      {
        LegalIsCombination(ins, ready, width, other);
      }
      if best.Some? {
        return best.value, bestAssignment;
      }
      width := width - 1;
    }
    EmptyIsLegal(ins, ready);
    assert LegalPipes(ins, [], []) && Records([], [], map[]);
    OnlyEmptyIsChosen(ins, ready);
    return [], map[];
  }

  lemma OnlyEmptyIsChosen(ins: Trace, ready: seq<nat>)
    requires forall other :: LegalGroup(ins, ready, other) ==> |other| == 0
    ensures WindowChoice(ins, ready, [])
  {
    EmptyIsLegal(ins, ready);
    hide LegalGroup;
  }

  lemma LegalFits(ins: Trace, ready: seq<nat>, group: seq<nat>)
    requires Ascending(ready) && LegalGroup(ins, ready, group)
    ensures |group| <= |ready| && |group| <= 3
  {
    hide Assignable, HardOnlyLast;
    SelectionFits(ready, group);
  }

  lemma {:induction false} LegalIsCombination(ins: Trace, ready: seq<nat>, width: nat, group: seq<nat>)
    requires Ascending(ready) && LegalGroup(ins, ready, group) && |group| == width
    ensures group in Combinations(ready, width)
  {
    hide Assignable, HardOnlyLast;
    CombinationsComplete(ready, width, group);
  }

  /** The strict branch of choose; ready lists the ready members of unissued. */
  method ChooseStrict(ins: Trace, unissued: seq<nat>, ready: seq<nat>)
    returns (group: seq<nat>, assignment: map<nat, nat>)
    requires InTrace(ins, unissued) && Ascending(unissued)
    ensures StrictChoice(ins, unissued, ready, group)
    ensures Assigns(ins, group, assignment)
  {
    hide Instruction.PipeOptions, Instruction.IsHard, Assignable;
    var candidates := [];
    var stopped := false;
    while !stopped && |candidates| < 3 && |candidates| < |unissued|
      invariant |candidates| <= 3 && candidates <= unissued
      invariant forall k :: 0 <= k < |candidates| ==> candidates[k] in ready
      invariant HardOnlyLast(ins, candidates)
      invariant !stopped ==> forall k :: 0 <= k < |candidates| ==> !ins[candidates[k]].IsHard()
      invariant stopped ==>
                  || (|candidates| > 0 && ins[candidates[|candidates| - 1]].IsHard())
                  || (|candidates| < |unissued| && unissued[|candidates|] !in ready)
      decreases !stopped, 3 - |candidates|
    {
      var index := unissued[|candidates|];
      if index !in ready {
        stopped := true;
      } else {
        candidates := candidates + [index];
        stopped := ins[index].IsHard();
      }
    }
    LongerPrefixesIllegal(ins, unissued, ready, |candidates|);
    var width := |candidates|;
    while width > 0
      invariant 0 <= width <= |candidates|
      invariant forall k :: width < k <= |unissued| ==> !LegalGroup(ins, ready, unissued[..k])
    {
      assert candidates[..width] == unissued[..width];
      var result := PipeAssignment(ins, candidates[..width]);
      if result.Some? {
        PrefixLegal(ins, ready, candidates, width);
        return candidates[..width], result.value;
      }
      width := width - 1;
    }
    EmptyIsLegal(ins, ready);
    assert LegalPipes(ins, [], []) && Records([], [], map[]);
    return [], map[];
  }

  lemma PrefixLegal(ins: Trace, ready: seq<nat>, candidates: seq<nat>, width: nat)
    requires |candidates| <= 3 && width <= |candidates|
    requires InTrace(ins, candidates) && Ascending(candidates) && HardOnlyLast(ins, candidates)
    requires forall k :: 0 <= k < |candidates| ==> candidates[k] in ready
    requires InTrace(ins, candidates[..width]) && Assignable(ins, candidates[..width])
    ensures LegalGroup(ins, ready, candidates[..width])
  {
    hide Instruction.IsHard, Assignable;
  }

  lemma LongerPrefixesIllegal(ins: Trace, unissued: seq<nat>, ready: seq<nat>, width: nat)
    requires InTrace(ins, unissued) && width <= |unissued|
    requires || width == |unissued| || width == 3
             || (width > 0 && ins[unissued[width - 1]].IsHard())
             || unissued[width] !in ready
    ensures forall k :: width < k <= |unissued| ==> !LegalGroup(ins, ready, unissued[..k])
  {
  }
}
