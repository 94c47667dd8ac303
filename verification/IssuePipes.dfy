/** Pipe assignment and the choice of one issue group, as pipe_assignment and choose in
    tools/issue_window_experiment.py make them. */
module IssuePipes {
  import opened Options
  import opened IssueTrace

  ghost predicate InTrace(ins: Trace, selected: seq<nat>) {
    forall k :: 0 <= k < |selected| ==> selected[k] < |ins|
  }

  ghost predicate Ascending(xs: seq<nat>) {
    forall a, b :: 0 <= a < b < |xs| ==> xs[a] < xs[b]
  }

  lemma AscendingAppend(xs: seq<nat>, x: nat)
    requires Ascending(xs) && forall i :: i in xs ==> i < x
    ensures Ascending(xs + [x])
  {
    assert forall k :: 0 <= k < |xs| ==> xs[k] in xs;
  }

  /** pipes[k] is the pipe of selected[k]: allowed for it, and used once. */
  ghost predicate LegalPipes(ins: Trace, selected: seq<nat>, pipes: seq<nat>)
    requires InTrace(ins, selected)
  {
    && |pipes| == |selected|
    && (forall k :: 0 <= k < |pipes| ==> pipes[k] in ins[selected[k]].PipeOptions())
    && (forall a, b :: 0 <= a < b < |pipes| ==> pipes[a] != pipes[b])
  }

  ghost predicate Assignable(ins: Trace, selected: seq<nat>)
    requires InTrace(ins, selected)
  {
    exists pipes :: LegalPipes(ins, selected, pipes)
  }

  ghost predicate Records(selected: seq<nat>, pipes: seq<nat>, result: map<nat, nat>)
    requires |pipes| <= |selected|
  {
    && (forall i :: i in result ==> exists k :: 0 <= k < |pipes| && selected[k] == i)
    && (forall k :: 0 <= k < |pipes| ==> selected[k] in result && result[selected[k]] == pipes[k])
  }

  /** The mutable state that the nested function of pipe_assignment closes over. */
  class PipeAssigner {
    const instructions: Trace
    const selected: seq<nat>
    var result: map<nat, nat>
    var used: set<nat>

    constructor (instructions: Trace, selected: seq<nat>)
      ensures this.instructions == instructions && this.selected == selected
      ensures result == map[] && used == {}
    {
      this.instructions, this.selected := instructions, selected;
      result, used := map[], {};
    }

    ghost predicate Holds(pipes: seq<nat>)
      reads this
    {
      && InTrace(instructions, selected) && Ascending(selected)
      && |pipes| <= |selected|
      && LegalPipes(instructions, selected[..|pipes|], pipes)
      && Records(selected, pipes, result)
      && used == set p | p in pipes
    }

    ghost predicate NoExtension(pipes: seq<nat>)
      requires InTrace(instructions, selected)
    {
      forall full :: pipes <= full ==> !LegalPipes(instructions, selected, full)
    }

    ghost predicate Dead(pipes: seq<nat>, pipe: nat)
      requires InTrace(instructions, selected)
    {
      NoExtension(pipes + [pipe])
    }

    /** Complete the partial assignment `pipes`, or restore it and report that no
        completion exists. */
    method Assign(position: nat, ghost pipes: seq<nat>) returns (ok: bool, ghost full: seq<nat>)
      requires position == |pipes| && Holds(pipes)
      modifies this
      ensures ok ==> pipes <= full && |full| == |selected| && Holds(full)
      ensures !ok ==> result == old(result) && used == old(used) && NoExtension(pipes)
      decreases |selected| - position
    {
      hide Instruction.PipeOptions, LegalPipes, Records, NoExtension;
      full := pipes;
      if position == |selected| {
        return true, full;
      }
      var index := selected[position];
      var options := instructions[index].PipeOptions();
      var k := 0;
      while k < |options|
        invariant 0 <= k <= |options|
        invariant result == old(result) && used == old(used)
        invariant forall j :: 0 <= j < k ==> Dead(pipes, options[j])
      {
        var pipe := options[k];
        if pipe in used {
          ClashHasNoExtension(pipes, pipe);
          k := k + 1;
          continue;
        }
        result := result[index := pipe];
        used := used + {pipe};
        ExtendRecord(pipes, pipe, old(result));
        ok, full := Assign(position + 1, pipes + [pipe]);
        if ok {
          return;
        }
        assert Dead(pipes, pipe);
        used := used - {pipe};
        result := result - {index};
        k := k + 1;
      }
      AllOptionsTried(pipes);
      ok := false;
    }

    lemma ExtendRecord(pipes: seq<nat>, pipe: nat, before: map<nat, nat>)
      requires InTrace(instructions, selected) && Ascending(selected) && |pipes| < |selected|
      requires LegalPipes(instructions, selected[..|pipes|], pipes)
      requires Records(selected, pipes, before)
      requires pipe in instructions[selected[|pipes|]].PipeOptions() && pipe !in pipes
      ensures selected[|pipes|] !in before
      ensures LegalPipes(instructions, selected[..|pipes| + 1], pipes + [pipe])
      ensures Records(selected, pipes + [pipe], before[selected[|pipes|] := pipe])
    {
      hide Instruction.PipeOptions;
      var after := before[selected[|pipes|] := pipe];
      forall i | i in after
        ensures exists k :: 0 <= k < |pipes| + 1 && selected[k] == i
      {
        if i != selected[|pipes|] {
          assert i in before;
        }
      }
    }

    lemma AllOptionsTried(pipes: seq<nat>)
      requires InTrace(instructions, selected) && |pipes| < |selected|
      requires var options := instructions[selected[|pipes|]].PipeOptions();
               forall j :: 0 <= j < |options| ==> Dead(pipes, options[j])
      ensures NoExtension(pipes)
    {
      forall full | pipes <= full
        ensures !LegalPipes(instructions, selected, full)
      {
        if |full| > |pipes| {
          assert pipes + [full[|pipes|]] <= full;
          assert full[|pipes|] in instructions[selected[|pipes|]].PipeOptions() ==> Dead(pipes, full[|pipes|]);
        }
      }
    }

    lemma ClashHasNoExtension(pipes: seq<nat>, pipe: nat)
      requires InTrace(instructions, selected)
      requires pipe in pipes
      ensures Dead(pipes, pipe)
    {
      var a :| 0 <= a < |pipes| && pipes[a] == pipe;
      forall full | pipes + [pipe] <= full
        ensures !LegalPipes(instructions, selected, full)
      {
        assert full[a] == pipe && full[|pipes|] == pipe;
      }
    }
  }

  lemma NothingExtendsEmpty(assigner: PipeAssigner)
    requires InTrace(assigner.instructions, assigner.selected)
    requires assigner.NoExtension([])
    ensures !Assignable(assigner.instructions, assigner.selected)
  {
  }

  /** An injective assignment of allowed pipes, exactly when one exists. */
  method PipeAssignment(ins: Trace, selected: seq<nat>) returns (assignment: Option<map<nat, nat>>)
    requires InTrace(ins, selected) && Ascending(selected)
    ensures assignment.Some? <==> Assignable(ins, selected)
    ensures assignment.Some? ==>
              exists pipes :: LegalPipes(ins, selected, pipes) && Records(selected, pipes, assignment.value)
  {
    var assigner := new PipeAssigner(ins, selected);
    var ok, full := assigner.Assign(0, []);
    if ok {
      assert selected[..|full|] == selected;
      return Some(assigner.result);
    }
    NothingExtendsEmpty(assigner);
    return None;
  }

  // ---- The candidates of one cycle ----

  /** A hard instruction ends its issue group. */
  ghost predicate HardOnlyLast(ins: Trace, group: seq<nat>)
    requires InTrace(ins, group)
  {
    forall k :: 0 <= k < |group| - 1 ==> !ins[group[k]].IsHard()
  }

  ghost predicate LegalGroup(ins: Trace, ready: seq<nat>, group: seq<nat>) {
    && |group| <= 3
    && InTrace(ins, group) && Ascending(group)
    && (forall k :: 0 <= k < |group| ==> group[k] in ready)
    && HardOnlyLast(ins, group)
    && Assignable(ins, group)
  }

  /** Tuple order on groups of one width. */
  predicate LexBefore(a: seq<nat>, b: seq<nat>)
    requires |a| == |b|
  {
    |a| > 0 && (a[0] < b[0] || (a[0] == b[0] && LexBefore(a[1..], b[1..])))
  }

  /** The window policy: greatest width first, then the least group in tuple order. */
  ghost predicate WindowChoice(ins: Trace, ready: seq<nat>, group: seq<nat>) {
    && LegalGroup(ins, ready, group)
    && forall other :: LegalGroup(ins, ready, other) ==>
                         |other| < |group| || (|other| == |group| && !LexBefore(other, group))
  }

  lemma {:induction false} LexTotal(a: seq<nat>, b: seq<nat>)
    requires |a| == |b|
    ensures a == b || LexBefore(a, b) || LexBefore(b, a)
  {
    if |a| > 0 {
      LexTotal(a[1..], b[1..]);
      if a[0] == b[0] && a[1..] == b[1..] {
        assert a == [a[0]] + a[1..] && b == [b[0]] + b[1..];
      }
    }
  }

  lemma WindowChoiceUnique(ins: Trace, ready: seq<nat>, g: seq<nat>, h: seq<nat>)
    requires WindowChoice(ins, ready, g) && WindowChoice(ins, ready, h)
    ensures g == h
  {
    LexTotal(g, h);
  }

  lemma EmptyIsLegal(ins: Trace, ready: seq<nat>)
    ensures LegalGroup(ins, ready, [])
  {
    assert LegalPipes(ins, [], []);
  }

  lemma SingleIsLegal(ins: Trace, ready: seq<nat>, index: nat)
    requires index < |ins| && index in ready
    ensures LegalGroup(ins, ready, [index])
  {
    var pipe := ins[index].PipeOptions()[0];
    assert pipe in ins[index].PipeOptions();
    assert LegalPipes(ins, [index], [pipe]);
  }

  // ---- Exchange argument ----

  /** x takes the pipe of a group member, or joins the group on a free pipe. */
  lemma ExchangePipes(ins: Trace, group: seq<nat>, x: nat) returns (better: seq<nat>)
    requires InTrace(ins, group) && x < |ins| && Assignable(ins, group)
    ensures Joined(group, x, better) && InTrace(ins, better) && Assignable(ins, better)
  {
    var pipe := ins[x].PipeOptions()[0];
    hide Instruction.PipeOptions;
    var pipes :| LegalPipes(ins, group, pipes);
    if at: nat :| at < |pipes| && pipes[at] == pipe {
      RemoveMember(ins, group, pipes, at);
      better := [x] + (group[..at] + group[at + 1..]);
      AddMember(ins, group[..at] + group[at + 1..], pipes[..at] + pipes[at + 1..], x, pipe);
    } else {
      better := [x] + group;
      AddMember(ins, group, pipes, x, pipe);
    }
  }

  lemma AddMember(ins: Trace, group: seq<nat>, pipes: seq<nat>, x: nat, pipe: nat)
    requires InTrace(ins, group) && x < |ins| && LegalPipes(ins, group, pipes)
    requires pipe in ins[x].PipeOptions() && pipe !in pipes
    ensures InTrace(ins, [x] + group) && LegalPipes(ins, [x] + group, [pipe] + pipes)
  {
    hide Instruction.PipeOptions;
  }

  lemma RemoveMember(ins: Trace, group: seq<nat>, pipes: seq<nat>, at: nat)
    requires InTrace(ins, group) && LegalPipes(ins, group, pipes) && at < |pipes|
    ensures InTrace(ins, group[..at] + group[at + 1..])
    ensures LegalPipes(ins, group[..at] + group[at + 1..], pipes[..at] + pipes[at + 1..])
    ensures pipes[at] !in pipes[..at] + pipes[at + 1..]
  {
    hide Instruction.PipeOptions;
  }

  /** group with x in front, and at most one member gone. */
  ghost predicate Joined(group: seq<nat>, x: nat, better: seq<nat>) {
    || better == [x] + group
    || exists at :: 0 <= at < |group| && better == [x] + (group[..at] + group[at + 1..])
  }

  lemma Pigeonhole(pipes: seq<nat>)
    requires |pipes| >= 4 && forall k :: 0 <= k < |pipes| ==> pipes[k] < 3
    ensures exists a, b :: 0 <= a < b < |pipes| && pipes[a] == pipes[b]
  {
    var p, q, r, s := pipes[0], pipes[1], pipes[2], pipes[3];
    assert p == q || p == r || p == s || q == r || q == s || r == s;
  }

  /** Three pipes carry at most three instructions. */
  lemma AtMostThree(ins: Trace, group: seq<nat>)
    requires InTrace(ins, group) && Assignable(ins, group)
    ensures |group| <= 3
  {
    var pipes :| LegalPipes(ins, group, pipes);
    assert forall k :: 0 <= k < |pipes| ==> pipes[k] < 3;
    if |pipes| >= 4 {
      Pigeonhole(pipes);
    }
  }

  /** Any legal group whose members are all younger than the ready non-hard x is beaten by one
      that starts with x. */
  lemma OldestJoins(ins: Trace, ready: seq<nat>, group: seq<nat>, x: nat) returns (better: seq<nat>)
    requires LegalGroup(ins, ready, group)
    requires x < |ins| && x in ready && !ins[x].IsHard()
    requires forall k :: 0 <= k < |group| ==> x < group[k]
    ensures LegalGroup(ins, ready, better)
    ensures |better| > |group| || (|better| == |group| && LexBefore(better, group))
  {
    better := ExchangePipes(ins, group, x);
    AtMostThree(ins, better);
    JoinIsLegal(ins, ready, group, x, better);
  }

  lemma JoinIsLegal(ins: Trace, ready: seq<nat>, group: seq<nat>, x: nat, better: seq<nat>)
    requires InTrace(ins, group) && Ascending(group) && HardOnlyLast(ins, group)
    requires forall k :: 0 <= k < |group| ==> group[k] in ready && x < group[k]
    requires x < |ins| && x in ready && !ins[x].IsHard()
    requires |better| <= 3 && InTrace(ins, better) && Assignable(ins, better)
    requires Joined(group, x, better)
    ensures LegalGroup(ins, ready, better)
  {
    hide Instruction.PipeOptions, Instruction.IsHard, Assignable;
    if better != [x] + group {
      var at :| 0 <= at < |group| && better == [x] + (group[..at] + group[at + 1..]);
      RemovalKeepsOrder(ins, group, at);
      AdditionKeepsOrder(ins, group[..at] + group[at + 1..], x);
    } else {
      AdditionKeepsOrder(ins, group, x);
    }
  }

  lemma RemovalKeepsOrder(ins: Trace, group: seq<nat>, at: nat)
    requires InTrace(ins, group) && Ascending(group) && HardOnlyLast(ins, group) && at < |group|
    ensures var left := group[..at] + group[at + 1..];
            InTrace(ins, left) && Ascending(left) && HardOnlyLast(ins, left)
            && forall k :: 0 <= k < |left| ==> left[k] in group
  {
    hide Instruction.IsHard;
  }

  lemma AdditionKeepsOrder(ins: Trace, group: seq<nat>, x: nat)
    requires InTrace(ins, group) && Ascending(group) && HardOnlyLast(ins, group)
    requires x < |ins| && !ins[x].IsHard()
    requires forall k :: 0 <= k < |group| ==> x < group[k]
    ensures InTrace(ins, [x] + group) && Ascending([x] + group) && HardOnlyLast(ins, [x] + group)
  {
    hide Instruction.IsHard;
  }

  ghost predicate OldestSuch(ins: Trace, ready: seq<nat>, hard: bool, x: nat)
    requires InTrace(ins, ready)
  {
    && x in ready && ins[x].IsHard() == hard
    && forall y :: y in ready && ins[y].IsHard() == hard ==> x <= y
  }

  /** A legal group of two exists: the condition under which an older ready branch cannot keep
      the oldest ready non-hard instruction out. */
  ghost predicate PairIssues(ins: Trace, ready: seq<nat>) {
    exists a, b :: LegalGroup(ins, ready, [a, b])
  }

  lemma WiderThanOneHasPair(ins: Trace, ready: seq<nat>, group: seq<nat>)
    requires LegalGroup(ins, ready, group) && |group| >= 2
    ensures PairIssues(ins, ready)
  {
    var pipes :| LegalPipes(ins, group, pipes);
    assert LegalPipes(ins, [group[0], group[1]], [pipes[0], pipes[1]]);
    assert LegalGroup(ins, ready, [group[0], group[1]]);
  }

  /** Exactly when the window policy issues the oldest ready non-hard instruction x: unless an
      older hard instruction is ready and no two ready instructions may issue together. */
  lemma OldestReadyIssues(ins: Trace, ready: seq<nat>, group: seq<nat>, x: nat)
    requires InTrace(ins, ready) && Ascending(ready)
    requires WindowChoice(ins, ready, group)
    requires OldestSuch(ins, ready, false, x)
    ensures x in group <==> !ins[ready[0]].IsHard() || PairIssues(ins, ready)
    ensures x !in group ==> group == [ready[0]]
  {
    assert ready[0] in ready;
    if x !in group {
      BypassingGroup(ins, ready, group, x);
      assert forall a, b :: !LegalGroup(ins, ready, [a, b]);
    } else if ins[ready[0]].IsHard() {
      if |group| >= 2 {
        WiderThanOneHasPair(ins, ready, group);
      } else {
        assert group == [x];
        LoneChoiceIsOldest(ins, ready, group);
      }
    }
  }

  lemma LoneChoiceIsOldest(ins: Trace, ready: seq<nat>, group: seq<nat>)
    requires InTrace(ins, ready) && Ascending(ready) && |ready| > 0
    requires WindowChoice(ins, ready, group) && |group| == 1
    ensures group == [ready[0]]
  {
    SingleIsLegal(ins, ready, ready[0]);
    assert !LexBefore([ready[0]], group);
    assert group[0] in ready;
    var k :| 0 <= k < |ready| && ready[k] == group[0];
    assert ready[0] <= ready[k];
  }

  lemma BypassingGroup(ins: Trace, ready: seq<nat>, group: seq<nat>, x: nat)
    requires InTrace(ins, ready) && Ascending(ready) && |ready| > 0
    requires WindowChoice(ins, ready, group)
    requires OldestSuch(ins, ready, false, x) && x !in group
    ensures group == [ready[0]] && ins[ready[0]].IsHard()
  {
    assert exists k :: 0 <= k < |group| && group[k] <= x by {
      if forall k :: 0 <= k < |group| ==> x < group[k] {
        var better := OldestJoins(ins, ready, group, x);
      }
    }
    var k :| 0 <= k < |group| && group[k] <= x;
    assert group[0] <= group[k];
    assert group[0] in ready && group[0] < x;
    assert ins[group[0]].IsHard();
    assert |group| == 1;
    LoneChoiceIsOldest(ins, ready, group);
  }

  /** A ready group always issues something. */
  lemma WindowChoiceIssues(ins: Trace, ready: seq<nat>, group: seq<nat>)
    requires InTrace(ins, ready) && |ready| > 0
    requires WindowChoice(ins, ready, group)
    ensures |group| > 0
  {
    SingleIsLegal(ins, ready, ready[0]);
  }

  /** A ready hard instruction followed by one other ready instruction issues alone. */
  lemma HardFirstIssuesAlone(ins: Trace, x: nat, y: nat)
    requires x < y < |ins| && ins[x].IsHard()
    ensures WindowChoice(ins, [x, y], [x])
  {
    hide Instruction.PipeOptions, Instruction.IsHard;
    SingleIsLegal(ins, [x, y], x);
    forall other | LegalGroup(ins, [x, y], other)
      ensures |other| < 1 || (|other| == 1 && !LexBefore(other, [x]))
    {
      if |other| >= 1 {
        FirstOfTwo(ins, x, y, other);
      }
    }
  }

  lemma FirstOfTwo(ins: Trace, x: nat, y: nat, group: seq<nat>)
    requires x < y < |ins| && |group| >= 1 && Ascending(group) && InTrace(ins, group)
    requires forall k :: 0 <= k < |group| ==> group[k] in [x, y]
    ensures group[0] >= x
    ensures |group| >= 2 ==> group[0] == x
  {
    assert group[0] in [x, y];
    if |group| >= 2 {
      assert group[1] in [x, y] && group[0] < group[1];
    }
  }

  /** Concrete counterexample to "the oldest ready non-hard instruction always issues": a ready
      branch (opcode 0x63) followed by one ready ALU instruction (opcode 0x33). */
  lemma BranchBypassesOldestAlu()
    ensures var branch := Instruction(0x63, false, false, 0, 0, false, 0, 0, 0, 0, 1);
            var alu := Instruction(0x33, false, false, 0, 0, true, 1, 0, 0, 0, 1);
            && OldestSuch([branch, alu], [0, 1], false, 1)
            && WindowChoice([branch, alu], [0, 1], [0])
  {
    var branch := Instruction(0x63, false, false, 0, 0, false, 0, 0, 0, 0, 1);
    var alu := Instruction(0x33, false, false, 0, 0, true, 1, 0, 0, 0, 1);
    HardFirstIssuesAlone([branch, alu], 0, 1);
    hide WindowChoice;
  }
}
