/** The committed instruction stream of tools/issue_window_experiment.py: instruction
    classes, the links to the youngest older producers, and monotone release times. */
module IssueTrace {
  import opened Options

  type Register = r: nat | r < 32

  datatype Instruction = Instruction(
    bits: nat,
    usesRs1: bool, usesRs2: bool, rs1: Register, rs2: Register,
    writesRd: bool, rd: Register,
    observedRelease: int, intrinsicRelease: int,
    actualIssue: int, actualComplete: int)
  {
    function Opcode(): nat { bits % 0x80 }

    predicate IsMem() { Opcode() in {0x03, 0x23, 0x2f} }
    predicate IsStore() { Opcode() == 0x23 }
    predicate IsBranch() { Opcode() == 0x63 }
    predicate IsJump() { Opcode() in {0x67, 0x6f} }
    predicate IsSystemOrFence() { Opcode() in {0x0f, 0x73} }
    predicate IsHard() { IsBranch() || IsJump() || IsSystemOrFence() }
    predicate IsPersistentHard() { IsJump() || IsSystemOrFence() }

    // The M extension: an OP or OP-32 opcode with funct7 == 1.
    predicate IsM() { Opcode() in {0x33, 0x3b} && bits / 0x200_0000 % 0x80 == 1 }

    function PipeOptions(): seq<nat> {
      if IsMem() then [2]
      else if IsBranch() || IsJump() || IsSystemOrFence() then [0]
      else if IsM() then [1]
      else [0, 1]
    }

    function Latency(): nat {
      if actualComplete - actualIssue > 1 then actualComplete - actualIssue else 1
    }

    // x0 is never written.
    predicate Writes(r: Register) { writesRd && rd == r && r != 0 }
  }

  type Trace = seq<Instruction>

  /** The youngest instruction before position n that writes register r. */
  function LastWriter(ins: Trace, n: nat, r: Register): Option<nat>
    requires n <= |ins|
  {
    if n == 0 then None
    else if ins[n - 1].Writes(r) then Some(n - 1)
    else LastWriter(ins, n - 1, r)
  }

  function LastMem(ins: Trace, n: nat): Option<nat>
    requires n <= |ins|
  {
    if n == 0 then None
    else if ins[n - 1].IsMem() then Some(n - 1)
    else LastMem(ins, n - 1)
  }

  function Producer(ins: Trace, i: nat, uses: bool, r: Register): Option<nat>
    requires i <= |ins|
  {
    if uses && r != 0 then LastWriter(ins, i, r) else None
  }

  function Producer1(ins: Trace, i: nat): Option<nat>
    requires i < |ins|
  {
    Producer(ins, i, ins[i].usesRs1, ins[i].rs1)
  }

  function Producer2(ins: Trace, i: nat): Option<nat>
    requires i < |ins|
  {
    Producer(ins, i, ins[i].usesRs2, ins[i].rs2)
  }

  datatype Links = Links(deps: seq<nat>, previousMem: Option<nat>)

  /** What the links of instruction i must say about the stream before it. */
  ghost predicate LinkedAt(ins: Trace, links: seq<Links>, i: nat)
    requires i < |ins| && i < |links|
  {
    && (forall p :: p in links[i].deps <==> Producer1(ins, i) == Some(p) || Producer2(ins, i) == Some(p))
    && (forall a, b :: 0 <= a < b < |links[i].deps| ==> links[i].deps[a] != links[i].deps[b])
    && links[i].previousMem == (if ins[i].IsMem() then LastMem(ins, i) else None)
  }

  ghost predicate Linked(ins: Trace, links: seq<Links>) {
    |links| == |ins| && forall i :: 0 <= i < |ins| ==> LinkedAt(ins, links, i)
  }

  lemma {:induction false} LastWriterIsYoungest(ins: Trace, n: nat, r: Register)
    requires n <= |ins|
    ensures match LastWriter(ins, n, r)
            case Some(j) => j < n && ins[j].Writes(r) && forall k :: j < k < n ==> !ins[k].Writes(r)
            case None => forall k :: 0 <= k < n ==> !ins[k].Writes(r)
  {
    if n > 0 {
      LastWriterIsYoungest(ins, n - 1, r);
    }
  }

  lemma {:induction false} LastMemIsYoungest(ins: Trace, n: nat)
    requires n <= |ins|
    ensures match LastMem(ins, n)
            case Some(j) => j < n && ins[j].IsMem() && forall k :: j < k < n ==> !ins[k].IsMem()
            case None => forall k :: 0 <= k < n ==> !ins[k].IsMem()
  {
    if n > 0 {
      LastMemIsYoungest(ins, n - 1);
    }
  }

  method AddProducer(deps: seq<nat>, producer: Option<nat>) returns (extended: seq<nat>)
    requires forall a, b :: 0 <= a < b < |deps| ==> deps[a] != deps[b]
    ensures forall a, b :: 0 <= a < b < |extended| ==> extended[a] != extended[b]
    ensures forall p :: p in extended <==> p in deps || producer == Some(p)
    ensures deps <= extended
  {
    extended := deps;
    if producer.Some? && producer.value !in deps {
      extended := extended + [producer.value];
    }
  }

  /** The dependency pass at the end of load_trace. */
  method LinkDependencies(ins: Trace) returns (links: seq<Links>)
    ensures Linked(ins, links)
  {
    hide Instruction.IsMem;
    var lastWriter: array<Option<nat>> := new Option<nat>[32](_ => None);
    var previousMem: Option<nat> := None;
    links := [];
    for index := 0 to |ins|
      invariant |links| == index
      invariant forall r: nat :: r < 32 ==> lastWriter[r] == LastWriter(ins, index, r)
      invariant previousMem == LastMem(ins, index)
      invariant forall i :: 0 <= i < index ==> LinkedAt(ins, links, i)
    {
      var instruction := ins[index];
      var producer1: Option<nat> :=
        if instruction.usesRs1 && instruction.rs1 != 0 then lastWriter[instruction.rs1] else None;
      var producer2: Option<nat> :=
        if instruction.usesRs2 && instruction.rs2 != 0 then lastWriter[instruction.rs2] else None;
      var deps := AddProducer([], producer1);
      deps := AddProducer(deps, producer2);
      ghost var before := links;
      links := links + [Links(deps, if instruction.IsMem() then previousMem else None)];
      assert forall i :: 0 <= i < index ==> LinkedAt(ins, before, i) && links[i] == before[i];
      if instruction.writesRd && instruction.rd != 0 {
        lastWriter[instruction.rd] := Some(index);
      }
      if instruction.IsMem() {
        previousMem := Some(index);
      }
    }
  }

  const RELEASE_FLOOR: int := -1_000_000_000_000_000_000

  /** The latest of the floor and the first n requested times. */
  function RunningMax(values: seq<int>, n: nat): int
    requires n <= |values|
  {
    if n == 0 then RELEASE_FLOOR
    else if RunningMax(values, n - 1) >= values[n - 1] then RunningMax(values, n - 1)
    else values[n - 1]
  }

  method MonotonicRelease(values: seq<int>) returns (result: seq<int>)
    ensures |result| == |values|
    ensures forall i :: 0 <= i < |result| ==> result[i] == RunningMax(values, i + 1)
  {
    result := [];
    var previous := RELEASE_FLOOR;
    for index := 0 to |values|
      invariant |result| == index
      invariant previous == RunningMax(values, index)
      invariant forall i :: 0 <= i < index ==> result[i] == RunningMax(values, i + 1)
    {
      previous := if previous >= values[index] then previous else values[index];
      result := result + [previous];
    }
  }

  /** It is the least bound of the floor and the requests, so release times never decrease. */
  lemma {:induction false} RunningMaxIsLeast(values: seq<int>, n: nat)
    requires n <= |values|
    ensures RELEASE_FLOOR <= RunningMax(values, n)
    ensures forall i :: 0 <= i < n ==> values[i] <= RunningMax(values, n)
    ensures RunningMax(values, n) == RELEASE_FLOOR || RunningMax(values, n) in values[..n]
    ensures n < |values| ==> RunningMax(values, n) <= RunningMax(values, n + 1)
  {
    if n > 0 {
      RunningMaxIsLeast(values, n - 1);
      assert values[..n] == values[..n - 1] + [values[n - 1]];
    }
  }
}
