/**
  The def-use walk and the taint primitive (src/idamesh/domain/services/data_flow.py) in terms of
  operands and mnemonics alone: what an instruction reads, writes, copies, zeroes and clobbers decides
  which locations are followed and what each step says.
*/
module DataFlowLaws {
  import opened Common
  import opened Decoded
  import opened DataFlow

  // ---------------------------------------------------------------- what operands name

  predicate IsFamily(r: Option<Register>, f: Family) {
    r.Some? && r.value.family == f && f != OtherFamily("")
  }

  /** The operand names the location: a register, a plain stack slot, or a cell at a fixed address. */
  predicate Names(op: Operand, loc: Location) {
    match loc
    case InReg(f) => op.kind == RegKind && IsFamily(op.reg, f)
    case InStack(slot) =>
      && op.kind == PhraseKind && op.indexReg == None
      && op.base.Some? && op.base.value.family in {RSP, RBP} && op.base.value.width in {Qword, Dword, Word}
      && slot == (if op.disp.Some? then op.disp.value else 0)
    case InMemory(address) => op.kind == MemKind && op.value == Some(address)
  }

  lemma LocationIsNamed(op: Operand, loc: Location)
    ensures LocationOf(op) == Some(loc) <==> Names(op, loc)
  {
  }

  /** The operand reads the location, or uses it to compute an address. */
  predicate OperandReadsIt(op: Operand, loc: Location) {
    || (op.isRead && Names(op, loc))
    || (op.kind == PhraseKind && loc.InReg? && (IsFamily(op.base, loc.family) || IsFamily(op.indexReg, loc.family)))
  }

  predicate ReadsIt(insn: Instruction, loc: Location) {
    exists i :: 0 <= i < |insn.operands| && OperandReadsIt(insn.operands[i], loc)
  }

  predicate WritesIt(insn: Instruction, loc: Location) {
    exists i :: 0 <= i < |insn.operands| && insn.operands[i].isWrite && Names(insn.operands[i], loc)
  }

  /** `op` is operand `n`: the first that carries the number, or failing that the one in that place. */
  ghost predicate IsOperand(insn: Instruction, n: nat, op: Operand) {
    exists i :: 0 <= i < |insn.operands| && insn.operands[i] == op && IsNumbered(insn.operands, n, i)
  }

  predicate IsNumbered(ops: seq<Operand>, n: nat, i: nat) {
    if exists j :: 0 <= j < |ops| && ops[j].index == n
    then i < |ops| && ops[i].index == n && forall j :: 0 <= j < i ==> ops[j].index != n
    else i == n
  }

  predicate IsMove(m: Mnemonic) {
    m == Mov || m == Movzx || m == Movsx || m == Movsxd || m == Lea || m == Movq || m == Movd
  }

  ghost predicate CopiesTo(insn: Instruction, loc: Location) {
    IsMove(insn.mnemonic) && exists op :: IsOperand(insn, 0, op) && op.isWrite && Names(op, loc)
  }

  ghost predicate CopiesFrom(insn: Instruction, loc: Location) {
    IsMove(insn.mnemonic) && exists op :: IsOperand(insn, 1, op) && op.isRead && Names(op, loc)
  }

  /** `xor r, r` or `sub r, r`. */
  ghost predicate Zeroes(insn: Instruction, loc: Location) {
    && (insn.mnemonic == Xor || insn.mnemonic == Sub) && loc.InReg?
    && exists a, b :: IsOperand(insn, 0, a) && IsOperand(insn, 1, b) && Names(a, loc) && Names(b, loc)
  }

  predicate Clobbers(insn: Instruction, loc: Location) {
    insn.mnemonic == CallInsn && loc.InReg? && loc.family in {RAX, RCX, RDX, R8, R9, R10, R11}
  }

  // ---------------------------------------------------------------- the model's functions say the same

  lemma {:induction false} ReadsMean(ops: seq<Operand>, loc: Location)
    ensures loc in ReadsOf(ops) <==> exists i :: 0 <= i < |ops| && OperandReadsIt(ops[i], loc)
    decreases |ops|
  {
    if ops != [] {
      var init, last := ops[..|ops| - 1], ops[|ops| - 1];
      ReadsMean(init, loc);
      OperandReadsMean(last, loc);
      hide OperandReadsIt, OperandReads;
      if i :| 0 <= i < |ops| && OperandReadsIt(ops[i], loc) {
        if i < |init| { assert init[i] == ops[i]; }
      }
      if i :| 0 <= i < |init| && OperandReadsIt(init[i], loc) { assert ops[i] == init[i]; }
    }
  }

  lemma OperandReadsMean(op: Operand, loc: Location)
    ensures loc in OperandReads(op) <==> OperandReadsIt(op, loc)
  {
    LocationIsNamed(op, loc);
    hide LocationOf, Names;
  }

  lemma ReadsAndWrites(insn: Instruction, loc: Location)
    ensures loc in Reads(insn) <==> ReadsIt(insn, loc)
    ensures loc in Writes(insn) <==> WritesIt(insn, loc)
  {
    ReadsMean(insn.operands, loc);
    WritesMember(insn.operands, loc);
    forall i | 0 <= i < |insn.operands|
      ensures LocationOf(insn.operands[i]) == Some(loc) <==> Names(insn.operands[i], loc) {
      LocationIsNamed(insn.operands[i], loc);
    }
    hide LocationOf, Names, OperandReadsIt;
  }

  lemma {:induction false} FoundIsFirst(ops: seq<Operand>, n: int)
    ensures FindOperand(ops, n) == None <==> forall j :: 0 <= j < |ops| ==> ops[j].index != n
    ensures forall i :: 0 <= i < |ops| && ops[i].index == n && (forall j :: 0 <= j < i ==> ops[j].index != n) ==>
      FindOperand(ops, n) == Some(ops[i])
  {
    if ops != [] && ops[0].index != n {
      FoundIsFirst(ops[1..], n);
      assert forall j :: 0 < j < |ops| ==> ops[j] == ops[1..][j - 1];
    }
  }

  lemma OperandIsNumbered(insn: Instruction, n: nat, op: Operand)
    ensures OperandAt(insn, n) == Some(op) <==> IsOperand(insn, n, op)
  {
    FoundIsFirst(insn.operands, n);
    if OperandAt(insn, n) == Some(op) {
      var i := NumberedExists(insn.operands, n);
    }
  }

  lemma {:induction false} FirstNumbered(ops: seq<Operand>, n: nat, k: nat) returns (i: nat)
    requires k < |ops| && ops[k].index == n
    ensures i <= k && ops[i].index == n && forall j :: 0 <= j < i ==> ops[j].index != n
  {
    i := 0;
    while ops[i].index != n
      invariant i <= k && forall j :: 0 <= j < i ==> ops[j].index != n
      decreases k - i
    {
      i := i + 1;
    }
  }

  lemma NumberedExists(ops: seq<Operand>, n: nat) returns (i: nat)
    requires FindOperand(ops, n).Some? || n < |ops|
    ensures i < |ops| && IsNumbered(ops, n, i)
  {
    FoundIsFirst(ops, n);
    if k: nat :| k < |ops| && ops[k].index == n {
      i := FirstNumbered(ops, n, k);
    } else {
      i := n;
    }
  }

  lemma CopiesMean(insn: Instruction, loc: Location)
    ensures MoveDestination(insn) == Some(loc) <==> CopiesTo(insn, loc)
    ensures MoveSource(insn) == Some(loc) <==> CopiesFrom(insn, loc)
  {
    assert IsCopy(insn.mnemonic) <==> IsMove(insn.mnemonic);
    forall op ensures OperandAt(insn, 0) == Some(op) <==> IsOperand(insn, 0, op) { OperandIsNumbered(insn, 0, op); }
    forall op ensures OperandAt(insn, 1) == Some(op) <==> IsOperand(insn, 1, op) { OperandIsNumbered(insn, 1, op); }
    forall op ensures LocationOf(op) == Some(loc) <==> Names(op, loc) { LocationIsNamed(op, loc); }
    hide OperandAt, IsOperand, LocationOf, Names, IsCopy, IsMove;
  }

  lemma ClearedMeans(insn: Instruction, loc: Location)
    ensures Cleared(insn) == Some(loc) <==> Zeroes(insn, loc)
  {
    forall op ensures OperandAt(insn, 0) == Some(op) <==> IsOperand(insn, 0, op) { OperandIsNumbered(insn, 0, op); }
    forall op ensures OperandAt(insn, 1) == Some(op) <==> IsOperand(insn, 1, op) { OperandIsNumbered(insn, 1, op); }
    forall op ensures LocationOf(op) == Some(loc) <==> Names(op, loc) { LocationIsNamed(op, loc); }
    hide OperandAt, IsOperand, LocationOf, Names;
  }

  // ---------------------------------------------------------------- taint

  ghost predicate ReadsAny(insn: Instruction, locs: set<Location>) {
    exists x :: x in locs && ReadsIt(insn, x)
  }

  lemma ReadsAnyMeans(insn: Instruction, locs: set<Location>)
    ensures ReadsAny(insn, locs) <==> locs * Reads(insn) != {}
  {
    forall x ensures x in Reads(insn) <==> ReadsIt(insn, x) { ReadsAndWrites(insn, x); }
    hide Reads, ReadsIt;
    if x :| x in locs && ReadsIt(insn, x) { assert x in locs * Reads(insn); }
  }

  /** The instruction copies something tainted to the location. */
  ghost predicate Taints(insn: Instruction, tainted: set<Location>, loc: Location) {
    CopiesTo(insn, loc) && ReadsAny(insn, tainted)
  }

  /**
    The instruction takes the location's taint away: a call that clobbers it, an idiom that zeroes it, or
    any other instruction that writes it and reads nothing tainted.
  */
  ghost predicate Cleans(insn: Instruction, tainted: set<Location>, loc: Location) {
    || Clobbers(insn, loc)
    || Zeroes(insn, loc)
    || (&& insn.mnemonic != CallInsn && (forall r :: !Zeroes(insn, r))
        && WritesIt(insn, loc) && !ReadsAny(insn, tainted))
  }

  /** One instruction, location by location. */
  lemma PropagatesIff(insn: Instruction, tainted: set<Location>, loc: Location)
    ensures loc in Propagate(insn, tainted)
      <==> Taints(insn, tainted, loc) || (loc in tainted && !Cleans(insn, tainted, loc))
  {
    ReadsAnyMeans(insn, tainted);
    ReadsAndWrites(insn, loc);
    CopiesMean(insn, loc);
    forall r ensures Cleared(insn) == Some(r) <==> Zeroes(insn, r) { ClearedMeans(insn, r); }
    CopiesAreMoves(insn, loc);
    assert Clobbers(insn, loc) <==> insn.mnemonic == CallInsn && loc in CALL_CLOBBERED;
    hide Cleared, MoveDestination, Reads, Writes, ReadsIt, WritesIt, CopiesTo, Zeroes, Clobbers, ReadsAny;
  }

  /** A copy is neither a call nor a zeroing idiom, and only that idiom's mnemonics zero. */
  lemma CopiesAreMoves(insn: Instruction, loc: Location)
    ensures CopiesTo(insn, loc) ==> insn.mnemonic != CallInsn && Cleared(insn) == None
    ensures insn.mnemonic == CallInsn ==> Cleared(insn) == None
  {
    hide IsOperand, Names, OperandAt, LocationOf;
  }

  /** The location becomes tainted on reaching `i`: it is seeded there, or just copied to. */
  ghost predicate BecomesTainted(insns: seq<Instruction>, start: nat, seeds: set<Location>, i: nat, loc: Location)
    requires start <= i <= |insns|
  {
    if i == start then loc in seeds else Taints(insns[i - 1], TaintAt(insns, start, seeds, i - 1), loc)
  }

  ghost predicate StaysTainted(insns: seq<Instruction>, start: nat, seeds: set<Location>, i: nat, end: nat,
                               loc: Location)
    requires start <= i <= end <= |insns|
  {
    forall k :: i <= k < end ==> !Cleans(insns[k], TaintAt(insns, start, seeds, k), loc)
  }

  ghost predicate TaintedSince(insns: seq<Instruction>, start: nat, seeds: set<Location>, i: nat, end: nat,
                               loc: Location) {
    && start <= i <= end <= |insns|
    && BecomesTainted(insns, start, seeds, i, loc) && StaysTainted(insns, start, seeds, i, end, loc)
  }

  /**
    A location is tainted on reaching an instruction exactly if at some earlier point it was seeded or
    was copied to from something tainted, and nothing since then cleaned it.
  */
  lemma {:induction false} TaintedIff(insns: seq<Instruction>, start: nat, seeds: set<Location>, end: nat,
                                      loc: Location)
    requires start <= end <= |insns|
    ensures loc in TaintAt(insns, start, seeds, end)
      <==> exists i: nat :: TaintedSince(insns, start, seeds, i, end, loc)
    decreases end
  {
    hide Taints, Cleans;
    if end == start {
      if loc in seeds { assert TaintedSince(insns, start, seeds, start, start, loc); }
    } else {
      var last := end - 1;
      TaintedIff(insns, start, seeds, last, loc);
      PropagatesIff(insns[last], TaintAt(insns, start, seeds, last), loc);
      forall i: nat
        ensures TaintedSince(insns, start, seeds, i, end, loc)
          <==> (i == end && Taints(insns[last], TaintAt(insns, start, seeds, last), loc))
               || (TaintedSince(insns, start, seeds, i, last, loc)
                   && !Cleans(insns[last], TaintAt(insns, start, seeds, last), loc))
      {
      }
      hide TaintedSince;
      if Taints(insns[last], TaintAt(insns, start, seeds, last), loc) {
        assert TaintedSince(insns, start, seeds, end, end, loc);
      }
    }
  }

  // ---------------------------------------------------------------- the forward walk

  /** The locations the forward walk tracks on reaching `k`. */
  function TrackedAt(insns: seq<Instruction>, start: nat, seeds: set<Location>, k: nat): set<Location>
    requires start <= k <= |insns|
    decreases k
  {
    if k == start then seeds else ForwardStep(insns[k - 1], TrackedAt(insns, start, seeds, k - 1)).1
  }

  /** One instruction, location by location: a copy of something tracked adds its destination, an overwrite ends it. */
  lemma TracksIff(insn: Instruction, tracked: set<Location>, loc: Location)
    ensures loc in ForwardStep(insn, tracked).1
      <==> (ReadsAny(insn, tracked) && CopiesTo(insn, loc))
           || (loc in tracked && !(WritesIt(insn, loc) && !ReadsAny(insn, tracked)))
  {
    ReadsAnyMeans(insn, tracked);
    ReadsAndWrites(insn, loc);
    CopiesMean(insn, loc);
    assert loc in tracked && loc in Writes(insn) ==> loc in tracked * Writes(insn);
    hide MoveDestination, Reads, Writes, ReadsIt, WritesIt, CopiesTo, ReadsAny;
  }

  ghost predicate AddsCopy(insn: Instruction, tracked: set<Location>, d: Location) {
    ReadsAny(insn, tracked) && CopiesTo(insn, d) && d !in tracked
  }

  ghost predicate WritesAny(insn: Instruction, locs: set<Location>) {
    exists x :: x in locs && WritesIt(insn, x)
  }

  /** What one step says, from the operands read and written and the set tracked. */
  ghost predicate Describes(step: Step, insn: Instruction, tracked: set<Location>) {
    && step.ea == insn.ea
    && (forall d :: step.note == Propagated(d) <==> AddsCopy(insn, tracked, d))
    && (step.note == Transformed <==>
          ReadsAny(insn, tracked) && (forall d :: !AddsCopy(insn, tracked, d)) && WritesAny(insn, tracked))
    && (step.note == Used <==>
          ReadsAny(insn, tracked) && (forall d :: !AddsCopy(insn, tracked, d)) && !WritesAny(insn, tracked))
    && (step.note.Redefined? <==> !ReadsAny(insn, tracked) && WritesAny(insn, tracked))
    && (step.note.Redefined? ==> forall x :: x in step.note.killed <==> x in tracked && WritesIt(insn, x))
  }

  ghost predicate IsTouched(insn: Instruction, tracked: set<Location>) {
    ReadsAny(insn, tracked) || WritesAny(insn, tracked)
  }

  lemma WritesAnyMeans(insn: Instruction, locs: set<Location>)
    ensures WritesAny(insn, locs) <==> locs * Writes(insn) != {}
    ensures forall x :: x in Writes(insn) <==> WritesIt(insn, x)
  {
    forall x ensures x in Writes(insn) <==> WritesIt(insn, x) { ReadsAndWrites(insn, x); }
    hide Writes, WritesIt;
    if x :| x in locs && WritesIt(insn, x) { assert x in locs * Writes(insn); }
  }

  lemma StepDescribes(insn: Instruction, tracked: set<Location>)
    ensures ForwardStep(insn, tracked).0.Some? <==> IsTouched(insn, tracked)
    ensures IsTouched(insn, tracked) ==> Describes(ForwardStep(insn, tracked).0.value, insn, tracked)
  {
    ReadsAnyMeans(insn, tracked);
    WritesAnyMeans(insn, tracked);
    forall d ensures MoveDestination(insn) == Some(d) <==> CopiesTo(insn, d) { CopiesMean(insn, d); }
    assert forall d ::
      AddsCopy(insn, tracked, d) <==> ReadsAny(insn, tracked) && MoveDestination(insn) == Some(d) && d !in tracked;
    hide MoveDestination, Reads, Writes, ReadsIt, WritesIt, CopiesTo, AddsCopy, ReadsAny, WritesAny;
  }

  /** `at` lists the touched instructions from `k` on, in order. */
  ghost predicate ListsTouched(insns: seq<Instruction>, start: nat, seeds: set<Location>, k: nat, at: seq<nat>)
    requires start <= k <= |insns|
  {
    && (forall m, n :: 0 <= m < n < |at| ==> at[m] < at[n])
    && (forall m :: 0 <= m < |at| ==> k <= at[m] < |insns|)
    && forall j: nat :: k <= j < |insns| ==> (j in at <==> IsTouched(insns[j], TrackedAt(insns, start, seeds, j)))
  }

  /** Step `m` describes the instruction `at[m]`, given what is tracked there. */
  ghost predicate AreDescribed(insns: seq<Instruction>, start: nat, seeds: set<Location>, at: seq<nat>,
                               steps: seq<Step>) {
    && |at| == |steps|
    && forall m :: 0 <= m < |at| ==>
         && start <= at[m] < |insns|
         && Describes(steps[m], insns[at[m]], TrackedAt(insns, start, seeds, at[m]))
  }

  lemma {:induction false} TraceFrom(insns: seq<Instruction>, start: nat, seeds: set<Location>, k: nat)
    returns (at: seq<nat>)
    requires start <= k <= |insns|
    ensures ListsTouched(insns, start, seeds, k, at)
    ensures AreDescribed(insns, start, seeds, at, ForwardTrace(insns, k, TrackedAt(insns, start, seeds, k)))
    decreases |insns| - k
  {
    hide *;
    var tracked := TrackedAt(insns, start, seeds, k);
    if k == |insns| {
      at := [];
      NothingListed(insns, start, seeds);
    } else {
      at := TraceFrom(insns, start, seeds, k + 1);
      var step := ForwardStep(insns[k], tracked).0;
      var later := ForwardTrace(insns, k + 1, TrackedAt(insns, start, seeds, k + 1));
      StepDescribes(insns[k], tracked);
      TraceStep(insns, k, tracked);
      TrackedNext(insns, start, seeds, k);
      if step.Some? {
        FirstIsListed(insns, start, seeds, k, at);
        FirstIsDescribed(insns, start, seeds, k, at, step.value, later);
        at := [k] + at;
      } else {
        FirstIsQuiet(insns, start, seeds, k, at);
      }
    }
  }

  lemma NothingListed(insns: seq<Instruction>, start: nat, seeds: set<Location>)
    requires start <= |insns|
    ensures ListsTouched(insns, start, seeds, |insns|, [])
    ensures forall tracked :: AreDescribed(insns, start, seeds, [], ForwardTrace(insns, |insns|, tracked))
  {
  }

  lemma TrackedNext(insns: seq<Instruction>, start: nat, seeds: set<Location>, k: nat)
    requires start <= k < |insns|
    ensures TrackedAt(insns, start, seeds, k + 1) == ForwardStep(insns[k], TrackedAt(insns, start, seeds, k)).1
  {
  }

  lemma FirstIsListed(insns: seq<Instruction>, start: nat, seeds: set<Location>, k: nat, rest: seq<nat>)
    requires start <= k < |insns| && ListsTouched(insns, start, seeds, k + 1, rest)
    requires IsTouched(insns[k], TrackedAt(insns, start, seeds, k))
    ensures ListsTouched(insns, start, seeds, k, [k] + rest)
  {
    hide IsTouched, TrackedAt;
  }

  lemma FirstIsQuiet(insns: seq<Instruction>, start: nat, seeds: set<Location>, k: nat, rest: seq<nat>)
    requires start <= k < |insns| && ListsTouched(insns, start, seeds, k + 1, rest)
    requires !IsTouched(insns[k], TrackedAt(insns, start, seeds, k))
    ensures ListsTouched(insns, start, seeds, k, rest)
  {
    hide IsTouched, TrackedAt;
  }

  lemma FirstIsDescribed(insns: seq<Instruction>, start: nat, seeds: set<Location>, k: nat, rest: seq<nat>, step: Step,
                         later: seq<Step>)
    requires start <= k < |insns| && AreDescribed(insns, start, seeds, rest, later)
    requires Describes(step, insns[k], TrackedAt(insns, start, seeds, k))
    ensures AreDescribed(insns, start, seeds, [k] + rest, [step] + later)
  {
    hide Describes, TrackedAt;
  }

  lemma TraceStep(insns: seq<Instruction>, k: nat, tracked: set<Location>)
    requires k < |insns|
    ensures var (step, after) := ForwardStep(insns[k], tracked);
      ForwardTrace(insns, k, tracked)
      == if step.Some? then [step.value] + ForwardTrace(insns, k + 1, after) else ForwardTrace(insns, k + 1, after)
  {
    hide Reads, Writes, MoveDestination;
    var (step, after) := ForwardStep(insns[k], tracked);
    assert [] + ForwardTrace(insns, k + 1, after) == ForwardTrace(insns, k + 1, after);
  }

  /**
    The steps of the uncapped forward trace are the touched instructions, in order, each described by
    what it reads and writes of the locations tracked there.
  */
  lemma TraceDescribes(insns: seq<Instruction>, start: nat, seeds: set<Location>) returns (at: seq<nat>)
    requires start <= |insns|
    ensures ListsTouched(insns, start, seeds, start, at)
    ensures AreDescribed(insns, start, seeds, at, ForwardTrace(insns, start, seeds))
  {
    at := TraceFrom(insns, start, seeds, start);
    hide ListsTouched, AreDescribed, ForwardTrace;
  }

  /** A location starts being tracked on reaching `i`. */
  ghost predicate BecomesTracked(insns: seq<Instruction>, start: nat, seeds: set<Location>, i: nat, loc: Location)
    requires start <= i <= |insns|
  {
    if i == start then loc in seeds
    else ReadsAny(insns[i - 1], TrackedAt(insns, start, seeds, i - 1)) && CopiesTo(insns[i - 1], loc)
  }

  /** The location is overwritten by an instruction that reads nothing tracked. */
  ghost predicate IsRedefined(insns: seq<Instruction>, start: nat, seeds: set<Location>, k: nat, loc: Location)
    requires start <= k < |insns|
  {
    WritesIt(insns[k], loc) && !ReadsAny(insns[k], TrackedAt(insns, start, seeds, k))
  }

  ghost predicate TrackedSince(insns: seq<Instruction>, start: nat, seeds: set<Location>, i: nat, end: nat,
                               loc: Location) {
    && start <= i <= end <= |insns| && BecomesTracked(insns, start, seeds, i, loc)
    && forall k :: i <= k < end ==> !IsRedefined(insns, start, seeds, k, loc)
  }

  lemma TrackedOneMore(insns: seq<Instruction>, start: nat, seeds: set<Location>, i: nat, last: nat, loc: Location)
    requires start <= last < |insns|
    ensures TrackedSince(insns, start, seeds, i, last + 1, loc)
      <==> (i == last + 1 && ReadsAny(insns[last], TrackedAt(insns, start, seeds, last)) && CopiesTo(insns[last], loc))
           || (TrackedSince(insns, start, seeds, i, last, loc) && !IsRedefined(insns, start, seeds, last, loc))
  {
    hide ReadsAny, CopiesTo, IsRedefined, TrackedAt;
  }

  /** A location is tracked exactly if it was seeded or copied to and not redefined since. */
  lemma {:induction false} TrackedIff(insns: seq<Instruction>, start: nat, seeds: set<Location>, end: nat,
                                      loc: Location)
    requires start <= end <= |insns|
    ensures loc in TrackedAt(insns, start, seeds, end)
      <==> exists i: nat :: TrackedSince(insns, start, seeds, i, end, loc)
    decreases end
  {
    hide WritesIt, ReadsAny, CopiesTo;
    if end == start {
      if loc in seeds { assert TrackedSince(insns, start, seeds, start, start, loc); }
    } else {
      var last := end - 1;
      TrackedIff(insns, start, seeds, last, loc);
      TracksIff(insns[last], TrackedAt(insns, start, seeds, last), loc);
      TrackedNext(insns, start, seeds, last);
      assert IsRedefined(insns, start, seeds, last, loc)
        <==> WritesIt(insns[last], loc) && !ReadsAny(insns[last], TrackedAt(insns, start, seeds, last));
      hide *;
      var copied := ReadsAny(insns[last], TrackedAt(insns, start, seeds, last)) && CopiesTo(insns[last], loc);
      forall i: nat
        ensures TrackedSince(insns, start, seeds, i, end, loc)
          <==> (i == end && copied)
               || (TrackedSince(insns, start, seeds, i, last, loc) && !IsRedefined(insns, start, seeds, last, loc))
      {
        TrackedOneMore(insns, start, seeds, i, last, loc);
      }
      if copied {
        assert TrackedSince(insns, start, seeds, end, end, loc);
      }
    }
  }
}
