/**
  The bounded def-use tracer (src/idamesh/domain/services/data_flow.py).

  `ForwardStep` and `Propagate` are the two ways the source pushes a set of locations through one
  instruction; the walks iterate them.  The methods are the source's loops, proved equal to the walks.
*/
module DataFlow {
  import opened Common
  import opened Decoded

  datatype Location = InReg(family: Family) | InStack(slot: int) | InMemory(address: int)

  /** The scalar location an operand names, if it names one. */
  function LocationOf(op: Operand): Option<Location> {
    if op.kind == RegKind && op.reg.Some?
      then (if IsNamed(op.reg.value) then Some(InReg(op.reg.value.family)) else None)
    else if StackSlot(op).Some? then Some(InStack(StackSlot(op).value))
    else if op.kind == MemKind && op.value.Some? then Some(InMemory(op.value.value))
    else None
  }

  predicate IsCopy(m: Mnemonic) {
    m in {Mov, Movzx, Movsx, Movsxd, Lea, Movq, Movd}
  }

  predicate IsZeroing(m: Mnemonic) { m == Xor || m == Sub }

  const CALL_CLOBBERED: set<Location> :=
    {InReg(RAX), InReg(RCX), InReg(RDX), InReg(R8), InReg(R9), InReg(R10), InReg(R11)}

  // ---------------------------------------------------------------- what an instruction touches

  function RegisterRead(r: Option<Register>): set<Location> {
    if r.Some? && IsNamed(r.value) then {InReg(r.value.family)} else {}
  }

  /** Naming an address reads the registers that make it up, whatever is done to the cell. */
  function OperandReads(op: Operand): set<Location> {
    (if op.isRead && LocationOf(op).Some? then {LocationOf(op).value} else {})
    + (if op.kind == PhraseKind then RegisterRead(op.base) + RegisterRead(op.indexReg) else {})
  }

  function OperandWrites(op: Operand): set<Location> {
    if op.isWrite && LocationOf(op).Some? then {LocationOf(op).value} else {}
  }

  function ReadsOf(ops: seq<Operand>): set<Location> {
    if ops == [] then {} else ReadsOf(ops[..|ops| - 1]) + OperandReads(ops[|ops| - 1])
  }

  function WritesOf(ops: seq<Operand>): set<Location> {
    if ops == [] then {} else WritesOf(ops[..|ops| - 1]) + OperandWrites(ops[|ops| - 1])
  }

  function Reads(insn: Instruction): set<Location> { ReadsOf(insn.operands) }

  function Writes(insn: Instruction): set<Location> { WritesOf(insn.operands) }

  method Locations(insn: Instruction, wantRead: bool, wantWrite: bool) returns (found: set<Location>)
    ensures found == (if wantRead then Reads(insn) else {}) + (if wantWrite then Writes(insn) else {})
    ensures wantRead && !wantWrite ==> found == Reads(insn)
    ensures !wantRead && wantWrite ==> found == Writes(insn)
  {
    hide LocationOf, RegisterRead;
    found := {};
    for i := 0 to |insn.operands|
      invariant found == (if wantRead then ReadsOf(insn.operands[..i]) else {})
                         + (if wantWrite then WritesOf(insn.operands[..i]) else {})
    {
      var op := insn.operands[i];
      assert insn.operands[..i + 1][..i] == insn.operands[..i];
      var loc := LocationOf(op);
      if loc.Some? {
        if wantRead && op.isRead { found := found + {loc.value}; }
        if wantWrite && op.isWrite { found := found + {loc.value}; }
      }
      if wantRead && op.kind == PhraseKind {
        found := found + RegisterRead(op.base);
        found := found + RegisterRead(op.indexReg);
      }
    }
    assert insn.operands[..|insn.operands|] == insn.operands;
  }

  lemma {:induction false} WritesMember(ops: seq<Operand>, loc: Location)
    ensures loc in WritesOf(ops) <==> exists i :: 0 <= i < |ops| && ops[i].isWrite && LocationOf(ops[i]) == Some(loc)
  {
    if ops != [] {
      var init := ops[..|ops| - 1];
      WritesMember(init, loc);
      if i :| 0 <= i < |ops| && ops[i].isWrite && LocationOf(ops[i]) == Some(loc) {
        if i < |init| { assert init[i] == ops[i]; }
      }
      if i :| 0 <= i < |init| && init[i].isWrite && LocationOf(init[i]) == Some(loc) {
        assert ops[i] == init[i];
      }
    }
  }

  lemma {:induction false} ReadsMember(ops: seq<Operand>, i: nat)
    requires i < |ops|
    ensures OperandReads(ops[i]) <= ReadsOf(ops)
  {
    if i < |ops| - 1 {
      ReadsMember(ops[..|ops| - 1], i);
    }
  }

  function MoveDestination(insn: Instruction): Option<Location> {
    var dest := OperandAt(insn, 0);
    if !IsCopy(insn.mnemonic) || dest == None || !dest.value.isWrite then None else LocationOf(dest.value)
  }

  function MoveSource(insn: Instruction): Option<Location> {
    var src := OperandAt(insn, 1);
    if !IsCopy(insn.mnemonic) || src == None || !src.value.isRead then None else LocationOf(src.value)
  }

  lemma {:induction false} FoundIsOperand(ops: seq<Operand>, index: int) returns (i: nat)
    requires FindOperand(ops, index).Some?
    ensures i < |ops| && ops[i] == FindOperand(ops, index).value
  {
    if ops[0].index == index {
      i := 0;
    } else {
      i := FoundIsOperand(ops[1..], index);
      i := i + 1;
    }
  }

  lemma OperandIsListed(insn: Instruction, index: int) returns (i: nat)
    requires OperandAt(insn, index).Some?
    ensures i < |insn.operands| && insn.operands[i] == OperandAt(insn, index).value
  {
    if FindOperand(insn.operands, index).Some? {
      i := FoundIsOperand(insn.operands, index);
    } else {
      i := index;
    }
  }

  lemma MoveSourceIsRead(insn: Instruction)
    requires MoveSource(insn).Some?
    ensures MoveSource(insn).value in Reads(insn)
  {
    var i := OperandIsListed(insn, 1);
    ReadsMember(insn.operands, i);
  }

  /** A followed copy writes its destination and, at most, its own source. */
  predicate CopiesCleanly(insn: Instruction) {
    MoveSource(insn).Some? ==> forall loc :: loc in Writes(insn) ==>
      MoveDestination(insn) == Some(loc) || MoveSource(insn) == Some(loc)
  }

  /** Operand 0 is the only one written, as in every move of the instruction set. */
  predicate WritesOneOperand(insn: Instruction) {
    forall i :: 0 <= i < |insn.operands| && insn.operands[i].isWrite ==> OperandAt(insn, 0) == Some(insn.operands[i])
  }

  lemma OneOperandCopiesCleanly(insn: Instruction)
    requires WritesOneOperand(insn)
    ensures CopiesCleanly(insn)
  {
    forall loc | loc in Writes(insn) && MoveSource(insn).Some? ensures MoveDestination(insn) == Some(loc) {
      WritesMember(insn.operands, loc);
    }
  }

  // ---------------------------------------------------------------- forward walk

  datatype Note =
    | Propagated(to: Location)
    | Transformed
    | Used
    | Redefined(killed: set<Location>)

  datatype Step = Step(ea: int, note: Note)

  /** One instruction of the forward walk: the step it emits, if any, and the locations tracked after it. */
  function ForwardStep(insn: Instruction, tracked: set<Location>): (Option<Step>, set<Location>) {
    if tracked * Reads(insn) != {} then
      var dest := MoveDestination(insn);
      if dest.Some? && dest.value !in tracked then (Some(Step(insn.ea, Propagated(dest.value))), tracked + {dest.value})
      else if tracked * Writes(insn) != {} then (Some(Step(insn.ea, Transformed)), tracked)
      else (Some(Step(insn.ea, Used)), tracked)
    else if tracked * Writes(insn) != {} then
      (Some(Step(insn.ea, Redefined(tracked * Writes(insn)))), tracked - Writes(insn))
    else (None, tracked)
  }

  /** The whole forward trace from index `i`, with no hop budget. */
  function ForwardTrace(insns: seq<Instruction>, i: nat, tracked: set<Location>): seq<Step>
    decreases |insns| - i
  {
    if i >= |insns| || tracked == {} then []
    else
      var (step, after) := ForwardStep(insns[i], tracked);
      (if step.Some? then [step.value] else []) + ForwardTrace(insns, i + 1, after)
  }

  function Prefix<T>(s: seq<T>, n: nat): seq<T> {
    if |s| <= n then s else s[..n]
  }

  predicate Touches(insn: Instruction, tracked: set<Location>) {
    tracked * (Reads(insn) + Writes(insn)) != {}
  }

  /** The probe behind the truncation flag says yes exactly when the walk would emit another step. */
  method HasMore(insns: seq<Instruction>, index: nat, tracked: set<Location>) returns (more: bool)
    requires index <= |insns|
    ensures more <==> ForwardTrace(insns, index, tracked) != []
  {
    if tracked == {} {
      return false;
    }
    for probe := index to |insns|
      invariant ForwardTrace(insns, index, tracked) == ForwardTrace(insns, probe, tracked)
    {
      var readLocs := Locations(insns[probe], true, false);
      var writtenLocs := Locations(insns[probe], false, true);
      if tracked * (readLocs + writtenLocs) != {} {
        assert Touches(insns[probe], tracked);
        QuietIffUntouched(insns[probe], tracked);
        return true;
      }
      QuietIffUntouched(insns[probe], tracked);
    }
    more := false;
  }

  lemma QuietIffUntouched(insn: Instruction, tracked: set<Location>)
    ensures ForwardStep(insn, tracked).0.Some? <==> Touches(insn, tracked)
    ensures !Touches(insn, tracked) ==> ForwardStep(insn, tracked).1 == tracked
  {
    assert tracked * (Reads(insn) + Writes(insn)) == tracked * Reads(insn) + tracked * Writes(insn);
  }

  /** The effect of one instruction on the tracked set, and the step it emits. */
  method Visit(insn: Instruction, before: set<Location>) returns (emitted: Option<Step>, tracked: set<Location>)
    ensures (emitted, tracked) == ForwardStep(insn, before)
  {
    emitted, tracked := None, before;
    var readLocs := Locations(insn, true, false);
    var writtenLocs := Locations(insn, false, true);
    if tracked * readLocs != {} {
      var dest := MoveDestination(insn);
      if dest.Some? && dest.value !in tracked {
        tracked := tracked + {dest.value};
        emitted := Some(Step(insn.ea, Propagated(dest.value)));
      } else if tracked * writtenLocs != {} {
        emitted := Some(Step(insn.ea, Transformed));
      } else {
        emitted := Some(Step(insn.ea, Used));
      }
    } else {
      var killed := tracked * writtenLocs;
      if killed != {} {
        assert tracked - killed == tracked - Writes(insn);
        tracked := tracked - killed;
        emitted := Some(Step(insn.ea, Redefined(killed)));
      }
    }
  }

  /** The capped walk returns exactly the first `cap` steps of the uncapped one, and says whether more exist. */
  method Forward(insns: seq<Instruction>, anchor: nat, seeds: set<Location>, cap: nat)
    returns (steps: seq<Step>, truncated: bool)
    requires anchor < |insns|
    ensures steps == Prefix(ForwardTrace(insns, anchor + 1, seeds), cap)
    ensures truncated <==> |ForwardTrace(insns, anchor + 1, seeds)| > cap
  {
    hide ForwardStep, Reads, Writes;
    ghost var all := ForwardTrace(insns, anchor + 1, seeds);
    var tracked := seeds;
    steps, truncated := [], false;
    var index := anchor + 1;
    while index < |insns|
      invariant anchor + 1 <= index <= |insns|
      invariant |steps| <= cap && steps + ForwardTrace(insns, index, tracked) == all
      invariant !truncated
    {
      if |steps| >= cap {
        truncated := HasMore(insns, index, tracked);
        return;
      }
      if tracked == {} {
        break;
      }
      var emitted, after := Visit(insns[index], tracked);
      ghost var rest := ForwardTrace(insns, index + 1, after);
      if emitted.Some? {
        assert steps + ([emitted.value] + rest) == (steps + [emitted.value]) + rest;
        steps := steps + [emitted.value];
      } else {
        assert [] + rest == rest;
      }
      tracked := after;
      index := index + 1;
    }
    assert ForwardTrace(insns, index, tracked) == [];
  }

  // ---------------------------------------------------------------- backward walk

  datatype BackStep = BackStep(index: nat, ea: int, target: Option<Location>)

  /** The whole backward trace of the value of `loc` on reaching index `i`, with no hop budget. */
  function BackTrace(insns: seq<Instruction>, i: nat, loc: Location): seq<BackStep>
    requires i <= |insns|
  {
    if i == 0 then []
    else if loc !in Writes(insns[i - 1]) then BackTrace(insns, i - 1, loc)
    else
      match MoveSource(insns[i - 1])
      case Some(source) => [BackStep(i - 1, insns[i - 1].ea, Some(source))] + BackTrace(insns, i - 1, source)
      case None => [BackStep(i - 1, insns[i - 1].ea, None)]
  }

  /** Some instruction lies before the point the trace had reached when its budget ran out. */
  predicate StopsAboveStart(trace: seq<BackStep>, anchor: nat, cap: nat) {
    |trace| >= cap && (if cap == 0 then anchor else trace[cap - 1].index) > 0
  }

  /** One instruction of the backward walk on its set of tracked locations. */
  function BackwardStep(insn: Instruction, tracked: set<Location>): set<Location> {
    var defined := tracked * Writes(insn);
    if defined == {} then tracked
    else tracked - defined + (if MoveSource(insn).Some? then {MoveSource(insn).value} else {})
  }

  /** What the walk from `anchor` tracks when it has examined every instruction down to index `i`. */
  function BackwardTracked(insns: seq<Instruction>, anchor: nat, seeds: set<Location>, i: nat): set<Location>
    requires i <= anchor <= |insns|
    decreases anchor - i
  {
    if i == anchor then seeds else BackwardStep(insns[i], BackwardTracked(insns, anchor, seeds, i + 1))
  }

  function Only(at: Option<Location>): set<Location> {
    if at.Some? then {at.value} else {}
  }

  /** The hops still to come at index `i`. */
  function Remaining(insns: seq<Instruction>, i: nat, at: Option<Location>): seq<BackStep>
    requires i <= |insns|
  {
    if at.Some? then BackTrace(insns, i, at.value) else []
  }

  /** The backward walk tracks at most one location, and the hops still to come are those of that location. */
  lemma {:induction false} BackwardTracksOne(insns: seq<Instruction>, anchor: nat, seed: Location, i: nat)
    returns (done: seq<BackStep>, at: Option<Location>)
    requires i <= anchor <= |insns|
    ensures BackwardTracked(insns, anchor, {seed}, i) == Only(at)
    ensures BackTrace(insns, anchor, seed) == done + Remaining(insns, i, at)
    decreases anchor - i
  {
    hide BackTrace, BackwardStep;
    if i == anchor {
      done, at := [], Some(seed);
    } else {
      hide Remaining, Only;
      done, at := BackwardTracksOne(insns, anchor, seed, i + 1);
      var hop, next := OneStepBack(insns, i, at);
      assert done + (hop + Remaining(insns, i, next)) == (done + hop) + Remaining(insns, i, next);
      done, at := done + hop, next;
    }
  }

  lemma OneStepBack(insns: seq<Instruction>, i: nat, at: Option<Location>)
    returns (hop: seq<BackStep>, next: Option<Location>)
    requires i < |insns|
    ensures BackwardStep(insns[i], Only(at)) == Only(next)
    ensures Remaining(insns, i + 1, at) == hop + Remaining(insns, i, next)
    ensures if Only(at) * Writes(insns[i]) == {} then hop == [] && next == at
            else hop == [BackStep(i, insns[i].ea, MoveSource(insns[i]))] && next == MoveSource(insns[i])
  {
    hop, next := [], at;
    if at.Some? && at.value in Writes(insns[i]) {
      hop, next := [BackStep(i, insns[i].ea, MoveSource(insns[i]))], MoveSource(insns[i]);
      assert {at.value} * Writes(insns[i]) == {at.value};
    } else {
      assert Only(at) * Writes(insns[i]) == {};
    }
    hide Writes, MoveSource;
  }

  /**
    The backward walk returns the first `cap` hops and flags truncation exactly when the budget is
    spent with an instruction still unexamined.
  */
  method Backward(insns: seq<Instruction>, anchor: nat, seed: Location, cap: nat)
    returns (steps: seq<BackStep>, truncated: bool)
    requires anchor < |insns|
    ensures steps == Prefix(BackTrace(insns, anchor, seed), cap)
    ensures truncated <==> StopsAboveStart(BackTrace(insns, anchor, seed), anchor, cap)
  {
    ghost var all := BackTrace(insns, anchor, seed);
    var tracked := {seed};
    ghost var at := Some(seed);
    steps, truncated := [], false;
    assert Walked(insns, anchor, seed, all, steps, anchor, tracked, at);
    hide *;
    var index: int := anchor - 1;
    while index >= 0
      invariant -1 <= index < anchor
      invariant Walked(insns, anchor, seed, all, steps, index + 1, tracked, at)
      invariant |steps| <= cap
      invariant cap == 0 ==> index == anchor - 1
      invariant |steps| == cap > 0 ==> steps[cap - 1].index == index + 1
      invariant !truncated
    {
      if |steps| >= cap {
        truncated := true;
        BudgetSpent(insns, anchor, seed, all, steps, index + 1, tracked, at, cap);
        return;
      }
      if tracked == {} {
        break;
      }
      var emitted;
      ghost var before := tracked;
      tracked, emitted := VisitBack(insns[index], index, tracked);
      at := WalksOn(insns, anchor, seed, all, steps, index, before, at);
      steps := steps + emitted;
      index := index - 1;
    }
    WalkEnds(insns, anchor, seed, all, steps, index + 1, tracked, at, cap);
  }

  /** Having examined everything down to index `i`, the walk has emitted `steps` and tracks `at`. */
  ghost predicate Walked(insns: seq<Instruction>, anchor: nat, seed: Location, all: seq<BackStep>,
                         steps: seq<BackStep>, i: nat, tracked: set<Location>, at: Option<Location>) {
    && i <= anchor <= |insns| && tracked == BackwardTracked(insns, anchor, {seed}, i) == Only(at)
    && all == BackTrace(insns, anchor, seed) == steps + Remaining(insns, i, at)
  }

  lemma WalksOn(insns: seq<Instruction>, anchor: nat, seed: Location, all: seq<BackStep>, steps: seq<BackStep>, i: nat,
                tracked: set<Location>, at: Option<Location>) returns (next: Option<Location>)
    requires i < anchor && Walked(insns, anchor, seed, all, steps, i + 1, tracked, at)
    ensures var hop := if tracked * Writes(insns[i]) == {} then []
      else [BackStep(i, insns[i].ea, MoveSource(insns[i]))];
      Walked(insns, anchor, seed, all, steps + hop, i, BackwardStep(insns[i], tracked), next)
  {
    hide BackTrace, Remaining, Writes, MoveSource, BackwardStep, Only;
    var hop;
    hop, next := OneStepBack(insns, i, at);
    Regroup(steps, hop, Remaining(insns, i, next));
  }

  lemma Regroup<T>(a: seq<T>, b: seq<T>, c: seq<T>)
    ensures a + (b + c) == (a + b) + c
  {
  }

  lemma BudgetSpent(insns: seq<Instruction>, anchor: nat, seed: Location, all: seq<BackStep>, steps: seq<BackStep>,
                    i: nat, tracked: set<Location>, at: Option<Location>, cap: nat)
    requires Walked(insns, anchor, seed, all, steps, i, tracked, at) && 0 < i
    requires |steps| == cap && (cap == 0 ==> i == anchor) && (cap > 0 ==> steps[cap - 1].index == i)
    ensures Prefix(all, cap) == steps && StopsAboveStart(all, anchor, cap)
  {
    hide BackTrace, Remaining, BackwardTracked;
  }

  lemma WalkEnds(insns: seq<Instruction>, anchor: nat, seed: Location, all: seq<BackStep>, steps: seq<BackStep>, i: nat,
                 tracked: set<Location>, at: Option<Location>, cap: nat)
    requires Walked(insns, anchor, seed, all, steps, i, tracked, at) && |steps| <= cap
    requires i == 0 || (tracked == {} && |steps| < cap)
    requires cap == 0 ==> i == anchor
    requires |steps| == cap > 0 ==> steps[cap - 1].index == i
    ensures Prefix(all, cap) == steps && !StopsAboveStart(all, anchor, cap)
  {
    hide BackwardTracked;
    assert Remaining(insns, i, at) == [];
    assert all == steps;
  }

  /** The effect of one instruction on the backward walk's tracked set, and the hop it emits, if any. */
  method VisitBack(insn: Instruction, index: nat, before: set<Location>)
    returns (tracked: set<Location>, emitted: seq<BackStep>)
    ensures tracked == BackwardStep(insn, before)
    ensures emitted == if before * Writes(insn) == {} then [] else [BackStep(index, insn.ea, MoveSource(insn))]
  {
    tracked, emitted := before, [];
    var writtenLocs := Locations(insn, false, true);
    var defined := tracked * writtenLocs;
    if defined != {} {
      var source := MoveSource(insn);
      tracked := tracked - defined;
      if source.Some? {
        tracked := tracked + {source.value};
      }
      emitted := [BackStep(index, insn.ea, source)];
    }
  }

  /** Not truncated means complete; the flag may also be raised on a trace that was complete anyway. */
  lemma BackwardFlag(insns: seq<Instruction>, anchor: nat, seed: Location, cap: nat)
    requires anchor < |insns|
    ensures var all := BackTrace(insns, anchor, seed);
      !StopsAboveStart(all, anchor, cap) ==> Prefix(all, cap) == all
  {
    BackTraceDescends(insns, anchor, seed);
    var all := BackTrace(insns, anchor, seed);
    if |all| > cap > 0 {
      assert all[cap].index < all[cap - 1].index;
    }
  }

  /** The flag is right exactly unless the trace ends with the budget and an instruction is left to examine. */
  lemma BackwardFlagIsRight(insns: seq<Instruction>, anchor: nat, seed: Location, cap: nat)
    requires anchor < |insns|
    ensures var all := BackTrace(insns, anchor, seed);
      (StopsAboveStart(all, anchor, cap) <==> |all| > cap)
        <==> !(|all| == cap && (if cap == 0 then anchor else all[cap - 1].index) > 0)
  {
    BackTraceDescends(insns, anchor, seed);
    var all := BackTrace(insns, anchor, seed);
    if |all| > cap {
      assert all[cap].index < (if cap == 0 then anchor else all[cap - 1].index);
    }
  }

  lemma {:induction false} BackTraceDescends(insns: seq<Instruction>, i: nat, loc: Location)
    requires i <= |insns|
    ensures forall k :: 0 <= k < |BackTrace(insns, i, loc)| ==> BackTrace(insns, i, loc)[k].index < i
    ensures forall j, k :: 0 <= j < k < |BackTrace(insns, i, loc)| ==>
      BackTrace(insns, i, loc)[j].index > BackTrace(insns, i, loc)[k].index
  {
    if i > 0 {
      BackTraceDescends(insns, i - 1, loc);
      if MoveSource(insns[i - 1]).Some? {
        BackTraceDescends(insns, i - 1, MoveSource(insns[i - 1]).value);
      }
    }
  }

  // ---------------------------------------------------------------- the two walks are dual

  /** The locations the forward walk tracks on reaching index `end`, started with `seeds` at `start`. */
  function TrackedAt(insns: seq<Instruction>, start: nat, seeds: set<Location>, end: nat): set<Location>
    requires start <= end <= |insns|
    decreases end
  {
    if end == start then seeds else ForwardStep(insns[end - 1], TrackedAt(insns, start, seeds, end - 1)).1
  }

  /** The location whose definition hop `k` of a backward trace looks for. */
  function Sought(trace: seq<BackStep>, seed: Location, k: nat): Option<Location>
    requires k <= |trace|
  {
    if k == 0 then Some(seed) else trace[k - 1].target
  }

  /** Each hop is the nearest preceding write of the location it looks for. */
  lemma {:induction false} HopIsNearestWrite(insns: seq<Instruction>, i: nat, seed: Location, k: nat)
    requires i <= |insns| && k < |BackTrace(insns, i, seed)|
    ensures var trace := BackTrace(insns, i, seed);
      var from := if k == 0 then i else trace[k - 1].index;
      && Sought(trace, seed, k).Some?
      && trace[k].index < from <= |insns|
      && Sought(trace, seed, k).value in Writes(insns[trace[k].index])
      && (forall m :: trace[k].index < m < from ==> Sought(trace, seed, k).value !in Writes(insns[m]))
  {
    if seed !in Writes(insns[i - 1]) {
      HopIsNearestWrite(insns, i - 1, seed, k);
    } else if k > 0 {
      HopIsNearestWrite(insns, i - 1, MoveSource(insns[i - 1]).value, k - 1);
    }
  }

  /**
    Duality at one hop: the forward walk started at hop `k` with its origin alone tracks the anchor's
    location on reaching the anchor.
  */
  predicate IsDual(insns: seq<Instruction>, anchor: nat, seed: Location, k: nat)
    requires anchor <= |insns| && k < |BackTrace(insns, anchor, seed)| && BackTrace(insns, anchor, seed)[k].target.Some?
  {
    var hop := BackTrace(insns, anchor, seed)[k];
    hop.index <= anchor && seed in TrackedAt(insns, hop.index, {hop.target.value}, anchor)
  }

  /** The backward walk from `anchor` hops through copies at least `k + 1` times. */
  predicate Hops(insns: seq<Instruction>, anchor: nat, seed: Location, k: nat) {
    anchor <= |insns| && k < |BackTrace(insns, anchor, seed)| && BackTrace(insns, anchor, seed)[k].target.Some?
  }

  lemma {:induction false} BackwardIsForward(insns: seq<Instruction>, anchor: nat, seed: Location, k: nat)
    requires Hops(insns, anchor, seed, k)
    requires forall m :: 0 <= m < anchor ==> CopiesCleanly(insns[m])
    ensures IsDual(insns, anchor, seed, k)
  {
    BackTraceDescends(insns, anchor, seed);
    var hop := BackTrace(insns, anchor, seed)[k];
    var insn := insns[anchor - 1];
    if seed !in Writes(insn) {
      BackwardIsForward(insns, anchor - 1, seed, k);
    } else {
      var source := MoveSource(insn).value;
      MoveSourceIsRead(insn);
      assert CopiesCleanly(insn);
      if k > 0 {
        BackwardIsForward(insns, anchor - 1, source, k - 1);
      }
      var before := TrackedAt(insns, hop.index, {hop.target.value}, anchor - 1);
      assert source in before * Reads(insn);
    }
  }

  ghost predicate WalksAreDual(insns: seq<Instruction>) {
    forall anchor: nat, seed, k: nat :: Hops(insns, anchor, seed, k) ==> IsDual(insns, anchor, seed, k)
  }

  /** The two walks are dual, from every anchor and at every hop, if and only if every followed copy is clean. */
  lemma DualIffCopiesAreClean(insns: seq<Instruction>)
    ensures WalksAreDual(insns) <==> forall m :: 0 <= m < |insns| ==> CopiesCleanly(insns[m])
  {
    if forall m :: 0 <= m < |insns| ==> CopiesCleanly(insns[m]) {
      forall anchor: nat, seed, k: nat | Hops(insns, anchor, seed, k) ensures IsDual(insns, anchor, seed, k) {
        BackwardIsForward(insns, anchor, seed, k);
      }
    }
    if WalksAreDual(insns) {
      forall m | 0 <= m < |insns| ensures CopiesCleanly(insns[m]) {
        forall loc | loc in Writes(insns[m]) && MoveSource(insns[m]).Some?
          ensures MoveDestination(insns[m]) == Some(loc) || MoveSource(insns[m]) == Some(loc)
        {
          OneHop(insns, m, loc);
        }
      }
    }
  }

  /** At the copy itself duality says that the location is one the copy tracks. */
  lemma OneHop(insns: seq<Instruction>, m: nat, loc: Location)
    requires m < |insns| && loc in Writes(insns[m]) && MoveSource(insns[m]).Some?
    ensures Hops(insns, m + 1, loc, 0)
    ensures IsDual(insns, m + 1, loc, 0)
      <==> MoveDestination(insns[m]) == Some(loc) || MoveSource(insns[m]) == Some(loc)
  {
    var source := MoveSource(insns[m]).value;
    MoveSourceIsRead(insns[m]);
    assert source in {source} * Reads(insns[m]);
    assert TrackedAt(insns, m, {source}, m) == {source};
  }

  /** `mov rax, rbx`, decoded as if it wrote `rdx` as well. */
  const TWO_DESTINATIONS: seq<Instruction> :=
    [Instruction(0, Mov, [RegOperand(0, RAX, false, true), RegOperand(1, RBX, true, false),
                          RegOperand(2, RDX, false, true)])]

  /** A copy that also writes a third operand breaks duality. */
  lemma TwoDestinationsBreakDuality()
    ensures !CopiesCleanly(TWO_DESTINATIONS[0]) && !WalksAreDual(TWO_DESTINATIONS)
  {
    var ops := TWO_DESTINATIONS[0].operands;
    OperandSets(ops);
    assert FindOperand(ops[1..], 1) == Some(ops[1]);
    assert InReg(RDX) in Writes(TWO_DESTINATIONS[0]) && MoveSource(TWO_DESTINATIONS[0]) == Some(InReg(RBX));
    assert MoveDestination(TWO_DESTINATIONS[0]) == Some(InReg(RAX));
    DualIffCopiesAreClean(TWO_DESTINATIONS);
    hide WalksAreDual, WritesOf;
  }

  function RegOperand(index: int, family: Family, isRead: bool, isWrite: bool): Operand {
    Operand(index, RegKind, "", Some(Register(family, Qword)), None, None, None, None, Some(8), isRead, isWrite)
  }

  lemma OperandSets(ops: seq<Operand>)
    requires ops == [RegOperand(0, RAX, false, true), RegOperand(1, RBX, true, false), RegOperand(2, RDX, false, true)]
    ensures WritesOf(ops) == {InReg(RAX), InReg(RDX)} && ReadsOf(ops) == {InReg(RBX)}
  {
    var two, one := ops[..2], ops[..1];
    assert two[..1] == one && one[..0] == [];
    assert WritesOf(one) == {InReg(RAX)} && WritesOf(two) == {InReg(RAX)};
    assert ReadsOf(one) == {} && ReadsOf(two) == {InReg(RBX)};
  }

  /** The backward flag can be raised on a trace that was already complete. */
  lemma BackwardFlagIsOneSided() returns (insns: seq<Instruction>)
    ensures |insns| == 2
    ensures StopsAboveStart(BackTrace(insns, 2, InReg(RAX)), 2, 1) && |BackTrace(insns, 2, InReg(RAX))| == 1
  {
    var ops := [RegOperand(0, RAX, false, true)];
    insns := [Instruction(0, OtherMnemonic("nop"), []), Instruction(1, OtherMnemonic("pop"), ops)];
    assert WritesOf(ops) == WritesOf([]) + {InReg(RAX)};
    assert BackTrace(insns, 2, InReg(RAX)) == [BackStep(1, 1, None)];
  }

  // ---------------------------------------------------------------- taint propagation

  /** The register an `xor r, r` or `sub r, r` clears, if the instruction is one. */
  function Cleared(insn: Instruction): Option<Location> {
    var a, b := OperandAt(insn, 0), OperandAt(insn, 1);
    if !IsZeroing(insn.mnemonic) || a == None || b == None then None
    else if LocationOf(a.value).Some? && LocationOf(a.value).value.InReg? && LocationOf(b.value) == LocationOf(a.value)
    then LocationOf(a.value)
    else None
  }

  /** One instruction's copy and kill effect on a tainted set. */
  function Propagate(insn: Instruction, tainted: set<Location>): set<Location> {
    if insn.mnemonic == CallInsn then tainted - CALL_CLOBBERED
    else if Cleared(insn).Some? then tainted - {Cleared(insn).value}
    else if tainted * Reads(insn) != {} then
      (if MoveDestination(insn).Some? then tainted + {MoveDestination(insn).value} else tainted)
    else tainted - Writes(insn)
  }

  method ApplyPropagation(insn: Instruction, before: set<Location>) returns (tainted: set<Location>)
    ensures tainted == Propagate(insn, before)
  {
    tainted := before;
    if insn.mnemonic == CallInsn {
      return tainted - CALL_CLOBBERED;
    }
    if IsZeroing(insn.mnemonic) {
      var a, b := OperandAt(insn, 0), OperandAt(insn, 1);
      var loc := if a.Some? then LocationOf(a.value) else None;
      if loc.Some? && loc.value.InReg? && b.Some? && LocationOf(b.value) == loc {
        return tainted - {loc.value};
      }
    }
    var readLocs := Locations(insn, true, false);
    var writtenLocs := Locations(insn, false, true);
    if tainted * readLocs != {} {
      var dest := MoveDestination(insn);
      if dest.Some? {
        tainted := tainted + {dest.value};
      }
      return;
    }
    var killed := tainted * writtenLocs;
    while killed != {}
      invariant killed <= before * writtenLocs
      invariant tainted == before - (before * writtenLocs - killed)
      decreases killed
    {
      var loc :| loc in killed;
      tainted := tainted - {loc};
      killed := killed - {loc};
    }
    assert before - before * writtenLocs == before - Writes(insn);
  }

  /** An examined instruction, with the locations tainted as it executes. */
  datatype Hit = Hit(index: nat, tainted: set<Location>)

  function Reach(insns: seq<Instruction>, i: nat, tainted: set<Location>, cap: nat): seq<Hit>
    decreases |insns| - i
  {
    if i >= |insns| || cap == 0 || tainted == {} then []
    else [Hit(i, tainted)] + Reach(insns, i + 1, Propagate(insns[i], tainted), cap - 1)
  }

  const MAX_STEPS := 4096

  function ClampSteps(maxSteps: int): nat {
    if maxSteps <= 0 then 0 else if maxSteps < MAX_STEPS then maxSteps else MAX_STEPS
  }

  /** The forward primitive: propagate `seeds` from just after `start`. */
  method ForwardReach(insns: seq<Instruction>, start: nat, seeds: set<Location>, maxSteps: int) returns (out: seq<Hit>)
    ensures out == Reach(insns, start + 1, seeds, ClampSteps(maxSteps))
    ensures ClampSteps(maxSteps) == if maxSteps < 0 then 0 else if maxSteps > 4096 then 4096 else maxSteps
  {
    hide Propagate;
    var cap := ClampSteps(maxSteps);
    var tainted := seeds;
    out := [];
    var examined, index := 0, start + 1;
    while index < |insns|
      invariant index >= start + 1 && examined <= cap
      invariant out + Reach(insns, index, tainted, cap - examined) == Reach(insns, start + 1, seeds, cap)
      decreases |insns| - index
    {
      if examined >= cap || tainted == {} {
        break;
      }
      var after := ApplyPropagation(insns[index], tainted);
      ghost var rest := Reach(insns, index + 1, after, cap - examined - 1);
      assert out + ([Hit(index, tainted)] + rest) == (out + [Hit(index, tainted)]) + rest;
      out := out + [Hit(index, tainted)];
      tainted := after;
      examined, index := examined + 1, index + 1;
    }
    assert Reach(insns, index, tainted, cap - examined) == [];
  }

  // ---------------------------------------------------------------- propagation is monotone and sound

  /** More taint in never means less taint out. */
  lemma PropagateMonotone(insn: Instruction, small: set<Location>, large: set<Location>)
    requires small <= large
    ensures Propagate(insn, small) <= Propagate(insn, large)
    ensures Propagate(insn, {}) == {}
  {
    if small * Reads(insn) != {} {
      var loc :| loc in small * Reads(insn);
      assert loc in large * Reads(insn);
    }
  }

  /** Adding seeds never shortens the reach nor removes a location from a reported set. */
  lemma {:induction false} ReachMonotone(insns: seq<Instruction>, i: nat, small: set<Location>, large: set<Location>,
                                         cap: nat)
    requires small <= large
    ensures var a, b := Reach(insns, i, small, cap), Reach(insns, i, large, cap);
      |a| <= |b| && forall k :: 0 <= k < |a| ==> a[k].index == b[k].index && a[k].tainted <= b[k].tainted
    decreases |insns| - i
  {
    if i < |insns| && cap > 0 && small != {} {
      assert large != {};
      PropagateMonotone(insns[i], small, large);
      ReachMonotone(insns, i + 1, Propagate(insns[i], small), Propagate(insns[i], large), cap - 1);
    }
  }

  /** The tainted set before instruction `end`, with no early stop and no budget. */
  function TaintAt(insns: seq<Instruction>, start: nat, seeds: set<Location>, end: nat): set<Location>
    requires start <= end <= |insns|
    decreases end
  {
    if end == start then seeds else Propagate(insns[end - 1], TaintAt(insns, start, seeds, end - 1))
  }

  lemma {:induction false} TaintAtFirst(insns: seq<Instruction>, start: nat, seeds: set<Location>, end: nat)
    requires start < end <= |insns|
    ensures TaintAt(insns, start, seeds, end) == TaintAt(insns, start + 1, Propagate(insns[start], seeds), end)
    decreases end
  {
    hide Propagate;
    if end > start + 1 {
      TaintAtFirst(insns, start, seeds, end - 1);
    }
  }

  lemma {:induction false} NothingStaysNothing(insns: seq<Instruction>, start: nat, end: nat)
    requires start <= end <= |insns|
    ensures TaintAt(insns, start, {}, end) == {}
    decreases end
  {
    if end > start {
      NothingStaysNothing(insns, start, end - 1);
      PropagateMonotone(insns[end - 1], {}, {});
    }
  }

  /**
    Stopping at the empty set loses nothing: within the budget, an index is reported iff something is
    tainted there.
  */
  lemma {:induction false} ReachIsTaint(insns: seq<Instruction>, i: nat, seeds: set<Location>, cap: nat, j: nat)
    requires i <= j < |insns| && j - i < cap
    ensures var r := Reach(insns, i, seeds, cap);
      && (j - i < |r| <==> TaintAt(insns, i, seeds, j) != {})
      && (j - i < |r| ==> r[j - i] == Hit(j, TaintAt(insns, i, seeds, j)))
    decreases j - i
  {
    if seeds == {} {
      NothingStaysNothing(insns, i, j);
    } else if i < j {
      hide Propagate;
      TaintAtFirst(insns, i, seeds, j);
      ReachIsTaint(insns, i + 1, Propagate(insns[i], seeds), cap - 1, j);
    }
  }

  type Memory = Location -> int

  /** Zeroing writes the register it clears. */
  predicate ClearsWhatItWrites(insn: Instruction) {
    Cleared(insn).Some? ==> Cleared(insn).value in Writes(insn)
  }

  /**
    What one instruction may do to memory, as far as the value `tag` goes: an unwritten location
    keeps its value, a copy moves its source's value, and nothing else produces `tag` afresh.
  */
  ghost predicate Executes(insn: Instruction, before: Memory, after: Memory, tag: int) {
    forall loc ::
      if insn.mnemonic == CallInsn && loc in CALL_CLOBBERED then after(loc) != tag
      else if loc !in Writes(insn) then after(loc) == before(loc)
      else if MoveSource(insn).Some? && MoveDestination(insn) == Some(loc)
        then after(loc) == before(MoveSource(insn).value)
      else after(loc) != tag
  }

  ghost predicate HoldsOnly(m: Memory, tag: int, locs: set<Location>) {
    forall loc :: m(loc) == tag ==> loc in locs
  }

  lemma PropagateSound(insn: Instruction, before: Memory, after: Memory, tag: int, tainted: set<Location>)
    requires ClearsWhatItWrites(insn) && Executes(insn, before, after, tag) && HoldsOnly(before, tag, tainted)
    ensures HoldsOnly(after, tag, Propagate(insn, tainted))
  {
    if MoveSource(insn).Some? {
      MoveSourceIsRead(insn);
    }
    forall loc | after(loc) == tag ensures loc in Propagate(insn, tainted) {
      if MoveSource(insn).Some? && MoveDestination(insn) == Some(loc) && loc in Writes(insn) {
        assert MoveSource(insn).value in tainted * Reads(insn);
      }
    }
  }

  ghost predicate IsSound(insn: Instruction) {
    forall before, after, tag, tainted ::
      Executes(insn, before, after, tag) && HoldsOnly(before, tag, tainted) ==>
        HoldsOnly(after, tag, Propagate(insn, tainted))
  }

  /** `xor rax, rax`, decoded without a written operand. */
  const UNWRITTEN_XOR := Instruction(0, Xor, [RegOperand(0, RAX, true, false), RegOperand(1, RAX, true, false)])

  /** Such an instruction drops the taint of a register that still holds the value. */
  lemma UnwrittenZeroingLosesTaint()
    ensures !ClearsWhatItWrites(UNWRITTEN_XOR) && !IsSound(UNWRITTEN_XOR)
  {
    var ops := UNWRITTEN_XOR.operands;
    assert ops[..1][..0] == [] && WritesOf(ops[..1]) == {} && WritesOf(ops) == {};
    assert FindOperand(ops[1..], 1) == Some(ops[1]);
    SoundIffClearsWhatItWrites(UNWRITTEN_XOR);
    hide IsSound;
  }

  /** Propagation misses no copy on any execution if and only if zeroing writes the register it clears. */
  lemma SoundIffClearsWhatItWrites(insn: Instruction)
    ensures IsSound(insn) <==> ClearsWhatItWrites(insn)
  {
    if ClearsWhatItWrites(insn) {
      forall before, after, tag, tainted | Executes(insn, before, after, tag) && HoldsOnly(before, tag, tainted)
        ensures HoldsOnly(after, tag, Propagate(insn, tainted))
      {
        PropagateSound(insn, before, after, tag, tainted);
      }
    } else {
      var loc := Cleared(insn).value;
      var still: Memory := l => if l == loc then 1 else 0;
      assert MoveSource(insn) == None && Executes(insn, still, still, 1);
      assert HoldsOnly(still, 1, {loc}) && still(loc) == 1 && loc !in Propagate(insn, {loc});
      assert !HoldsOnly(still, 1, Propagate(insn, {loc}));
    }
  }

  /**
    No missed copy flow: along any execution, every location holding an exact copy of the tagged
    value is in the tainted set at that point.
  */
  lemma {:induction false} NoMissedCopy(insns: seq<Instruction>, start: nat, run: seq<Memory>, tag: int,
                                        seeds: set<Location>, end: nat)
    requires start <= end <= |insns| && |run| == end - start + 1
    requires HoldsOnly(run[0], tag, seeds)
    requires forall k :: start <= k < end ==>
      ClearsWhatItWrites(insns[k]) && Executes(insns[k], run[k - start], run[k - start + 1], tag)
    ensures HoldsOnly(run[end - start], tag, TaintAt(insns, start, seeds, end))
    decreases end
  {
    hide HoldsOnly, Executes, Propagate, ClearsWhatItWrites;
    if end > start {
      NoMissedCopy(insns, start, run[..|run| - 1], tag, seeds, end - 1);
      PropagateSound(insns[end - 1], run[end - 1 - start], run[end - start], tag,
                     TaintAt(insns, start, seeds, end - 1));
    }
  }
}
