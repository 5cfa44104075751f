/**
  Which paths the taint service (src/idamesh/domain/services/taint.py) reports and what each of them
  says, in terms of operands and mnemonics.
*/
module TaintLaws {
  import opened Common
  import opened Decoded
  import opened DataFlow
  import opened DataFlowLaws
  import opened Taint
  import Strings

  // ---------------------------------------------------------------- calls and their arguments

  /** The instruction is a call whose first operand's text, without blanks around it, is `name`. */
  ghost predicate IsCallOf(insn: Instruction, name: string) {
    insn.mnemonic == CallInsn && name != "" && exists op :: IsOperand(insn, 0, op) && Strings.IsStripped(op.text, name)
  }

  lemma CalleeIsNamed(insn: Instruction, name: string)
    ensures CalleeName(insn) == Some(name) <==> IsCallOf(insn, name)
  {
    forall op ensures OperandAt(insn, 0) == Some(op) <==> IsOperand(insn, 0, op) { OperandIsNumbered(insn, 0, op); }
    forall op: Operand ensures Strings.IsStripped(op.text, name) <==> Strings.Strip(op.text) == name {
      Strings.StripIsExact(op.text);
      if Strings.IsStripped(op.text, name) { Strings.StrippedIsUnique(op.text, name, Strings.Strip(op.text)); }
    }
    hide OperandAt, IsOperand, Strings.Strip, Strings.IsStripped;
  }

  ghost predicate IsNamedCall(insn: Instruction) { exists name :: IsCallOf(insn, name) }

  lemma NamedCallIsCallee(insn: Instruction)
    ensures CalleeName(insn).Some? <==> IsNamedCall(insn)
  {
    if CalleeName(insn).Some? { CalleeIsNamed(insn, CalleeName(insn).value); }
    if name :| IsCallOf(insn, name) { CalleeIsNamed(insn, name); }
    hide CalleeName, IsCallOf;
  }

  /** The slot is stored to at `k` and no named call comes between there and `j`. */
  ghost predicate IsSetUpAt(insns: seq<Instruction>, start: nat, j: nat, k: int, slot: int) {
    && start <= k < j <= |insns| && WritesIt(insns[k], InStack(slot))
    && forall n :: k <= n < j ==> !IsNamedCall(insns[n])
  }

  lemma {:induction false} StackWritesMean(ops: seq<Operand>, loc: Location)
    ensures loc in StackWritesOf(ops)
      <==> loc.InStack? && exists i :: 0 <= i < |ops| && ops[i].isWrite && Names(ops[i], loc)
    decreases |ops|
  {
    if ops != [] {
      var init, last := ops[..|ops| - 1], ops[|ops| - 1];
      StackWritesMean(init, loc);
      hide IsStackReg;
      LocationIsNamed(last, loc);
      assert loc.InStack? ==> (StackSlot(last) == Some(loc.slot) <==> Names(last, loc));
      hide Names, LocationOf, StackSlot;
      if i :| 0 <= i < |ops| && ops[i].isWrite && Names(ops[i], loc) {
        if i < |init| { assert init[i] == ops[i]; }
      }
      if i :| 0 <= i < |init| && init[i].isWrite && Names(init[i], loc) { assert ops[i] == init[i]; }
    }
  }

  /** The argument window holds the slots stored to since the last named call. */
  lemma {:induction false} WindowMeans(insns: seq<Instruction>, start: nat, j: nat, loc: Location)
    requires start <= j <= |insns|
    ensures loc in WindowAt(insns, start, j) <==> loc.InStack? && exists k :: IsSetUpAt(insns, start, j, k, loc.slot)
    decreases j
  {
    if j > start {
      var last := j - 1;
      WindowMeans(insns, start, last, loc);
      WindowNext(insns, start, last);
      NamedCallIsCallee(insns[last]);
      StackWritesMean(insns[last].operands, loc);
      hide CalleeName, IsNamedCall, StackWritesOf, Names, WindowAt;
      if loc.InStack? {
        assert WritesIt(insns[last], loc) <==> loc in StackWritesOf(insns[last].operands);
        hide WritesIt;
        forall k
          ensures IsSetUpAt(insns, start, j, k, loc.slot)
            <==> !IsNamedCall(insns[last])
                 && (IsSetUpAt(insns, start, last, k, loc.slot) || (k == last && WritesIt(insns[last], loc)))
        {
          SetUpOneMore(insns, start, last, k, loc.slot);
        }
        hide IsSetUpAt;
        if WritesIt(insns[last], loc) && !IsNamedCall(insns[last]) {
          assert IsSetUpAt(insns, start, j, last, loc.slot);
        }
      }
    }
  }

  lemma SetUpOneMore(insns: seq<Instruction>, start: nat, last: nat, k: int, slot: int)
    requires start <= last < |insns|
    ensures IsSetUpAt(insns, start, last + 1, k, slot)
      <==> !IsNamedCall(insns[last])
           && (IsSetUpAt(insns, start, last, k, slot) || (k == last && WritesIt(insns[last], InStack(slot))))
  {
    hide IsNamedCall, WritesIt;
  }

  /** The location is an argument of the call at `j`: an argument register, or a slot set up for this call. */
  ghost predicate IsArgument(insns: seq<Instruction>, start: nat, j: nat, loc: Location) {
    match loc
    case InReg(f) => f in {RDI, RSI, RDX, RCX, R8, R9}
    case InStack(slot) => slot >= 0 && exists k :: IsSetUpAt(insns, start, j, k, slot)
    case InMemory(_) => false
  }

  lemma ReachesMeans(insns: seq<Instruction>, start: nat, j: nat, tainted: set<Location>)
    requires start <= j <= |insns|
    ensures ReachesArg(tainted, WindowAt(insns, start, j))
      <==> exists loc :: loc in tainted && IsArgument(insns, start, j, loc)
  {
    var window := WindowAt(insns, start, j);
    forall loc ensures loc in window <==> loc.InStack? && exists k :: IsSetUpAt(insns, start, j, k, loc.slot) {
      WindowMeans(insns, start, j, loc);
    }
    assert forall loc :: IsArgument(insns, start, j, loc) <==> loc in ARG_REGS || (loc in window && loc.slot >= 0);
    hide WindowAt, IsSetUpAt, IsArgument;
    if loc :| loc in tainted && loc in ARG_REGS { assert loc in tainted * ARG_REGS; }
    if tainted * ARG_REGS != {} {
      var loc :| loc in tainted * ARG_REGS;
      assert loc in tainted && loc in ARG_REGS;
    }
  }

  // ---------------------------------------------------------------- sinks and paths

  ghost predicate IsDangerous(v: Vocabulary, insn: Instruction, api: string) {
    exists name :: IsCallOf(insn, name) && v.danger(name) == Some(api)
  }

  /**
    The call at `j` is dangerous and takes an argument that holds what the source at `source` returned, by
    copies that nothing cleaned since.
  */
  ghost predicate IsReached(v: Vocabulary, insns: seq<Instruction>, source: nat, j: nat) {
    && source < j < |insns| && j - source <= 512
    && (exists api :: IsDangerous(v, insns[j], api))
    && CarriesTaint(insns, source + 1, j)
  }

  /** Some argument of the call at `j` holds the value seeded in the return register at `start`. */
  ghost predicate CarriesTaint(insns: seq<Instruction>, start: nat, j: nat) {
    exists loc, i: nat :: TaintedSince(insns, start, {InReg(RAX)}, i, j, loc) && IsArgument(insns, start, j, loc)
  }

  lemma CarriesMeans(insns: seq<Instruction>, start: nat, j: nat)
    requires start <= j <= |insns|
    ensures CarriesTaint(insns, start, j)
      <==> ReachesArg(TaintAt(insns, start, {InReg(RAX)}, j), WindowAt(insns, start, j))
  {
    var tainted := TaintAt(insns, start, {InReg(RAX)}, j);
    ReachesMeans(insns, start, j, tainted);
    forall loc ensures loc in tainted <==> exists i: nat :: TaintedSince(insns, start, {InReg(RAX)}, i, j, loc) {
      TaintedIff(insns, start, {InReg(RAX)}, j, loc);
    }
    hide ReachesArg, TaintAt, WindowAt, TaintedSince, IsArgument;
    if ReachesArg(TaintAt(insns, start, {InReg(RAX)}, j), WindowAt(insns, start, j)) {
      var loc :| loc in tainted && IsArgument(insns, start, j, loc);
      var i: nat :| TaintedSince(insns, start, {InReg(RAX)}, i, j, loc);
    }
  }

  lemma DangerMeans(v: Vocabulary, insn: Instruction, api: string)
    ensures SinkApi(v, insn) == Some(api) <==> IsDangerous(v, insn, api)
  {
    if CalleeName(insn).Some? { CalleeIsNamed(insn, CalleeName(insn).value); }
    forall name | IsCallOf(insn, name) ensures CalleeName(insn) == Some(name) { CalleeIsNamed(insn, name); }
    hide CalleeName, IsCallOf;
  }

  lemma ReachedIsSinkOf(v: Vocabulary, insns: seq<Instruction>, source: nat, j: nat)
    requires source < j < |insns|
    ensures IsReached(v, insns, source, j) <==> j - source <= PROPAGATION_STEPS && IsSinkOf(v, insns, source, j)
  {
    hide SinkApi, IsDangerous, ReachesArg, TaintAt, WindowAt, CarriesTaint, IsSinkOf;
    CarriesMeans(insns, source + 1, j);
    SinkUnfolds(v, insns, source, j);
    SomeDanger(v, insns[j]);
  }

  lemma SomeDanger(v: Vocabulary, insn: Instruction)
    ensures SinkApi(v, insn).Some? <==> exists api :: IsDangerous(v, insn, api)
  {
    hide SinkApi, IsDangerous;
    if SinkApi(v, insn).Some? { DangerMeans(v, insn, SinkApi(v, insn).value); }
    if api :| IsDangerous(v, insn, api) { DangerMeans(v, insn, api); }
  }

  /** The instructions strictly between the source and `j` the taint flows past: all but the sinks it reached. */
  ghost predicate ArePassed(v: Vocabulary, insns: seq<Instruction>, source: nat, j: nat, at: seq<nat>) {
    && (forall m, n :: 0 <= m < n < |at| ==> at[m] < at[n])
    && forall k: nat :: k in at <==> source < k < j && !IsReached(v, insns, source, k)
  }

  predicate AreThrough(at: seq<nat>, steps: seq<FlowStep>) {
    |at| == |steps| && forall m :: 0 <= m < |at| ==> steps[m] == Through(at[m])
  }

  /** The steps collected on reaching `j`: the source, then every instruction the taint flowed past. */
  ghost predicate AreStepsTo(v: Vocabulary, insns: seq<Instruction>, source: nat, j: nat, steps: seq<FlowStep>) {
    && steps != []
    && steps[0].AtSource? && steps[0].index == source
    && source < |insns| && IsCallOf(insns[source], steps[0].callee)
    && exists at :: ArePassed(v, insns, source, j, at) && AreThrough(at, steps[1..])
  }

  /** What a reported path is: from the source, past what lies between, to a sink it reached. */
  ghost predicate IsPathOf(v: Vocabulary, insns: seq<Instruction>, source: nat, p: Path) {
    && p.source == source && IsReached(v, insns, source, p.sink) && IsDangerous(v, insns[p.sink], p.api)
    && p.steps != [] && p.steps[|p.steps| - 1] == AtSink(p.sink, p.api)
    && AreStepsTo(v, insns, source, p.sink, p.steps[..|p.steps| - 1])
  }

  ghost predicate ArePathsFrom(v: Vocabulary, insns: seq<Instruction>, source: nat, i: nat, paths: seq<Path>) {
    && (forall m :: 0 <= m < |paths| ==> i <= paths[m].sink && IsPathOf(v, insns, source, paths[m]))
    && (forall m, n :: 0 <= m < n < |paths| ==> paths[m].sink < paths[n].sink)
  }

  lemma StepsPass(v: Vocabulary, insns: seq<Instruction>, source: nat, i: nat, steps: seq<FlowStep>)
    requires source < i < |insns| && AreStepsTo(v, insns, source, i, steps)
    ensures IsReached(v, insns, source, i) ==> AreStepsTo(v, insns, source, i + 1, steps)
    ensures !IsReached(v, insns, source, i) ==> AreStepsTo(v, insns, source, i + 1, steps + [Through(i)])
  {
    hide *;
    var at := PassedIn(v, insns, source, i, steps);
    PassedGrows(v, insns, source, i, at);
    if IsReached(v, insns, source, i) {
      StepsAre(v, insns, source, i, i + 1, steps, steps, at);
    } else {
      ThroughGrows(at, steps[1..], i);
      assert (steps + [Through(i)])[1..] == steps[1..] + [Through(i)] && (steps + [Through(i)])[0] == steps[0];
      StepsAre(v, insns, source, i, i + 1, steps, steps + [Through(i)], at + [i]);
    }
  }

  lemma PassedIn(v: Vocabulary, insns: seq<Instruction>, source: nat, i: nat, steps: seq<FlowStep>)
    returns (at: seq<nat>)
    requires AreStepsTo(v, insns, source, i, steps)
    ensures steps != [] && ArePassed(v, insns, source, i, at) && AreThrough(at, steps[1..])
  {
    hide ArePassed, AreThrough, IsCallOf;
    at :| ArePassed(v, insns, source, i, at) && AreThrough(at, steps[1..]);
  }

  lemma ThroughGrows(at: seq<nat>, steps: seq<FlowStep>, i: nat)
    requires AreThrough(at, steps)
    ensures AreThrough(at + [i], steps + [Through(i)])
  {
  }

  /** Steps that begin like collected ones, with another list passed. */
  lemma StepsAre(v: Vocabulary, insns: seq<Instruction>, source: nat, i: nat, j: nat, before: seq<FlowStep>,
                 steps: seq<FlowStep>, at: seq<nat>)
    requires AreStepsTo(v, insns, source, i, before) && steps != [] && before != [] && steps[0] == before[0]
    requires ArePassed(v, insns, source, j, at) && AreThrough(at, steps[1..])
    ensures AreStepsTo(v, insns, source, j, steps)
  {
    hide ArePassed, AreThrough, IsCallOf;
  }

  lemma PassedGrows(v: Vocabulary, insns: seq<Instruction>, source: nat, i: nat, at: seq<nat>)
    requires source < i && ArePassed(v, insns, source, i, at)
    ensures ArePassed(v, insns, source, i + 1, if IsReached(v, insns, source, i) then at else at + [i])
  {
    hide IsReached;
    var more := at + [i];
    assert forall k: nat :: k in more <==> k in at || k == i;
    forall m | 0 <= m < |at| ensures at[m] < i { assert at[m] in at; }
  }

  lemma OnePath(v: Vocabulary, insns: seq<Instruction>, source: nat, i: nat, api: string, steps: seq<FlowStep>,
                rest: seq<Path>)
    requires source < i < |insns| && IsReached(v, insns, source, i) && IsDangerous(v, insns[i], api)
    requires AreStepsTo(v, insns, source, i, steps) && ArePathsFrom(v, insns, source, i + 1, rest)
    ensures ArePathsFrom(v, insns, source, i, [Path(source, i, api, steps + [AtSink(i, api)])] + rest)
  {
    var p := Path(source, i, api, steps + [AtSink(i, api)]);
    assert IsPathOf(v, insns, source, p) by {
      hide AreStepsTo, IsReached, IsDangerous, ArePathsFrom;
      assert p.steps[..|p.steps| - 1] == steps;
    }
    hide AreStepsTo, IsReached, IsDangerous, IsPathOf;
  }

  lemma FewerPaths(v: Vocabulary, insns: seq<Instruction>, source: nat, i: nat, rest: seq<Path>)
    requires ArePathsFrom(v, insns, source, i + 1, rest)
    ensures ArePathsFrom(v, insns, source, i, rest)
  {
    hide IsPathOf;
  }

  /**
    Where the scan stands at instruction `i`: the taint, the budget left and the window are those of the
    whole walk.
  */
  lemma {:induction false} ScanPaths(v: Vocabulary, insns: seq<Instruction>, source: nat, i: nat, cap: nat,
                                     hits: seq<Hit>, steps: seq<FlowStep>)
    requires source < i <= |insns| && i - source - 1 + cap == PROPAGATION_STEPS
    requires hits == Reach(insns, i, TaintAt(insns, source + 1, {InReg(RAX)}, i), cap)
    requires AreStepsTo(v, insns, source, i, steps)
    ensures forall k :: 0 <= k < |hits| ==> hits[k].index < |insns|
    ensures ArePathsFrom(v, insns, source, i, Scan(v, insns, source, hits, steps, WindowAt(insns, source + 1, i)))
    decreases |insns| - i
  {
    hide *;
    var tainted, window := TaintAt(insns, source + 1, {InReg(RAX)}, i), WindowAt(insns, source + 1, i);
    IndexedHits(insns, i, tainted, cap);
    if hits == [] {
      NoPaths(v, insns, source, i, steps, window);
    } else {
      ReachUnfolds(insns, i, tainted, cap);
      WindowNext(insns, source + 1, i);
      TaintNext(insns, source + 1, {InReg(RAX)}, i);
      ReachedIsSinkOf(v, insns, source, i);
      SinkMeans(v, insns, source, i);
      StepsPass(v, insns, source, i, steps);
      var rest := hits[1..];
      if IsReached(v, insns, source, i) {
        var api := SinkApi(v, insns[i]).value;
        DangerMeans(v, insns[i], api);
        ScanPaths(v, insns, source, i + 1, cap - 1, rest, steps);
        ScanFound(v, insns, source, hits, steps, window);
        OnePath(v, insns, source, i, api, steps,
                Scan(v, insns, source, rest, steps, WindowAt(insns, source + 1, i + 1)));
      } else {
        ScanPaths(v, insns, source, i + 1, cap - 1, rest, steps + [Through(i)]);
        ScanPassed(v, insns, source, hits, steps, window);
        FewerPaths(v, insns, source, i,
                   Scan(v, insns, source, rest, steps + [Through(i)], WindowAt(insns, source + 1, i + 1)));
      }
    }
  }

  lemma IndexedHits(insns: seq<Instruction>, i: nat, tainted: set<Location>, cap: nat)
    ensures var hits := Reach(insns, i, tainted, cap);
      forall k :: 0 <= k < |hits| ==> hits[k].index < |insns|
  {
    ReachIndices(insns, i, tainted, cap);
    hide Reach;
  }

  lemma NoPaths(v: Vocabulary, insns: seq<Instruction>, source: nat, i: nat, steps: seq<FlowStep>,
                window: set<Location>)
    ensures ArePathsFrom(v, insns, source, i, Scan(v, insns, source, [], steps, window))
  {
  }

  lemma SinkMeans(v: Vocabulary, insns: seq<Instruction>, source: nat, i: nat)
    requires source < i < |insns|
    ensures IsSinkOf(v, insns, source, i) <==>
      && CalleeName(insns[i]).Some? && SinkApi(v, insns[i]).Some?
      && ReachesArg(TaintAt(insns, source + 1, {InReg(RAX)}, i), WindowAt(insns, source + 1, i))
  {
    hide CalleeName, ReachesArg, TaintAt, WindowAt;
  }

  lemma ReachUnfolds(insns: seq<Instruction>, i: nat, tainted: set<Location>, cap: nat)
    requires Reach(insns, i, tainted, cap) != []
    ensures i < |insns| && cap > 0 && tainted != {}
    ensures Reach(insns, i, tainted, cap)[0] == Hit(i, tainted)
    ensures Reach(insns, i, tainted, cap)[1..] == Reach(insns, i + 1, Propagate(insns[i], tainted), cap - 1)
  {
    hide Propagate;
  }

  lemma TaintNext(insns: seq<Instruction>, start: nat, seeds: set<Location>, i: nat)
    requires start <= i < |insns|
    ensures TaintAt(insns, start, seeds, i + 1) == Propagate(insns[i], TaintAt(insns, start, seeds, i))
  {
    hide Propagate;
  }

  /** Each path of a source ends at a sink it reached, the sinks ascending, and its steps are what lies between. */
  lemma PathsAreSpelledOut(v: Vocabulary, insns: seq<Instruction>, source: nat)
    requires source < |insns| && CalleeName(insns[source]).Some?
    ensures ArePathsFrom(v, insns, source, source + 1, PathsFrom(v, insns, source))
  {
    var steps := [AtSource(source, CalleeName(insns[source]).value)];
    CalleeIsNamed(insns[source], CalleeName(insns[source]).value);
    assert AreStepsTo(v, insns, source, source + 1, steps) by {
      assert ArePassed(v, insns, source, source + 1, []) && AreThrough([], steps[1..]);
      hide IsCallOf, CalleeName, ArePassed;
    }
    PathsFromIsScan(v, insns, source);
    assert TaintAt(insns, source + 1, {InReg(RAX)}, source + 1) == {InReg(RAX)};
    hide *;
    ScanPaths(v, insns, source, source + 1, PROPAGATION_STEPS,
              Reach(insns, source + 1, {InReg(RAX)}, PROPAGATION_STEPS), steps);
  }

  // ---------------------------------------------------------------- all paths

  ghost predicate IsSourceAt(v: Vocabulary, insns: seq<Instruction>, source: nat) {
    source < |insns| && exists name :: IsCallOf(insns[source], name) && v.isSource(name)
  }

  lemma SourceMeans(v: Vocabulary, insns: seq<Instruction>, source: nat)
    ensures IsSourceAt(v, insns, source) <==> source < |insns| && IsSourceCall(v, insns[source])
  {
    if source < |insns| {
      if CalleeName(insns[source]).Some? { CalleeIsNamed(insns[source], CalleeName(insns[source]).value); }
      forall name | IsCallOf(insns[source], name) ensures CalleeName(insns[source]) == Some(name) {
        CalleeIsNamed(insns[source], name);
      }
      hide CalleeName, IsCallOf;
    }
  }

  predicate ComesBefore(p: Path, q: Path) { p.source < q.source || (p.source == q.source && p.sink < q.sink) }

  /** All the paths there are: each from a source call, in order of their sources and then of their sinks. */
  ghost predicate AreAllPaths(v: Vocabulary, insns: seq<Instruction>, i: nat, paths: seq<Path>) {
    && (forall m :: 0 <= m < |paths| ==>
          i <= paths[m].source && IsSourceAt(v, insns, paths[m].source)
            && IsPathOf(v, insns, paths[m].source, paths[m]))
    && (forall m, n :: 0 <= m < n < |paths| ==> ComesBefore(paths[m], paths[n]))
    && forall source: nat, j: nat :: i <= source && IsSourceAt(v, insns, source) && IsReached(v, insns, source, j) ==>
         Lists(paths, source, j)
  }

  ghost predicate Lists(paths: seq<Path>, source: nat, j: nat) {
    exists m :: 0 <= m < |paths| && paths[m].source == source && paths[m].sink == j
  }

  lemma ListsConcat(a: seq<Path>, b: seq<Path>, source: nat, j: nat)
    ensures Lists(a + b, source, j) <==> Lists(a, source, j) || Lists(b, source, j)
  {
    if m :| 0 <= m < |a| && a[m].source == source && a[m].sink == j { assert (a + b)[m] == a[m]; }
    if m :| 0 <= m < |b| && b[m].source == source && b[m].sink == j { assert (a + b)[|a| + m] == b[m]; }
  }

  lemma SourcePathsListReached(v: Vocabulary, insns: seq<Instruction>, source: nat, j: nat)
    requires source < |insns| && CalleeName(insns[source]).Some? && IsReached(v, insns, source, j)
    ensures Lists(PathsFrom(v, insns, source), source, j)
  {
    var paths := PathsFrom(v, insns, source);
    PathsAreExactlySinks(v, insns, source, j);
    ReachedIsSinkOf(v, insns, source, j);
    PathsAreSpelledOut(v, insns, source);
    assert Reports(paths, j);
    hide PathsFrom, IsReached, CalleeName;
    var m :| 0 <= m < |paths| && paths[m].sink == j;
    assert IsPathOf(v, insns, source, paths[m]);
    hide IsPathOf;
  }

  lemma PathsOfSource(v: Vocabulary, insns: seq<Instruction>, i: nat, found: seq<Path>, rest: seq<Path>)
    requires i < |insns| && IsSourceAt(v, insns, i) && AreAllPaths(v, insns, i + 1, rest)
    requires ArePathsFrom(v, insns, i, i + 1, found)
    requires forall j: nat :: IsReached(v, insns, i, j) ==> Lists(found, i, j)
    ensures AreAllPaths(v, insns, i, found + rest)
  {
    hide IsSourceAt, IsReached;
    FoundInOrder(v, insns, i, found, rest);
    hide IsPathOf;
    forall source: nat, j: nat | i <= source && IsSourceAt(v, insns, source) && IsReached(v, insns, source, j)
      ensures Lists(found + rest, source, j)
    {
      ListsConcat(found, rest, source, j);
    }
    hide Lists, ComesBefore;
  }

  lemma FoundInOrder(v: Vocabulary, insns: seq<Instruction>, i: nat, found: seq<Path>, rest: seq<Path>)
    requires ArePathsFrom(v, insns, i, i + 1, found) && AreAllPaths(v, insns, i + 1, rest)
    ensures forall m :: 0 <= m < |found| ==> found[m].source == i
    ensures forall m, n :: 0 <= m < n < |found + rest| ==> ComesBefore((found + rest)[m], (found + rest)[n])
  {
    hide IsSourceAt, IsReached, AreStepsTo, Lists;
  }

  lemma PathsOfNoSource(v: Vocabulary, insns: seq<Instruction>, i: nat, rest: seq<Path>)
    requires i < |insns| && !IsSourceAt(v, insns, i) && AreAllPaths(v, insns, i + 1, rest)
    ensures AreAllPaths(v, insns, i, rest)
  {
    hide IsSourceAt, IsPathOf, IsReached, Lists;
  }

  /**
    The uncapped result is exactly the paths from source calls to the dangerous calls they reach, in
    order; with the cap's contract this fixes what the scan returns.
  */
  lemma {:induction false} AllPathsAreSpelledOut(v: Vocabulary, insns: seq<Instruction>, i: nat)
    requires i <= |insns|
    ensures AreAllPaths(v, insns, i, AllPaths(v, insns, i))
    decreases |insns| - i
  {
    hide *;
    if i == |insns| {
      NoPathsAtEnd(v, insns);
    } else {
      var rest := AllPaths(v, insns, i + 1);
      AllPathsAreSpelledOut(v, insns, i + 1);
      AllPathsUnfolds(v, insns, i);
      SourceMeans(v, insns, i);
      if IsSourceCall(v, insns[i]) {
        SourceIsNamed(v, insns[i]);
        PathsAreSpelledOut(v, insns, i);
        forall j: nat | IsReached(v, insns, i, j) ensures Lists(PathsFrom(v, insns, i), i, j) {
          SourcePathsListReached(v, insns, i, j);
        }
        PathsOfSource(v, insns, i, PathsFrom(v, insns, i), rest);
      } else {
        PathsOfNoSource(v, insns, i, rest);
      }
    }
  }

  lemma NoPathsAtEnd(v: Vocabulary, insns: seq<Instruction>)
    ensures AreAllPaths(v, insns, |insns|, AllPaths(v, insns, |insns|))
  {
  }

  lemma AllPathsUnfolds(v: Vocabulary, insns: seq<Instruction>, i: nat)
    requires i < |insns|
    ensures IsSourceCall(v, insns[i]) ==>
      CalleeName(insns[i]).Some? && AllPaths(v, insns, i) == PathsFrom(v, insns, i) + AllPaths(v, insns, i + 1)
    ensures !IsSourceCall(v, insns[i]) ==> AllPaths(v, insns, i) == AllPaths(v, insns, i + 1)
  {
    hide PathsFrom;
    assert [] + AllPaths(v, insns, i + 1) == AllPaths(v, insns, i + 1);
  }
}
