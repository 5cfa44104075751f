/**
  The source-to-sink taint service (src/idamesh/domain/services/taint.py).

  A source call seeds its return register; the dataflow primitive carries the taint forward; a later
  dangerous call is a path when one of its own arguments is tainted.  Instructions are named by
  index, and which names are sources or dangerous is a parameter.
*/
module Taint {
  import opened Common
  import opened Decoded
  import opened DataFlow
  import Strings

  datatype Vocabulary = Vocabulary(isSource: string -> bool, danger: string -> Option<string>)

  datatype FlowStep = AtSource(index: nat, callee: string) | Through(index: nat) | AtSink(index: nat, api: string)

  datatype Path = Path(source: nat, sink: nat, api: string, steps: seq<FlowStep>)

  const PROPAGATION_STEPS := 512
  const MAX_MAX_PATHS := 512
  const ARG_REGS: set<Location> := {InReg(RDI), InReg(RSI), InReg(RDX), InReg(RCX), InReg(R8), InReg(R9)}

  /** The symbol a call names, if the instruction is a call and names one. */
  function CalleeName(insn: Instruction): Option<string> {
    if insn.mnemonic != CallInsn then None
    else
      var target := OperandAt(insn, 0);
      if target == None || Strings.Strip(target.value.text) == "" then None
      else Some(Strings.Strip(target.value.text))
  }

  predicate IsSourceCall(v: Vocabulary, insn: Instruction) {
    CalleeName(insn).Some? && v.isSource(CalleeName(insn).value)
  }

  function SinkApi(v: Vocabulary, insn: Instruction): Option<string> {
    if CalleeName(insn).Some? then v.danger(CalleeName(insn).value) else None
  }

  function StackWritesOf(ops: seq<Operand>): set<Location> {
    if ops == [] then {}
    else
      var op := ops[|ops| - 1];
      StackWritesOf(ops[..|ops| - 1])
      + (if op.isWrite && StackSlot(op).Some? then {InStack(StackSlot(op).value)} else {})
  }

  method RecordStackWrites(insn: Instruction, before: set<Location>) returns (window: set<Location>)
    ensures window == before + StackWritesOf(insn.operands)
  {
    window := before;
    for i := 0 to |insn.operands|
      invariant window == before + StackWritesOf(insn.operands[..i])
    {
      var op := insn.operands[i];
      assert insn.operands[..i + 1][..i] == insn.operands[..i];
      if op.isWrite {
        var slot := StackSlot(op);
        if slot.Some? {
          window := window + {InStack(slot.value)};
        }
      }
    }
    assert insn.operands[..|insn.operands|] == insn.operands;
  }

  /** The slots stored to since the last named call: what the pending call may take as stack arguments. */
  function WindowAt(insns: seq<Instruction>, start: nat, j: nat): set<Location>
    requires start <= j <= |insns|
    decreases j
  {
    if j == start || CalleeName(insns[j - 1]).Some? then {}
    else WindowAt(insns, start, j - 1) + StackWritesOf(insns[j - 1].operands)
  }

  /** A tainted value is in an argument of this very call. */
  predicate ReachesArg(tainted: set<Location>, window: set<Location>) {
    tainted * ARG_REGS != {} || exists loc :: loc in tainted && loc.InStack? && loc in window && loc.slot >= 0
  }

  /** The paths one source's hits give, continuing with `steps` collected so far. */
  function Scan(v: Vocabulary, insns: seq<Instruction>, source: nat, hits: seq<Hit>, steps: seq<FlowStep>,
                window: set<Location>): seq<Path>
    requires forall k :: 0 <= k < |hits| ==> hits[k].index < |insns|
    decreases |hits|
  {
    if hits == [] then []
    else
      var insn := insns[hits[0].index];
      var through := if hits[0].tainted != {} then steps + [Through(hits[0].index)] else steps;
      if CalleeName(insn) == None then
        Scan(v, insns, source, hits[1..], through, window + StackWritesOf(insn.operands))
      else if SinkApi(v, insn).Some? && ReachesArg(hits[0].tainted, window) then
        var api := SinkApi(v, insn).value;
        [Path(source, hits[0].index, api, steps + [AtSink(hits[0].index, api)])]
        + Scan(v, insns, source, hits[1..], steps, {})
      else
        Scan(v, insns, source, hits[1..], through, {})
  }

  lemma {:induction false} ReachAt(insns: seq<Instruction>, i: nat, seeds: set<Location>, cap: nat, k: nat)
    requires k < |Reach(insns, i, seeds, cap)|
    ensures i + k < |insns|
    ensures Reach(insns, i, seeds, cap)[k].index == i + k && Reach(insns, i, seeds, cap)[k].tainted != {}
    decreases |insns| - i
  {
    if k > 0 {
      ReachAt(insns, i + 1, Propagate(insns[i], seeds), cap - 1, k - 1);
    }
  }

  lemma ReachIndices(insns: seq<Instruction>, i: nat, seeds: set<Location>, cap: nat)
    ensures IndexedFrom(Reach(insns, i, seeds, cap), i, |insns|)
  {
    forall k | 0 <= k < |Reach(insns, i, seeds, cap)|
      ensures i + k < |insns| && Reach(insns, i, seeds, cap)[k].index == i + k
    {
      ReachAt(insns, i, seeds, cap, k);
    }
  }

  /** The hits are consecutive instructions starting at `i`. */
  predicate IndexedFrom(hits: seq<Hit>, i: nat, n: nat) {
    forall k :: 0 <= k < |hits| ==> hits[k].index == i + k && i + k < n
  }

  lemma LaterHits(hits: seq<Hit>, i: nat, n: nat)
    requires IndexedFrom(hits, i, n) && hits != []
    ensures IndexedFrom(hits[1..], i + 1, n)
  {
    forall k | 0 <= k < |hits[1..]| ensures hits[1..][k].index == i + 1 + k && i + 1 + k < n {
      assert hits[1..][k] == hits[k + 1];
    }
  }

  function PathsFrom(v: Vocabulary, insns: seq<Instruction>, source: nat): seq<Path>
    requires source < |insns| && CalleeName(insns[source]).Some?
  {
    ReachIndices(insns, source + 1, {InReg(RAX)}, PROPAGATION_STEPS);
    Scan(v, insns, source, Reach(insns, source + 1, {InReg(RAX)}, PROPAGATION_STEPS),
         [AtSource(source, CalleeName(insns[source]).value)], {})
  }

  /** Every path of the function, source by source in instruction order. */
  function AllPaths(v: Vocabulary, insns: seq<Instruction>, i: nat): seq<Path>
    decreases |insns| - i
  {
    if i >= |insns| then []
    else (if IsSourceCall(v, insns[i]) then PathsFrom(v, insns, i) else []) + AllPaths(v, insns, i + 1)
  }

  function ClampPaths(maxPaths: int): nat {
    if maxPaths <= 0 then 0 else if maxPaths < MAX_MAX_PATHS then maxPaths else MAX_MAX_PATHS
  }

  // ---------------------------------------------------------------- the loops

  lemma ScanOfReach(v: Vocabulary, insns: seq<Instruction>, source: nat, reached: seq<Hit>)
    requires source < |insns| && CalleeName(insns[source]).Some?
    requires reached == Reach(insns, source + 1, {InReg(RAX)}, ClampSteps(PROPAGATION_STEPS))
    ensures forall k :: 0 <= k < |reached| ==> reached[k].index < |insns|
    ensures var steps := [AtSource(source, CalleeName(insns[source]).value)];
      && Scan(v, insns, source, reached, steps, {}) == PathsFrom(v, insns, source)
      && IsCollected([], Scan(v, insns, source, reached, steps, {}), PathsFrom(v, insns, source))
  {
    ReachIndices(insns, source + 1, {InReg(RAX)}, PROPAGATION_STEPS);
    hide Scan, Reach, CalleeName;
  }

  method PathsFromSource(v: Vocabulary, insns: seq<Instruction>, source: nat) returns (results: seq<Path>)
    requires source < |insns| && CalleeName(insns[source]).Some?
    ensures results == PathsFrom(v, insns, source)
  {
    hide *;
    var reached := ForwardReach(insns, source, {InReg(RAX)}, PROPAGATION_STEPS);
    var steps := [AtSource(source, CalleeName(insns[source]).value)];
    var window: set<Location> := {};
    results := [];
    ScanOfReach(v, insns, source, reached);
    ghost var all := Scan(v, insns, source, reached, steps, {});
    var k := 0;
    assert reached[0..] == reached;
    while k < |reached|
      invariant 0 <= k <= |reached|
      invariant IsCollected(results, Scan(v, insns, source, reached[k..], steps, window), all)
    {
      assert reached[k..] == [reached[k]] + reached[k + 1..];
      var found;
      ghost var scanned, before := results, Scan(v, insns, source, reached[k..], steps, window);
      found, steps, window := VisitHit(v, insns, source, reached[k], steps, window, reached[k + 1..]);
      results := results + found;
      CollectedMore(scanned, found, Scan(v, insns, source, reached[k + 1..], steps, window), all);
      k := k + 1;
    }
    NothingLeft(v, insns, source, steps, window);
    CollectedMore(results, [], [], all);
  }

  /** What one hit adds to the paths and leaves of the steps and the window. */
  method VisitHit(v: Vocabulary, insns: seq<Instruction>, source: nat, hit: Hit, before: seq<FlowStep>,
                  open: set<Location>, ghost rest: seq<Hit>)
    returns (found: seq<Path>, steps: seq<FlowStep>, window: set<Location>)
    requires hit.index < |insns| && forall k :: 0 <= k < |rest| ==> rest[k].index < |insns|
    ensures Scan(v, insns, source, [hit] + rest, before, open) == found + Scan(v, insns, source, rest, steps, window)
  {
    assert ([hit] + rest)[1..] == rest;
    hide CalleeName, SinkApi, ReachesArg, StackWritesOf;
    found, steps, window := [], before, open;
    var insn := insns[hit.index];
    if CalleeName(insn).Some? {
      var api := SinkApi(v, insn);
      if api.Some? && ReachesArg(hit.tainted, window) {
        found := [Path(source, hit.index, api.value, steps + [AtSink(hit.index, api.value)])];
      } else if hit.tainted != {} {
        steps := steps + [Through(hit.index)];
      }
      window := {};
    } else {
      window := RecordStackWrites(insn, window);
      if hit.tainted != {} {
        steps := steps + [Through(hit.index)];
      }
    }
  }

  ghost predicate IsCollected(paths: seq<Path>, rest: seq<Path>, all: seq<Path>) { paths + rest == all }

  lemma CollectedMore(paths: seq<Path>, found: seq<Path>, rest: seq<Path>, all: seq<Path>)
    requires IsCollected(paths, found + rest, all)
    ensures IsCollected(paths + found, rest, all)
    ensures rest == [] ==> all == paths + found
  {
    assert paths + (found + rest) == (paths + found) + rest;
  }

  lemma NothingLeft(v: Vocabulary, insns: seq<Instruction>, source: nat, steps: seq<FlowStep>, window: set<Location>)
    ensures Scan(v, insns, source, [], steps, window) == []
  {
  }

  /** The scan returns exactly the first `cap` of all paths, and says whether more exist. */
  method Trace(v: Vocabulary, insns: seq<Instruction>, maxPaths: int) returns (paths: seq<Path>, truncated: bool)
    ensures paths == Prefix(AllPaths(v, insns, 0), ClampPaths(maxPaths))
    ensures truncated <==> |AllPaths(v, insns, 0)| > |paths|
    ensures truncated ==> |paths| == if maxPaths < 0 then 0 else if maxPaths > 512 then 512 else maxPaths
  {
    hide *;
    var cap := ClampPaths(maxPaths);
    ClampMeans(maxPaths);
    ghost var all := AllPaths(v, insns, 0);
    paths, truncated := [], false;
    var index := 0;
    NothingCollected(all);
    while index < |insns|
      invariant 0 <= index <= |insns|
      invariant |paths| <= cap && IsCollected(paths, AllPaths(v, insns, index), all)
      invariant !truncated
    {
      AllPathsStep(v, insns, index);
      if SourceHere(v, insns[index]) {
        var found := PathsFromSource(v, insns, index);
        paths, truncated := Collect(paths, found, cap, AllPaths(v, insns, index + 1), all);
        if truncated {
          return;
        }
      }
      index := index + 1;
    }
    AllCollected(v, insns, paths, all, cap);
  }

  lemma ClampMeans(maxPaths: int)
    ensures ClampPaths(maxPaths) == if maxPaths < 0 then 0 else if maxPaths > 512 then 512 else maxPaths
    ensures forall all: seq<Path>, cap: nat :: |all| > cap ==> |Prefix(all, cap)| == cap
    ensures forall all: seq<Path>, cap: nat :: |all| <= cap ==> |Prefix(all, cap)| == |all|
  {
  }

  lemma NothingCollected(all: seq<Path>)
    ensures IsCollected([], all, all)
  {
  }

  lemma AllPathsStep(v: Vocabulary, insns: seq<Instruction>, i: nat)
    requires i < |insns|
    ensures AllPaths(v, insns, i)
         == if SourceHere(v, insns[i]) then PathsFrom(v, insns, i) + AllPaths(v, insns, i + 1)
           else AllPaths(v, insns, i + 1)
  {
    hide PathsFrom;
    assert [] + AllPaths(v, insns, i + 1) == AllPaths(v, insns, i + 1);
  }

  /** The end of the walk: everything has been collected within the cap. */
  lemma AllCollected(v: Vocabulary, insns: seq<Instruction>, paths: seq<Path>, all: seq<Path>, cap: nat)
    requires IsCollected(paths, AllPaths(v, insns, |insns|), all) && |paths| <= cap
    ensures paths == Prefix(all, cap) && |all| <= cap
  {
  }

  /** Adds one source's paths until the cap elides one. */
  method Collect(before: seq<Path>, found: seq<Path>, cap: nat, ghost later: seq<Path>, ghost all: seq<Path>)
    returns (paths: seq<Path>, truncated: bool)
    requires |before| <= cap && IsCollected(before, found + later, all)
    ensures truncated ==> paths == Prefix(all, cap) && |all| > cap
    ensures !truncated ==> |paths| <= cap && IsCollected(paths, later, all)
  {
    paths, truncated := before, false;
    var k := 0;
    while k < |found|
      invariant 0 <= k <= |found|
      invariant |paths| <= cap && paths == before + found[..k]
    {
      if |paths| >= cap {
        truncated := true;
        assert all == paths + (found[k..] + later);
        return;
      }
      assert found[..k + 1] == found[..k] + [found[k]];
      paths := paths + [found[k]];
      k := k + 1;
    }
    assert found[..k] == found;
    assert before + (found + later) == (before + found) + later;
  }

  predicate SourceHere(v: Vocabulary, insn: Instruction)
    ensures SourceHere(v, insn) == IsSourceCall(v, insn)
    ensures SourceHere(v, insn) ==> CalleeName(insn).Some?
  {
    IsSourceCall(v, insn)
  }

  // ---------------------------------------------------------------- which paths are reported

  /** Instruction `j` is a dangerous call one of whose arguments is tainted by `source`. */
  ghost predicate IsSinkOf(v: Vocabulary, insns: seq<Instruction>, source: nat, j: nat)
    requires source < j < |insns|
  {
    && SinkApi(v, insns[j]).Some?
    && ReachesArg(TaintAt(insns, source + 1, {InReg(RAX)}, j), WindowAt(insns, source + 1, j))
  }

  lemma WindowNext(insns: seq<Instruction>, start: nat, i: nat)
    requires start <= i < |insns|
    ensures WindowAt(insns, start, i + 1)
         == if CalleeName(insns[i]).Some? then {} else WindowAt(insns, start, i) + StackWritesOf(insns[i].operands)
  {
    hide CalleeName, StackWritesOf;
  }

  lemma ScanFound(v: Vocabulary, insns: seq<Instruction>, source: nat, hits: seq<Hit>, steps: seq<FlowStep>,
                  window: set<Location>)
    requires hits != [] && forall k :: 0 <= k < |hits| ==> hits[k].index < |insns|
    requires var insn := insns[hits[0].index];
      CalleeName(insn).Some? && SinkApi(v, insn).Some? && ReachesArg(hits[0].tainted, window)
    ensures var i := hits[0].index;
      var api := SinkApi(v, insns[i]).value;
      Scan(v, insns, source, hits, steps, window)
      == [Path(source, i, api, steps + [AtSink(i, api)])] + Scan(v, insns, source, hits[1..], steps, {})
  {
    hide CalleeName, SinkApi, ReachesArg;
  }

  lemma ScanPassed(v: Vocabulary, insns: seq<Instruction>, source: nat, hits: seq<Hit>, steps: seq<FlowStep>,
                   window: set<Location>)
    requires hits != [] && forall k :: 0 <= k < |hits| ==> hits[k].index < |insns|
    requires var insn := insns[hits[0].index];
      !(CalleeName(insn).Some? && SinkApi(v, insn).Some? && ReachesArg(hits[0].tainted, window))
    ensures var insn := insns[hits[0].index];
      var next := if CalleeName(insn).Some? then {} else window + StackWritesOf(insn.operands);
      var through := if hits[0].tainted != {} then steps + [Through(hits[0].index)] else steps;
      Scan(v, insns, source, hits, steps, window) == Scan(v, insns, source, hits[1..], through, next)
  {
    hide CalleeName, SinkApi, ReachesArg, StackWritesOf;
  }

  lemma {:induction false} ScanIsExact(v: Vocabulary, insns: seq<Instruction>, source: nat, hits: seq<Hit>,
                                       steps: seq<FlowStep>, start: nat, i: nat, j: nat)
    requires start <= i <= |insns| && IndexedFrom(hits, i, |insns|)
    requires j < |insns|
    ensures Reports(Scan(v, insns, source, hits, steps, WindowAt(insns, start, i)), j)
       <==> (i <= j < i + |hits| && SinkApi(v, insns[j]).Some?
             && ReachesArg(hits[j - i].tainted, WindowAt(insns, start, j)))
    decreases |hits|
  {
    hide *;
    var window := WindowAt(insns, start, i);
    if hits == [] {
      NothingReported(v, insns, source, steps, window, j);
    } else {
      HeadIndex(hits, i, |insns|);
      var insn := insns[i];
      WindowNext(insns, start, i);
      LaterHits(hits, i, |insns|);
      SinkIsNamed(v, insn);
      if SinkApi(v, insn).Some? && ReachesArg(hits[0].tainted, window) {
        ScanIsExact(v, insns, source, hits[1..], steps, start, i + 1, j);
        ScanFound(v, insns, source, hits, steps, window);
        var path := Path(source, i, SinkApi(v, insn).value, steps + [AtSink(i, SinkApi(v, insn).value)]);
        ReportsConcat(path, Scan(v, insns, source, hits[1..], steps, WindowAt(insns, start, i + 1)), j);
      } else {
        var through := if hits[0].tainted != {} then steps + [Through(i)] else steps;
        ScanIsExact(v, insns, source, hits[1..], through, start, i + 1, j);
        ScanPassed(v, insns, source, hits, steps, window);
      }
    }
  }

  lemma HeadIndex(hits: seq<Hit>, i: nat, n: nat)
    requires IndexedFrom(hits, i, n) && hits != []
    ensures i < n && hits[0].index == i && forall k :: 0 <= k < |hits| ==> hits[k].index < n
  {
  }

  lemma NothingReported(v: Vocabulary, insns: seq<Instruction>, source: nat, steps: seq<FlowStep>,
                        window: set<Location>, j: nat)
    ensures !Reports(Scan(v, insns, source, [], steps, window), j)
  {
  }

  /** Some path ends at instruction `j`. */
  ghost predicate Reports(paths: seq<Path>, j: nat) {
    exists k :: 0 <= k < |paths| && paths[k].sink == j
  }

  lemma ReportsConcat(p: Path, rest: seq<Path>, j: nat)
    ensures Reports([p] + rest, j) <==> p.sink == j || Reports(rest, j)
  {
    var all := [p] + rest;
    if p.sink == j { assert all[0].sink == j; }
    if k :| 0 <= k < |rest| && rest[k].sink == j { assert all[k + 1].sink == j; }
    if k :| 0 <= k < |all| && all[k].sink == j && p.sink != j { assert rest[k - 1].sink == j; }
  }

  lemma SinkIsNamed(v: Vocabulary, insn: Instruction)
    ensures SinkApi(v, insn).Some? ==> CalleeName(insn).Some?
  {
  }

  /**
    Exactly the sinks: a source reports a path ending at instruction `j` if and only if `j` lies in
    the propagation window and is a dangerous call with a tainted argument.
  */
  lemma PathsAreExactlySinks(v: Vocabulary, insns: seq<Instruction>, source: nat, j: nat)
    requires source < j < |insns| && CalleeName(insns[source]).Some?
    ensures Reports(PathsFrom(v, insns, source), j)
       <==> j - source <= PROPAGATION_STEPS && IsSinkOf(v, insns, source, j)
  {
    PathsFromUnfolds(v, insns, source, j);
    SinkUnfolds(v, insns, source, j);
    HitsAreTaint(insns, source, j);
    hide *;
  }

  /** Instruction `j` is among the hits with an argument of its window tainted. */
  predicate IsHit(insns: seq<Instruction>, source: nat, j: nat)
    requires source < j < |insns|
  {
    var hits := Reach(insns, source + 1, {InReg(RAX)}, PROPAGATION_STEPS);
    j - source <= |hits| && ReachesArg(hits[j - source - 1].tainted, WindowAt(insns, source + 1, j))
  }

  lemma HitsAreTaint(insns: seq<Instruction>, source: nat, j: nat)
    requires source < j < |insns|
    ensures IsHit(insns, source, j)
       <==> j - source <= PROPAGATION_STEPS
            && ReachesArg(TaintAt(insns, source + 1, {InReg(RAX)}, j), WindowAt(insns, source + 1, j))
  {
    hide Reach, TaintAt, WindowAt, ReachesArg;
    ReachIsShort(insns, source + 1, {InReg(RAX)}, PROPAGATION_STEPS);
    if j - source <= PROPAGATION_STEPS {
      ReachIsTaint(insns, source + 1, {InReg(RAX)}, PROPAGATION_STEPS, j);
      UntaintedReachesNothing(WindowAt(insns, source + 1, j));
    }
  }

  lemma PathsFromUnfolds(v: Vocabulary, insns: seq<Instruction>, source: nat, j: nat)
    requires source < j < |insns| && CalleeName(insns[source]).Some?
    ensures Reports(PathsFrom(v, insns, source), j) <==> SinkApi(v, insns[j]).Some? && IsHit(insns, source, j)
  {
    hide Reach, Scan, WindowAt, Reports, SinkApi, ReachesArg, IndexedFrom, PathsFrom, CalleeName, TaintAt;
    PathsFromIsScan(v, insns, source);
    var hits := Reach(insns, source + 1, {InReg(RAX)}, PROPAGATION_STEPS);
    ScanIsExact(v, insns, source, hits, [AtSource(source, CalleeName(insns[source]).value)], source + 1, source + 1, j);
  }

  lemma PathsFromIsScan(v: Vocabulary, insns: seq<Instruction>, source: nat)
    requires source < |insns| && CalleeName(insns[source]).Some?
    ensures var hits := Reach(insns, source + 1, {InReg(RAX)}, PROPAGATION_STEPS);
      && IndexedFrom(hits, source + 1, |insns|)
      && PathsFrom(v, insns, source)
         == Scan(v, insns, source, hits, [AtSource(source, CalleeName(insns[source]).value)],
                 WindowAt(insns, source + 1, source + 1))
  {
    hide Reach, Scan, CalleeName;
    ReachIndices(insns, source + 1, {InReg(RAX)}, PROPAGATION_STEPS);
  }

  lemma SinkUnfolds(v: Vocabulary, insns: seq<Instruction>, source: nat, j: nat)
    requires source < j < |insns|
    ensures IsSinkOf(v, insns, source, j)
       <==> SinkApi(v, insns[j]).Some?
            && ReachesArg(TaintAt(insns, source + 1, {InReg(RAX)}, j), WindowAt(insns, source + 1, j))
  {
    hide SinkApi, ReachesArg, TaintAt, WindowAt;
  }

  lemma UntaintedReachesNothing(window: set<Location>)
    ensures !ReachesArg({}, window)
  {
  }

  lemma {:induction false} ReachIsShort(insns: seq<Instruction>, i: nat, seeds: set<Location>, cap: nat)
    ensures |Reach(insns, i, seeds, cap)| <= cap
    decreases |insns| - i
  {
    if i < |insns| && cap > 0 && seeds != {} {
      ReachIsShort(insns, i + 1, Propagate(insns[i], seeds), cap - 1);
    }
  }

  lemma {:induction false} SourcesPathsAreListed(v: Vocabulary, insns: seq<Instruction>, i: nat, source: nat, k: nat)
    returns (m: nat)
    requires i <= source < |insns| && IsSourceCall(v, insns[source]) && k < |PathsFrom(v, insns, source)|
    ensures m < |AllPaths(v, insns, i)| && AllPaths(v, insns, i)[m] == PathsFrom(v, insns, source)[k]
    decreases source - i
  {
    hide PathsFrom, IsSourceCall;
    if i == source {
      m := k;
    } else {
      m := SourcesPathsAreListed(v, insns, i + 1, source, k);
      m := m + |AllPaths(v, insns, i)| - |AllPaths(v, insns, i + 1)|;
    }
  }

  /** The value returned by the source call sits, untouched, in an argument of the call at `j`. */
  ghost predicate PassesValue(insns: seq<Instruction>, source: nat, j: nat, m: Memory, tag: int)
    requires source < j < |insns|
  {
    exists loc :: m(loc) == tag
      && (loc in ARG_REGS || (loc.InStack? && loc.slot >= 0 && loc in WindowAt(insns, source + 1, j)))
  }

  /**
    No missed flow: if along some execution the return value of an input source is, as an exact copy,
    in an argument of a dangerous call within the propagation window, the uncapped result has that path.
  */
  lemma NoMissedFlow(v: Vocabulary, insns: seq<Instruction>, source: nat, j: nat, run: seq<Memory>, tag: int)
    returns (m: nat)
    requires source < j < |insns| && j - source <= PROPAGATION_STEPS
    requires IsSourceCall(v, insns[source]) && SinkApi(v, insns[j]).Some?
    requires |run| == j - source
    requires HoldsOnly(run[0], tag, {InReg(RAX)})
    requires forall k :: source < k < j ==>
      ClearsWhatItWrites(insns[k]) && Executes(insns[k], run[k - source - 1], run[k - source], tag)
    requires PassesValue(insns, source, j, run[j - source - 1], tag)
    ensures m < |AllPaths(v, insns, 0)|
    ensures AllPaths(v, insns, 0)[m] in PathsFrom(v, insns, source) && AllPaths(v, insns, 0)[m].sink == j
  {
    PassedIsSink(v, insns, source, j, run, tag);
    SourceIsNamed(v, insns[source]);
    hide *;
    PathsAreExactlySinks(v, insns, source, j);
    var k := ReportedAt(PathsFrom(v, insns, source), j);
    m := SourcesPathsAreListed(v, insns, 0, source, k);
  }

  lemma SourceIsNamed(v: Vocabulary, insn: Instruction)
    requires IsSourceCall(v, insn)
    ensures CalleeName(insn).Some?
  {
  }

  lemma ReportedAt(paths: seq<Path>, j: nat) returns (k: nat)
    requires Reports(paths, j)
    ensures k < |paths| && paths[k].sink == j
  {
    k :| 0 <= k < |paths| && paths[k].sink == j;
  }

  /** A call that is passed the source's value is a sink of it. */
  lemma PassedIsSink(v: Vocabulary, insns: seq<Instruction>, source: nat, j: nat, run: seq<Memory>, tag: int)
    requires source < j < |insns| && SinkApi(v, insns[j]).Some?
    requires |run| == j - source
    requires HoldsOnly(run[0], tag, {InReg(RAX)})
    requires forall k :: source < k < j ==>
      ClearsWhatItWrites(insns[k]) && Executes(insns[k], run[k - source - 1], run[k - source], tag)
    requires PassesValue(insns, source, j, run[j - source - 1], tag)
    ensures IsSinkOf(v, insns, source, j)
  {
    hide *;
    var start := source + 1;
    forall k | start <= k < j
      ensures ClearsWhatItWrites(insns[k]) && Executes(insns[k], run[k - start], run[k - start + 1], tag)
    {
      var i := k - start;
      assert k - source - 1 == i && k - source == i + 1;
    }
    NoMissedCopy(insns, start, run, tag, {InReg(RAX)}, j);
    PassedReaches(insns, source, j, run[j - start], tag, TaintAt(insns, start, {InReg(RAX)}, j));
    ReachedIsSink(v, insns, source, j);
  }

  lemma ReachedIsSink(v: Vocabulary, insns: seq<Instruction>, source: nat, j: nat)
    requires source < j < |insns| && SinkApi(v, insns[j]).Some?
    requires ReachesArg(TaintAt(insns, source + 1, {InReg(RAX)}, j), WindowAt(insns, source + 1, j))
    ensures IsSinkOf(v, insns, source, j)
  {
  }

  lemma PassedReaches(insns: seq<Instruction>, source: nat, j: nat, m: Memory, tag: int, tainted: set<Location>)
    requires source < j < |insns|
    requires HoldsOnly(m, tag, tainted) && PassesValue(insns, source, j, m, tag)
    ensures ReachesArg(tainted, WindowAt(insns, source + 1, j))
  {
    hide WindowAt;
    var loc :| m(loc) == tag
      && (loc in ARG_REGS || (loc.InStack? && loc.slot >= 0 && loc in WindowAt(insns, source + 1, j)));
    assert loc in tainted;
    assert loc in ARG_REGS ==> loc in tainted * ARG_REGS;
  }
}
