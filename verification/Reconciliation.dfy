/**
  The N-way annotation merge (src/idamesh/domain/services/reconciliation.py): enumerate each
  session's edits, subtract its baseline, detect conflicts, resolve them under a policy.
*/
module Reconciliation {
  import opened Common
  import Strings

  datatype Session = Session(id: string)

  // Names and prototypes are keyed by address, comments by address and scope.
  datatype Key = Ea(ea: int) | Scoped(ea: int, scope: string)

  datatype Signature = Text(text: string) | CommentPair(regular: string, repeatable: string)

  datatype Provenance = Provenance(inputPath: string, sha256: Option<string>, imagebase: Option<int>,
                                   version: Option<string>)

  type Table = map<Key, Signature>

  datatype Record = Record(provenance: Provenance, names: Table, comments: Table, prototypes: Table)

  datatype Field = Names | Comments | Prototypes

  datatype Policy = Manual | First | Last | Prefer

  datatype Entry = Entry(session: Session, signature: Signature)

  datatype Pair = Pair(session: Session, record: Record)

  datatype Baselines = Baselines(shared: Option<Record>, perSource: map<Session, Record>)

  datatype Conflict = Conflict(field: Field, key: Key, candidates: map<Session, Signature>, resolved: Option<Signature>)

  datatype Plan = Plan(names: Table, comments: Table, prototypes: Table, conflicts: seq<Conflict>)

  datatype MergeError = UnknownField(name: string) | ShaMismatch | ImagebaseMismatch

  function TableOf(r: Record, f: Field): Table {
    match f
    case Names => r.names
    case Comments => r.comments
    case Prototypes => r.prototypes
  }

  predicate IsEmptySignature(s: Signature) {
    match s
    case Text(t) => t == ""
    case CommentPair(a, b) => a == "" && b == ""
  }

  // ---------------------------------------------------------------- key order

  predicate KeyLess(a: Key, b: Key) {
    if a.ea != b.ea then a.ea < b.ea
    else if a.Ea? then b.Scoped?
    else b.Scoped? && Strings.Less(a.scope, b.scope)
  }

  lemma KeyTrichotomy(a: Key, b: Key)
    ensures KeyLess(a, b) || a == b || KeyLess(b, a)
    ensures !(KeyLess(a, b) && KeyLess(b, a))
  {
    if a.Scoped? && b.Scoped? { Strings.Trichotomy(a.scope, b.scope); }
  }

  lemma KeyTransitive(a: Key, b: Key, c: Key)
    requires KeyLess(a, b) && KeyLess(b, c)
    ensures KeyLess(a, c)
  {
    if a.Scoped? && b.Scoped? && c.Scoped? && a.ea == b.ea == c.ea { Strings.Transitive(a.scope, b.scope, c.scope); }
  }

  ghost predicate IsLeast(k: Key, keys: set<Key>) {
    k in keys && forall x :: x in keys && x != k ==> KeyLess(k, x)
  }

  lemma LeastIsUnique(a: Key, b: Key, keys: set<Key>)
    requires IsLeast(a, keys) && IsLeast(b, keys)
    ensures a == b
  {
    KeyTrichotomy(a, b);
  }

  method LeastKey(keys: set<Key>) returns (least: Key)
    requires keys != {}
    ensures IsLeast(least, keys)
  {
    least :| least in keys;
    var rest := keys - {least};
    while rest != {}
      invariant rest <= keys && IsLeast(least, keys - rest)
      decreases rest
    {
      var k :| k in rest;
      KeyTrichotomy(k, least);
      ghost var was := least;
      if KeyLess(k, least) {
        forall x | x in keys - rest && x != was ensures KeyLess(k, x) {
          KeyTransitive(k, was, x);
        }
        least := k;
      }
      rest := rest - {k};
    }
    assert keys - rest == keys;
  }

  lemma {:induction false} LeastExists(keys: set<Key>)
    requires keys != {}
    ensures exists k :: IsLeast(k, keys)
    decreases keys
  {
    var k :| k in keys;
    var rest := keys - {k};
    if rest == {} {
      assert keys == {k};
      assert IsLeast(k, keys);
    } else {
      LeastExists(rest);
      var m :| IsLeast(m, rest);
      KeyTrichotomy(k, m);
      if KeyLess(k, m) {
        forall x | x in keys && x != k ensures KeyLess(k, x) {
          if x != m { KeyTransitive(k, m, x); }
        }
        assert IsLeast(k, keys);
      } else {
        assert IsLeast(m, keys);
      }
    }
  }

  /** The strictly ascending list of `keys`. */
  ghost function SortedKeys(keys: set<Key>): (r: seq<Key>)
    ensures forall k :: k in r <==> k in keys
    ensures forall i, j :: 0 <= i < j < |r| ==> KeyLess(r[i], r[j])
  {
    if keys == {} then []
    else
      LeastExists(keys);
      var k :| IsLeast(k, keys);
      var rest := SortedKeys(keys - {k});
      assert forall x :: x in rest ==> KeyLess(k, x);
      [k] + rest
  }

  lemma SortedStep(keys: set<Key>, k: Key)
    requires IsLeast(k, keys)
    ensures SortedKeys(keys) == [k] + SortedKeys(keys - {k})
  {
    var m :| IsLeast(m, keys) && SortedKeys(keys) == [m] + SortedKeys(keys - {m});
    LeastIsUnique(k, m, keys);
  }

  method SortKeys(keys: set<Key>) returns (r: seq<Key>)
    ensures r == SortedKeys(keys)
  {
    hide *;
    r := [];
    var rest := keys;
    assert [] + SortedKeys(keys) == SortedKeys(keys);
    while rest != {}
      invariant rest <= keys && r + SortedKeys(rest) == SortedKeys(keys)
      decreases |rest|
    {
      var k := LeastKey(rest);
      SortedStep(rest, k);
      LeastIsMember(k, rest);
      ghost var later := SortedKeys(rest - {k});
      assert r + ([k] + later) == (r + [k]) + later;
      r := r + [k];
      rest := rest - {k};
    }
    NothingSorted();
    assert r + [] == r;
  }

  lemma NothingSorted()
    ensures SortedKeys({}) == []
  {
  }

  lemma LeastIsMember(k: Key, keys: set<Key>)
    requires IsLeast(k, keys)
    ensures k in keys
  {
  }

  // ---------------------------------------------------------------- candidates of one key

  function BaselineFor(b: Baselines, s: Session, f: Field): Table {
    if s in b.perSource then TableOf(b.perSource[s], f)
    else if b.shared.Some? then TableOf(b.shared.value, f)
    else map[]
  }

  /** The session's record carries a genuine edit at `k`: non-empty, and not what its baseline says. */
  predicate IsEdit(f: Field, b: Baselines, p: Pair, k: Key) {
    var data, base := TableOf(p.record, f), BaselineFor(b, p.session, f);
    k in data && !IsEmptySignature(data[k]) && !(k in base && base[k] == data[k])
  }

  function EntryOf(f: Field, b: Baselines, p: Pair, k: Key): seq<Entry> {
    if IsEdit(f, b, p, k) then [Entry(p.session, TableOf(p.record, f)[k])] else []
  }

  /** The contributions to `k`, in record order. */
  function Entries(f: Field, b: Baselines, pairs: seq<Pair>, k: Key): seq<Entry> {
    if pairs == [] then [] else Entries(f, b, pairs[..|pairs| - 1], k) + EntryOf(f, b, pairs[|pairs| - 1], k)
  }

  function EditedKeys(f: Field, b: Baselines, p: Pair): set<Key> {
    set k | k in TableOf(p.record, f) && IsEdit(f, b, p, k)
  }

  function CandidateKeys(f: Field, b: Baselines, pairs: seq<Pair>): set<Key> {
    if pairs == [] then {} else CandidateKeys(f, b, pairs[..|pairs| - 1]) + EditedKeys(f, b, pairs[|pairs| - 1])
  }

  lemma {:induction false} CandidatesHaveEntries(f: Field, b: Baselines, pairs: seq<Pair>, k: Key)
    ensures k in CandidateKeys(f, b, pairs) <==> Entries(f, b, pairs, k) != []
  {
    if pairs != [] {
      CandidatesHaveEntries(f, b, pairs[..|pairs| - 1], k);
    }
  }

  function DistinctSignatures(es: seq<Entry>): seq<Signature> {
    if es == [] then []
    else
      var seen, last := DistinctSignatures(es[..|es| - 1]), es[|es| - 1].signature;
      if last in seen then seen else seen + [last]
  }

  predicate Unanimous(es: seq<Entry>) {
    es != [] && forall i :: 0 <= i < |es| ==> es[i].signature == es[0].signature
  }

  lemma {:induction false} DistinctFacts(es: seq<Entry>)
    ensures |DistinctSignatures(es)| == 1 <==> Unanimous(es)
    ensures es != [] ==> |DistinctSignatures(es)| >= 1 && DistinctSignatures(es)[0] == es[0].signature
    ensures forall i :: 0 <= i < |es| ==> es[i].signature in DistinctSignatures(es)
  {
    if es != [] {
      var init := es[..|es| - 1];
      DistinctFacts(init);
      forall i | 0 <= i < |es| ensures es[i].signature in DistinctSignatures(es) {
        if i < |init| { assert init[i] == es[i]; }
      }
      if Unanimous(es) && init != [] {
        assert Unanimous(init);
      }
      if |DistinctSignatures(es)| == 1 {
        forall i | 0 <= i < |es| ensures es[i].signature == es[0].signature {
          assert es[i].signature in DistinctSignatures(es);
        }
      }
    }
  }

  method DistinctLoop(es: seq<Entry>) returns (seen: seq<Signature>)
    ensures seen == DistinctSignatures(es)
  {
    seen := [];
    for i := 0 to |es|
      invariant seen == DistinctSignatures(es[..i])
    {
      assert es[..i + 1][..i] == es[..i];
      if es[i].signature !in seen {
        seen := seen + [es[i].signature];
      }
    }
    assert es[..|es|] == es;
  }

  /** The first contribution of session `s`. */
  function Preferred(es: seq<Entry>, s: Option<Session>): Option<Signature> {
    if es == [] then None
    else if Some(es[0].session) == s then Some(es[0].signature)
    else Preferred(es[1..], s)
  }

  /** The winner of a divergence, or None when the policy leaves it to a human. */
  function Resolve(es: seq<Entry>, policy: Policy, prefer: Option<Session>): Option<Signature>
    requires es != []
  {
    match policy
    case First => Some(es[0].signature)
    case Last => Some(es[|es| - 1].signature)
    case Prefer => Preferred(es, prefer)
    case Manual => None
  }

  /** What the plan says about one key. */
  function Planned(es: seq<Entry>, policy: Policy, prefer: Option<Session>): Option<Signature> {
    if es == [] then None
    else if Unanimous(es) then Some(es[0].signature)
    else Resolve(es, policy, prefer)
  }

  function CandidateMap(es: seq<Entry>): map<Session, Signature> {
    if es == [] then map[] else CandidateMap(es[..|es| - 1])[es[|es| - 1].session := es[|es| - 1].signature]
  }

  // ---------------------------------------------------------------- one field

  function PlanTable(f: Field, b: Baselines, pairs: seq<Pair>, policy: Policy, prefer: Option<Session>): Table {
    map k | k in CandidateKeys(f, b, pairs) && Planned(Entries(f, b, pairs, k), policy, prefer).Some?
      :: Planned(Entries(f, b, pairs, k), policy, prefer).value
  }

  /** One conflict for each diverging key of `keys`, in that order. */
  function ConflictList(f: Field, b: Baselines, pairs: seq<Pair>, policy: Policy, prefer: Option<Session>,
                        keys: seq<Key>): seq<Conflict> {
    if keys == [] then []
    else
      var k := keys[|keys| - 1];
      var es := Entries(f, b, pairs, k);
      ConflictList(f, b, pairs, policy, prefer, keys[..|keys| - 1])
      + (if es == [] || Unanimous(es) then [] else [Conflict(f, k, CandidateMap(es), Resolve(es, policy, prefer))])
  }

  ghost function FieldConflicts(f: Field, b: Baselines, pairs: seq<Pair>, policy: Policy,
                                prefer: Option<Session>): seq<Conflict> {
    ConflictList(f, b, pairs, policy, prefer, SortedKeys(CandidateKeys(f, b, pairs)))
  }

  /** The key's contributions so far, in a table that only lists keys with some. */
  predicate Grouped(f: Field, b: Baselines, pairs: seq<Pair>, candidates: map<Key, seq<Entry>>) {
    && candidates.Keys == CandidateKeys(f, b, pairs)
    && forall k :: k in candidates ==> candidates[k] == Entries(f, b, pairs, k)
  }

  function Held(candidates: map<Key, seq<Entry>>, k: Key): seq<Entry> {
    if k in candidates then candidates[k] else []
  }

  method AddEdits(f: Field, b: Baselines, p: Pair, before: map<Key, seq<Entry>>)
    returns (candidates: map<Key, seq<Entry>>)
    ensures candidates.Keys == before.Keys + EditedKeys(f, b, p)
    ensures forall k :: k in candidates ==> candidates[k] == Held(before, k) + EntryOf(f, b, p, k)
  {
    candidates := before;
    var data, base := TableOf(p.record, f), BaselineFor(b, p.session, f);
    var todo := data.Keys;
    while todo != {}
      invariant todo <= data.Keys
      invariant candidates.Keys == before.Keys + (set k | k in data.Keys - todo && IsEdit(f, b, p, k))
      invariant forall k :: k in candidates && k in todo ==> candidates[k] == Held(before, k)
      invariant forall k :: k in candidates && k !in todo ==> candidates[k] == Held(before, k) + EntryOf(f, b, p, k)
      decreases todo
    {
      var k :| k in todo;
      todo := todo - {k};
      if IsEmptySignature(data[k]) || (k in base && base[k] == data[k]) {
        continue;
      }
      candidates := candidates[k := Held(candidates, k) + [Entry(p.session, data[k])]];
    }
  }

  /** Group the genuine edits by key, in record order. */
  method GroupEdits(f: Field, b: Baselines, pairs: seq<Pair>) returns (candidates: map<Key, seq<Entry>>)
    ensures Grouped(f, b, pairs, candidates)
  {
    candidates := map[];
    for i := 0 to |pairs|
      invariant Grouped(f, b, pairs[..i], candidates)
    {
      assert pairs[..i + 1][..i] == pairs[..i];
      ghost var before := candidates;
      candidates := AddEdits(f, b, pairs[i], candidates);
      hide IsEdit, EditedKeys, EntryOf;
      forall k | k in candidates ensures Held(before, k) == Entries(f, b, pairs[..i], k) {
        CandidatesHaveEntries(f, b, pairs[..i], k);
      }
    }
    assert pairs[..|pairs|] == pairs;
  }

  method ResolveLoop(es: seq<Entry>, policy: Policy, prefer: Option<Session>) returns (r: Option<Signature>)
    requires es != []
    ensures r == Resolve(es, policy, prefer)
  {
    if policy == First { return Some(es[0].signature); }
    if policy == Last { return Some(es[|es| - 1].signature); }
    if policy == Prefer {
      var i := 0;
      assert es[0..] == es;
      while i < |es|
        invariant 0 <= i <= |es| && Preferred(es, prefer) == Preferred(es[i..], prefer)
      {
        assert es[i..][1..] == es[i + 1..];
        if Some(es[i].session) == prefer { return Some(es[i].signature); }
        i := i + 1;
      }
      return None;
    }
    r := None;
  }

  /** The plan entry and the conflict, if any, of one key's contributions. */
  method ReconcileKey(f: Field, key: Key, es: seq<Entry>, policy: Policy, prefer: Option<Session>)
    returns (planned: Option<Signature>, conflict: seq<Conflict>)
    requires es != []
    ensures planned == Planned(es, policy, prefer)
    ensures conflict == if Unanimous(es) then [] else [Conflict(f, key, CandidateMap(es), Resolve(es, policy, prefer))]
  {
    var distinct := DistinctLoop(es);
    DistinctFacts(es);
    if |distinct| == 1 {
      return Some(distinct[0]), [];
    }
    planned := ResolveLoop(es, policy, prefer);
    conflict := [Conflict(f, key, CandidateMap(es), planned)];
  }

  method ReconcileField(f: Field, b: Baselines, pairs: seq<Pair>, policy: Policy, prefer: Option<Session>)
    returns (plan: Table, conflicts: seq<Conflict>)
    ensures plan == PlanTable(f, b, pairs, policy, prefer)
    ensures conflicts == FieldConflicts(f, b, pairs, policy, prefer)
  {
    hide *;
    var candidates := GroupEdits(f, b, pairs);
    GroupedKeys(f, b, pairs, candidates);
    var keys := SortKeys(candidates.Keys);
    plan, conflicts := map[], [];
    FieldStart(f, b, pairs, policy, prefer);
    for i := 0 to |keys|
      invariant FieldSoFar(f, b, pairs, policy, prefer, keys[..i], plan, conflicts)
    {
      assert keys[..i + 1] == keys[..i] + [keys[i]];
      assert keys[i] in candidates;
      var planned, conflict := ReconcileKey(f, keys[i], candidates[keys[i]], policy, prefer);
      ghost var plan', conflicts' := plan, conflicts;
      if planned.Some? {
        plan := plan[keys[i] := planned.value];
      }
      conflicts := conflicts + conflict;
      FieldStep(f, b, pairs, policy, prefer, keys[..i], keys[i], plan', conflicts', plan, conflicts);
    }
    assert keys[..|keys|] == keys;
    FieldEnd(f, b, pairs, policy, prefer, plan, conflicts);
  }

  /** The plan table and the conflicts of the first keys, in key order. */
  ghost predicate FieldSoFar(f: Field, b: Baselines, pairs: seq<Pair>, policy: Policy, prefer: Option<Session>,
                             keys: seq<Key>, plan: Table, conflicts: seq<Conflict>) {
    && conflicts == ConflictList(f, b, pairs, policy, prefer, keys)
    && (forall k :: k in plan <==> k in keys && Planned(Entries(f, b, pairs, k), policy, prefer).Some?)
    && (forall k :: k in plan ==> Some(plan[k]) == Planned(Entries(f, b, pairs, k), policy, prefer))
  }

  lemma GroupedKeys(f: Field, b: Baselines, pairs: seq<Pair>, candidates: map<Key, seq<Entry>>)
    requires Grouped(f, b, pairs, candidates)
    ensures candidates.Keys == CandidateKeys(f, b, pairs)
    ensures forall k :: k in candidates ==> candidates[k] == Entries(f, b, pairs, k) != []
  {
    forall k | k in candidates ensures Entries(f, b, pairs, k) != [] {
      CandidatesHaveEntries(f, b, pairs, k);
    }
  }

  lemma FieldStart(f: Field, b: Baselines, pairs: seq<Pair>, policy: Policy, prefer: Option<Session>)
    ensures FieldSoFar(f, b, pairs, policy, prefer, [], map[], [])
  {
  }

  lemma FieldStep(f: Field, b: Baselines, pairs: seq<Pair>, policy: Policy, prefer: Option<Session>,
                  keys: seq<Key>, k: Key, plan: Table, conflicts: seq<Conflict>, plan': Table,
                  conflicts': seq<Conflict>)
    requires FieldSoFar(f, b, pairs, policy, prefer, keys, plan, conflicts)
    requires Entries(f, b, pairs, k) != []
    requires var es := Entries(f, b, pairs, k);
      && conflicts' == conflicts + (if Unanimous(es) then []
                                    else [Conflict(f, k, CandidateMap(es), Resolve(es, policy, prefer))])
      && plan' == (match Planned(es, policy, prefer) case Some(s) => plan[k := s] case None => plan)
    ensures FieldSoFar(f, b, pairs, policy, prefer, keys + [k], plan', conflicts')
  {
    hide Entries, Unanimous, Planned, Resolve, CandidateMap;
    assert (keys + [k])[..|keys|] == keys;
  }

  lemma FieldEnd(f: Field, b: Baselines, pairs: seq<Pair>, policy: Policy, prefer: Option<Session>,
                 plan: Table, conflicts: seq<Conflict>)
    requires FieldSoFar(f, b, pairs, policy, prefer, SortedKeys(CandidateKeys(f, b, pairs)), plan, conflicts)
    ensures plan == PlanTable(f, b, pairs, policy, prefer) && conflicts == FieldConflicts(f, b, pairs, policy, prefer)
  {
    hide Entries, Unanimous, Planned, Resolve, CandidateMap, SortedKeys, ConflictList, CandidateKeys;
  }

  // ---------------------------------------------------------------- the whole merge

  function FieldNamed(name: string): Option<Field> {
    if name == "names" then Some(Names)
    else if name == "comments" then Some(Comments)
    else if name == "prototypes" then Some(Prototypes)
    else None
  }

  /** The first name that is no field is the error. */
  function SelectedFields(names: seq<string>): Result<set<Field>, MergeError> {
    if names == [] then Success({})
    else
      match SelectedFields(names[..|names| - 1])
      case Failure(e) => Failure(e)
      case Success(fs) =>
        var name := names[|names| - 1];
        if FieldNamed(name) == None then Failure(UnknownField(name)) else Success(fs + {FieldNamed(name).value})
  }

  function Selected(fields: Option<seq<string>>): Result<set<Field>, MergeError> {
    match fields
    case None => Success({Names, Comments, Prototypes})
    case Some(names) => SelectedFields(names)
  }

  method SelectFields(fields: Option<seq<string>>) returns (r: Result<set<Field>, MergeError>)
    ensures r == Selected(fields)
  {
    if fields == None { return Success({Names, Comments, Prototypes}); }
    var names := fields.value;
    var selected: set<Field> := {};
    for i := 0 to |names|
      invariant SelectedFields(names[..i]) == Success(selected)
    {
      assert names[..i + 1][..i] == names[..i];
      var field := FieldNamed(names[i]);
      if field == None {
        UnknownStays(names, i + 1);
        return Failure(UnknownField(names[i]));
      }
      selected := selected + {field.value};
    }
    assert names[..|names|] == names;
    r := Success(selected);
  }

  lemma {:induction false} UnknownStays(names: seq<string>, i: nat)
    requires i <= |names| && SelectedFields(names[..i]).Failure?
    ensures SelectedFields(names) == SelectedFields(names[..i])
    decreases |names| - i
  {
    if i < |names| {
      assert names[..i + 1][..i] == names[..i];
      UnknownStays(names, i + 1);
    } else {
      assert names[..i] == names;
    }
  }

  function AllProvenances(pairs: seq<Pair>, b: Baselines): set<Provenance> {
    (set p | p in pairs :: p.record.provenance)
    + (if b.shared.Some? then {b.shared.value.provenance} else {})
    + (set s | s in b.perSource :: b.perSource[s].provenance)
  }

  function ShaValues(ps: set<Provenance>): set<string> {
    set p | p in ps && p.sha256.Some? :: p.sha256.value
  }

  function Imagebases(ps: set<Provenance>): set<int> {
    set p | p in ps && p.imagebase.Some? :: p.imagebase.value
  }

  /** The safety gate: one binary, one load address. */
  function ProvenanceError(ps: set<Provenance>): Option<MergeError> {
    if |ShaValues(ps)| > 1 then Some(ShaMismatch)
    else if |Imagebases(ps)| > 1 then Some(ImagebaseMismatch)
    else None
  }

  ghost function SelectedTable(fs: set<Field>, f: Field, b: Baselines, pairs: seq<Pair>, policy: Policy,
                               prefer: Option<Session>): Table {
    if f in fs then PlanTable(f, b, pairs, policy, prefer) else map[]
  }

  ghost function SelectedConflicts(fs: set<Field>, f: Field, b: Baselines, pairs: seq<Pair>, policy: Policy,
                                   prefer: Option<Session>): seq<Conflict> {
    if f in fs then FieldConflicts(f, b, pairs, policy, prefer) else []
  }

  ghost function MergePlan(fs: set<Field>, b: Baselines, pairs: seq<Pair>, policy: Policy,
                           prefer: Option<Session>): Plan {
    Plan(SelectedTable(fs, Names, b, pairs, policy, prefer),
         SelectedTable(fs, Comments, b, pairs, policy, prefer),
         SelectedTable(fs, Prototypes, b, pairs, policy, prefer),
         SelectedConflicts(fs, Names, b, pairs, policy, prefer)
         + SelectedConflicts(fs, Comments, b, pairs, policy, prefer)
         + SelectedConflicts(fs, Prototypes, b, pairs, policy, prefer))
  }

  ghost function Merge(pairs: seq<Pair>, b: Baselines, policy: Policy, prefer: Option<Session>,
                       fields: Option<seq<string>>): Result<Plan, MergeError> {
    match Selected(fields)
    case Failure(e) => Failure(e)
    case Success(fs) =>
      match ProvenanceError(AllProvenances(pairs, b))
      case Some(e) => Failure(e)
      case None => Success(MergePlan(fs, b, pairs, policy, prefer))
  }

  method Reconcile(pairs: seq<Pair>, b: Baselines, policy: Policy, prefer: Option<Session>, fields: Option<seq<string>>)
    returns (r: Result<Plan, MergeError>)
    ensures r == Merge(pairs, b, policy, prefer, fields)
  {
    hide *;
    var selected := SelectFields(fields);
    var failed := ProvenanceError(AllProvenances(pairs, b));
    MergeCases(pairs, b, policy, prefer, fields);
    if selected.Failure? { return Failure(selected.error); }
    if failed.Some? { return Failure(failed.value); }
    var names, nameConflicts := ReconcileSelected(selected.value, Names, b, pairs, policy, prefer);
    var comments, commentConflicts := ReconcileSelected(selected.value, Comments, b, pairs, policy, prefer);
    var prototypes, prototypeConflicts := ReconcileSelected(selected.value, Prototypes, b, pairs, policy, prefer);
    r := Success(Plan(names, comments, prototypes, nameConflicts + commentConflicts + prototypeConflicts));
    MergePlanFields(selected.value, b, pairs, policy, prefer);
  }

  /** An unselected field stays out of the plan. */
  method ReconcileSelected(fs: set<Field>, f: Field, b: Baselines, pairs: seq<Pair>, policy: Policy,
                           prefer: Option<Session>)
    returns (table: Table, conflicts: seq<Conflict>)
    ensures table == SelectedTable(fs, f, b, pairs, policy, prefer)
    ensures conflicts == SelectedConflicts(fs, f, b, pairs, policy, prefer)
  {
    if f !in fs { return map[], []; }
    table, conflicts := ReconcileField(f, b, pairs, policy, prefer);
  }

  lemma MergeCases(pairs: seq<Pair>, b: Baselines, policy: Policy, prefer: Option<Session>, fields: Option<seq<string>>)
    ensures var r := Merge(pairs, b, policy, prefer, fields);
      var failed := ProvenanceError(AllProvenances(pairs, b));
      && (Selected(fields).Failure? ==> r == Failure(Selected(fields).error))
      && (Selected(fields).Success? && failed.Some? ==> r == Failure(failed.value))
      && (Selected(fields).Success? && failed == None ==>
            r == Success(MergePlan(Selected(fields).value, b, pairs, policy, prefer)))
  {
    hide MergePlan, Selected, ProvenanceError, AllProvenances;
  }

  lemma MergePlanFields(fs: set<Field>, b: Baselines, pairs: seq<Pair>, policy: Policy, prefer: Option<Session>)
    ensures var plan := MergePlan(fs, b, pairs, policy, prefer);
      && plan.names == SelectedTable(fs, Names, b, pairs, policy, prefer)
      && plan.comments == SelectedTable(fs, Comments, b, pairs, policy, prefer)
      && plan.prototypes == SelectedTable(fs, Prototypes, b, pairs, policy, prefer)
      && plan.conflicts == SelectedConflicts(fs, Names, b, pairs, policy, prefer)
                         + SelectedConflicts(fs, Comments, b, pairs, policy, prefer)
                         + SelectedConflicts(fs, Prototypes, b, pairs, policy, prefer)
  {
    hide SelectedTable, SelectedConflicts;
  }

  /** Serialize a plan's resolved entries back into a record that can be applied or merged again. */
  function AsRecord(plan: Plan, provenance: Provenance): Record {
    Record(provenance, plan.names, plan.comments, plan.prototypes)
  }
}
