/**
  The algebra of the annotation merge (src/idamesh/domain/services/reconciliation.py): hierarchical
  merging, re-merging, reversal, order independence, and what becomes of every edit.
*/
module MergeLaws {
  import opened Common
  import opened Reconciliation

  const NO_BASELINES := Baselines(None, map[])

  // ---------------------------------------------------------------- tables, key by key

  lemma PlanTableAt(f: Field, b: Baselines, pairs: seq<Pair>, policy: Policy, prefer: Option<Session>, k: Key)
    ensures k in PlanTable(f, b, pairs, policy, prefer) <==> Planned(Entries(f, b, pairs, k), policy, prefer).Some?
    ensures k in PlanTable(f, b, pairs, policy, prefer) ==>
      Some(PlanTable(f, b, pairs, policy, prefer)[k]) == Planned(Entries(f, b, pairs, k), policy, prefer)
  {
    CandidatesHaveEntries(f, b, pairs, k);
  }

  lemma SameTable(f: Field, b: Baselines, pairs: seq<Pair>, policy: Policy, prefer: Option<Session>,
                  b': Baselines, pairs': seq<Pair>, policy': Policy, prefer': Option<Session>)
    requires forall k :: Planned(Entries(f, b, pairs, k), policy, prefer)
                         == Planned(Entries(f, b', pairs', k), policy', prefer')
    ensures PlanTable(f, b, pairs, policy, prefer) == PlanTable(f, b', pairs', policy', prefer')
  {
    forall k ensures (k in PlanTable(f, b, pairs, policy, prefer) <==> k in PlanTable(f, b', pairs', policy', prefer'))
               && (k in PlanTable(f, b, pairs, policy, prefer) ==>
                     PlanTable(f, b, pairs, policy, prefer)[k] == PlanTable(f, b', pairs', policy', prefer')[k])
    {
      PlanTableAt(f, b, pairs, policy, prefer, k);
      PlanTableAt(f, b', pairs', policy', prefer', k);
    }
    hide PlanTable, Planned, Entries;
  }

  lemma {:induction false} EntriesConcat(f: Field, b: Baselines, xs: seq<Pair>, ys: seq<Pair>, k: Key)
    ensures Entries(f, b, xs + ys, k) == Entries(f, b, xs, k) + Entries(f, b, ys, k)
    decreases |ys|
  {
    if ys == [] {
      assert xs + ys == xs;
    } else {
      var init := ys[..|ys| - 1];
      assert (xs + ys)[..|xs + ys| - 1] == xs + init;
      EntriesConcat(f, b, xs, init, k);
    }
  }

  predicate Contributes(f: Field, b: Baselines, p: Pair, k: Key, e: Entry) {
    IsEdit(f, b, p, k) && e == Entry(p.session, TableOf(p.record, f)[k])
  }

  lemma {:induction false} EntryMember(f: Field, b: Baselines, pairs: seq<Pair>, k: Key, e: Entry)
    ensures e in Entries(f, b, pairs, k) <==> exists p :: p in pairs && Contributes(f, b, p, k, e)
  {
    if pairs != [] {
      var init, last := pairs[..|pairs| - 1], pairs[|pairs| - 1];
      assert pairs == init + [last];
      EntryMember(f, b, init, k, e);
      assert e in EntryOf(f, b, last, k) <==> Contributes(f, b, last, k, e);
      hide Contributes, EntryOf;
      if p :| p in init && Contributes(f, b, p, k, e) { assert p in pairs; }
      if Contributes(f, b, last, k, e) { assert last in pairs; }
    }
  }

  /** Whatever is planned is somebody's genuine, non-empty edit. */
  lemma PlannedIsAnEdit(f: Field, b: Baselines, pairs: seq<Pair>, k: Key, policy: Policy, prefer: Option<Session>)
    requires Planned(Entries(f, b, pairs, k), policy, prefer).Some?
    ensures exists p ::
      p in pairs
      && Contributes(f, b, p, k, Entry(p.session, Planned(Entries(f, b, pairs, k), policy, prefer).value))
    ensures !IsEmptySignature(Planned(Entries(f, b, pairs, k), policy, prefer).value)
  {
    var es := Entries(f, b, pairs, k);
    PlannedIsContributed(es, policy, prefer);
    var e :| e in es && e.signature == Planned(es, policy, prefer).value;
    EntryMember(f, b, pairs, k, e);
    var p :| p in pairs && Contributes(f, b, p, k, e);
    assert e == Entry(p.session, e.signature);
    hide Planned, Entries, IsEmptySignature;
  }

  lemma PlannedIsContributed(es: seq<Entry>, policy: Policy, prefer: Option<Session>)
    requires Planned(es, policy, prefer).Some?
    ensures exists e :: e in es && e.signature == Planned(es, policy, prefer).value
  {
    assert es[0] in es && es[|es| - 1] in es;
    if Preferred(es, prefer).Some? {
      PreferredIsContributed(es, prefer);
    }
  }

  lemma {:induction false} PreferredIsContributed(es: seq<Entry>, s: Option<Session>)
    requires Preferred(es, s).Some?
    ensures s.Some? && Entry(s.value, Preferred(es, s).value) in es
  {
    if Some(es[0].session) != s {
      PreferredIsContributed(es[1..], s);
    }
  }

  /** Two sessions disagree about `k`. */
  ghost predicate Diverges(f: Field, b: Baselines, pairs: seq<Pair>, k: Key) {
    var es := Entries(f, b, pairs, k);
    es != [] && !Unanimous(es)
  }

  // ---------------------------------------------------------------- hierarchical merging

  function Concat(groups: seq<seq<Pair>>): seq<Pair> {
    if groups == [] then [] else Concat(groups[..|groups| - 1]) + groups[|groups| - 1]
  }

  /** Each of `tops` carries one group's plan for field `f`. */
  ghost predicate AreSubTables(f: Field, b: Baselines, groups: seq<seq<Pair>>, tops: seq<Pair>,
                               policy: Policy, prefer: Option<Session>) {
    && |tops| == |groups|
    && forall i :: 0 <= i < |groups| ==> TableOf(tops[i].record, f) == PlanTable(f, b, groups[i], policy, prefer)
  }

  lemma FirstOrLast(es: seq<Entry>, prefer: Option<Session>)
    ensures Planned(es, First, prefer) == if es == [] then None else Some(es[0].signature)
    ensures Planned(es, Last, prefer) == if es == [] then None else Some(es[|es| - 1].signature)
  {
  }

  /** A merged record contributes exactly its planned signatures when merged again without baselines. */
  lemma MergedContributes(f: Field, table: Table, s: Session, r: Record, k: Key)
    requires TableOf(r, f) == table
    requires k in table ==> !IsEmptySignature(table[k])
    ensures EntryOf(f, NO_BASELINES, Pair(s, r), k) == if k in table then [Entry(s, table[k])] else []
  {
  }

  /** `sub` is what a merged record contributes: the winner of `es`, if there is one. */
  ghost predicate IsSubWinner(es: seq<Entry>, sub: seq<Entry>, policy: Policy, prefer: Option<Session>) {
    if Planned(es, policy, prefer) == None then sub == []
    else |sub| == 1 && Planned(es, policy, prefer) == Some(sub[0].signature)
  }

  lemma SubWinner(f: Field, b: Baselines, xs: seq<Pair>, policy: Policy, prefer: Option<Session>, x: Pair, k: Key)
    requires TableOf(x.record, f) == PlanTable(f, b, xs, policy, prefer)
    ensures IsSubWinner(Entries(f, b, xs, k), EntryOf(f, NO_BASELINES, x, k), policy, prefer)
  {
    PlanTableAt(f, b, xs, policy, prefer, k);
    if Planned(Entries(f, b, xs, k), policy, prefer).Some? { PlannedIsAnEdit(f, b, xs, k, policy, prefer); }
    hide Planned, PlanTable, Entries, EntryOf, IsEmptySignature;
    MergedContributes(f, PlanTable(f, b, xs, policy, prefer), x.session, x.record, k);
  }

  /** What one more group adds to the flat merge's entries and to those of the second merge. */
  lemma OneMoreGroup(f: Field, b: Baselines, groups: seq<seq<Pair>>, tops: seq<Pair>, policy: Policy,
                     prefer: Option<Session>, k: Key)
    requires groups != [] && AreSubTables(f, b, groups, tops, policy, prefer)
    ensures var n := |groups| - 1;
      && AreSubTables(f, b, groups[..n], tops[..n], policy, prefer)
      && Entries(f, b, Concat(groups), k) == Entries(f, b, Concat(groups[..n]), k) + Entries(f, b, groups[n], k)
      && Entries(f, NO_BASELINES, tops, k)
         == Entries(f, NO_BASELINES, tops[..n], k) + EntryOf(f, NO_BASELINES, tops[n], k)
      && IsSubWinner(Entries(f, b, groups[n], k), EntryOf(f, NO_BASELINES, tops[n], k), policy, prefer)
  {
    var n := |groups| - 1;
    EntriesConcat(f, b, Concat(groups[..n]), groups[n], k);
    SubWinner(f, b, groups[n], policy, prefer, tops[n], k);
    hide PlanTable, EntryOf, IsSubWinner;
  }

  /** One key under FIRST or LAST: the winner of all groups is the winner of the groups' winners. */
  lemma {:induction false} WinnerOfWinners(f: Field, b: Baselines, groups: seq<seq<Pair>>, tops: seq<Pair>,
                                           policy: Policy, prefer: Option<Session>, k: Key)
    requires policy == First || policy == Last
    requires AreSubTables(f, b, groups, tops, policy, prefer)
    ensures Planned(Entries(f, b, Concat(groups), k), policy, prefer)
         == Planned(Entries(f, NO_BASELINES, tops, k), policy, prefer)
    decreases |groups|
  {
    if groups != [] {
      var n := |groups| - 1;
      OneMoreGroup(f, b, groups, tops, policy, prefer, k);
      hide *;
      WinnerOfWinners(f, b, groups[..n], tops[..n], policy, prefer, k);
      OneMoreWinner(Entries(f, b, Concat(groups[..n]), k), Entries(f, b, groups[n], k),
                    Entries(f, NO_BASELINES, tops[..n], k), EntryOf(f, NO_BASELINES, tops[n], k), policy, prefer);
    } else {
      hide Planned;
    }
  }

  lemma OneMoreWinner(es: seq<Entry>, fs: seq<Entry>, ds: seq<Entry>, sub: seq<Entry>, policy: Policy,
                      prefer: Option<Session>)
    requires policy == First || policy == Last
    requires Planned(es, policy, prefer) == Planned(ds, policy, prefer) && IsSubWinner(fs, sub, policy, prefer)
    ensures Planned(es + fs, policy, prefer) == Planned(ds + sub, policy, prefer)
  {
    FirstOrLast(es + fs, prefer);
    FirstOrLast(es, prefer);
    FirstOrLast(fs, prefer);
    FirstOrLast(ds, prefer);
    FirstOrLast(ds + sub, prefer);
    hide Planned;
  }

  lemma FewerProvenances(ps: set<Provenance>, qs: set<Provenance>)
    requires ps <= qs && ProvenanceError(qs) == None
    ensures ProvenanceError(ps) == None
  {
    SmallerSet(ShaValues(ps), ShaValues(qs));
    SmallerSet(Imagebases(ps), Imagebases(qs));
  }

  lemma OneProvenance(p: Provenance)
    ensures ProvenanceError({p}) == None
  {
    SmallerSet(ShaValues({p}), if p.sha256.Some? then {p.sha256.value} else {});
    SmallerSet(Imagebases({p}), if p.imagebase.Some? then {p.imagebase.value} else {});
  }

  lemma {:induction false} GroupProvenances(groups: seq<seq<Pair>>, b: Baselines, i: nat)
    requires i < |groups|
    ensures AllProvenances(groups[i], b) <= AllProvenances(Concat(groups), b)
    decreases |groups|
  {
    if i < |groups| - 1 {
      GroupProvenances(groups[..|groups| - 1], b, i);
    }
  }

  /** Records tagged alike pass the safety gate. */
  lemma TaggedProvenance(tops: seq<Pair>, tag: Provenance)
    requires forall i :: 0 <= i < |tops| ==> tops[i].record.provenance == tag
    ensures ProvenanceError(AllProvenances(tops, NO_BASELINES)) == None
  {
    OneProvenance(tag);
    FewerProvenances(AllProvenances(tops, NO_BASELINES), {tag});
  }

  predicate SameTables(p: Plan, q: Plan) {
    p.names == q.names && p.comments == q.comments && p.prototypes == q.prototypes
  }

  /** Each of `tops` is one group merged on its own, its plan turned into a record under some session id. */
  ghost predicate AreMerged(groups: seq<seq<Pair>>, tops: seq<Pair>, b: Baselines, policy: Policy,
                            prefer: Option<Session>, fields: Option<seq<string>>, tag: Provenance) {
    && |tops| == |groups|
    && forall i :: 0 <= i < |groups| ==>
         var r := Merge(groups[i], b, policy, prefer, fields);
         r.Success? ==> tops[i].record == AsRecord(r.value, tag)
  }

  lemma GroupMerges(groups: seq<seq<Pair>>, b: Baselines, policy: Policy, prefer: Option<Session>,
                    fields: Option<seq<string>>, i: nat)
    requires Merge(Concat(groups), b, policy, prefer, fields).Success? && i < |groups|
    ensures Selected(fields).Success?
    ensures Merge(groups[i], b, policy, prefer, fields)
         == Success(MergePlan(Selected(fields).value, b, groups[i], policy, prefer))
  {
    MergeCases(Concat(groups), b, policy, prefer, fields);
    MergeCases(groups[i], b, policy, prefer, fields);
    GroupProvenances(groups, b, i);
    hide *;
    FewerProvenances(AllProvenances(groups[i], b), AllProvenances(Concat(groups), b));
  }

  lemma AsRecordFields(plan: Plan, tag: Provenance, f: Field)
    ensures AsRecord(plan, tag).provenance == tag
    ensures TableOf(AsRecord(plan, tag), f) == PlanOf(plan, f)
  {
  }

  function PlanOf(plan: Plan, f: Field): Table {
    match f
    case Names => plan.names
    case Comments => plan.comments
    case Prototypes => plan.prototypes
  }

  lemma SameTablesByField(p: Plan, q: Plan)
    ensures SameTables(p, q) <==> forall f :: PlanOf(p, f) == PlanOf(q, f)
  {
    if forall f :: PlanOf(p, f) == PlanOf(q, f) {
      assert PlanOf(p, Names) == PlanOf(q, Names) && PlanOf(p, Comments) == PlanOf(q, Comments);
      assert PlanOf(p, Prototypes) == PlanOf(q, Prototypes);
    }
  }

  lemma PlanOfMerge(fs: set<Field>, b: Baselines, pairs: seq<Pair>, policy: Policy, prefer: Option<Session>, f: Field)
    ensures PlanOf(MergePlan(fs, b, pairs, policy, prefer), f)
         == if f in fs then PlanTable(f, b, pairs, policy, prefer) else map[]
  {
    MergePlanFields(fs, b, pairs, policy, prefer);
    hide MergePlan, PlanTable;
  }

  /** Merging the groups' plans goes through, and each field of it is the second merge of that field. */
  lemma GroupsMerge(groups: seq<seq<Pair>>, tops: seq<Pair>, b: Baselines, policy: Policy, prefer: Option<Session>,
                    fields: Option<seq<string>>, tag: Provenance)
    requires Merge(Concat(groups), b, policy, prefer, fields).Success?
    requires AreMerged(groups, tops, b, policy, prefer, fields, tag)
    ensures Selected(fields).Success?
    ensures forall i :: 0 <= i < |groups| ==> Merge(groups[i], b, policy, prefer, fields).Success?
    ensures var fs := Selected(fields).value;
      && Merge(Concat(groups), b, policy, prefer, fields) == Success(MergePlan(fs, b, Concat(groups), policy, prefer))
      && Merge(tops, NO_BASELINES, policy, prefer, fields) == Success(MergePlan(fs, NO_BASELINES, tops, policy, prefer))
      && forall f :: f in fs ==> AreSubTables(f, b, groups, tops, policy, prefer)
  {
    MergeCases(Concat(groups), b, policy, prefer, fields);
    MergeCases(tops, NO_BASELINES, policy, prefer, fields);
    hide Merge, MergePlan, Selected, AllProvenances, ProvenanceError, PlanTable, AsRecord, TableOf, Concat;
    var fs := Selected(fields).value;
    forall i | 0 <= i < |groups|
      ensures Merge(groups[i], b, policy, prefer, fields).Success? && tops[i].record.provenance == tag
      ensures forall f :: f in fs ==> TableOf(tops[i].record, f) == PlanTable(f, b, groups[i], policy, prefer)
    {
      GroupMerges(groups, b, policy, prefer, fields, i);
      var plan := MergePlan(fs, b, groups[i], policy, prefer);
      AsRecordFields(plan, tag, Names);
      forall f | f in fs ensures TableOf(tops[i].record, f) == PlanTable(f, b, groups[i], policy, prefer) {
        AsRecordFields(plan, tag, f);
        PlanOfMerge(fs, b, groups[i], policy, prefer, f);
      }
    }
    TaggedProvenance(tops, tag);
  }

  /**
    Hierarchical merging equals flat merging: under FIRST or LAST, merging any groups of records
    separately, turning each plan into a record and merging those gives the tables of the flat merge.
  */
  lemma HierarchicalIsFlat(groups: seq<seq<Pair>>, tops: seq<Pair>, b: Baselines, policy: Policy,
                           prefer: Option<Session>, fields: Option<seq<string>>, tag: Provenance)
    requires policy == First || policy == Last
    requires Merge(Concat(groups), b, policy, prefer, fields).Success?
    requires AreMerged(groups, tops, b, policy, prefer, fields, tag)
    ensures forall i :: 0 <= i < |groups| ==> Merge(groups[i], b, policy, prefer, fields).Success?
    ensures var top := Merge(tops, NO_BASELINES, policy, prefer, fields);
      top.Success? && SameTables(top.value, Merge(Concat(groups), b, policy, prefer, fields).value)
  {
    GroupsMerge(groups, tops, b, policy, prefer, fields, tag);
    var fs := Selected(fields).value;
    var flat, top := MergePlan(fs, b, Concat(groups), policy, prefer),
                     MergePlan(fs, NO_BASELINES, tops, policy, prefer);
    hide *;
    forall f ensures PlanOf(top, f) == PlanOf(flat, f) {
      PlanOfMerge(fs, b, Concat(groups), policy, prefer, f);
      PlanOfMerge(fs, NO_BASELINES, tops, policy, prefer, f);
      if f in fs {
        forall k { WinnerOfWinners(f, b, groups, tops, policy, prefer, k); }
        SameTable(f, NO_BASELINES, tops, policy, prefer, b, Concat(groups), policy, prefer);
      }
    }
    SameTablesByField(top, flat);
  }

  // ---------------------------------------------------------------- groups under MANUAL and PREFER

  ghost function Signatures(es: seq<Entry>): set<Signature> {
    set e | e in es :: e.signature
  }

  /** What the groups' contributions to one key say of all the contributions, under any policy. */
  ghost predicate Represent(ds: seq<Entry>, es: seq<Entry>, prefer: Option<Session>, policy: Policy) {
    && Signatures(ds) <= Signatures(es)
    && (Agree(es) ==> Signatures(ds) == Signatures(es))
    && (policy == Prefer && Preferred(es, prefer).Some? ==> Preferred(es, prefer).value in Signatures(ds))
  }

  predicate Agree(es: seq<Entry>) { es == [] || Unanimous(es) }

  lemma AgreeMeans(es: seq<Entry>)
    ensures Agree(es) <==> forall x, y :: x in Signatures(es) && y in Signatures(es) ==> x == y
    ensures es == [] <==> Signatures(es) == {}
    ensures es != [] ==> es[0].signature in Signatures(es)
  {
    if es != [] {
      assert es[0] in es;
      forall i | 0 <= i < |es| ensures es[i].signature in Signatures(es) { assert es[i] in es; }
    }
  }

  lemma SignaturesConcat(es: seq<Entry>, fs: seq<Entry>)
    ensures Signatures(es + fs) == Signatures(es) + Signatures(fs)
  {
    assert forall e :: e in es + fs <==> e in es || e in fs;
  }

  lemma {:induction false} PreferredConcat(es: seq<Entry>, fs: seq<Entry>, s: Option<Session>)
    ensures Preferred(es + fs, s) == if Preferred(es, s).Some? then Preferred(es, s) else Preferred(fs, s)
    decreases |es|
  {
    if es == [] {
      assert es + fs == fs;
    } else {
      assert (es + fs)[1..] == es[1..] + fs;
      PreferredConcat(es[1..], fs, s);
    }
  }

  /** One group's winner stands for the group. */
  lemma SubWinnerRepresents(es: seq<Entry>, sub: seq<Entry>, policy: Policy, prefer: Option<Session>)
    requires IsSubWinner(es, sub, policy, prefer)
    ensures Represent(sub, es, prefer, policy)
  {
    AgreeMeans(es);
    AgreeMeans(sub);
    if Planned(es, policy, prefer).Some? {
      PlannedIsContributed(es, policy, prefer);
      assert Signatures(sub) == {sub[0].signature};
    } else {
      assert Signatures(sub) == {};
    }
    if Preferred(es, prefer).Some? {
      PreferredIsContributed(es, prefer);
    }
  }

  lemma RepresentConcat(ds: seq<Entry>, es: seq<Entry>, sub: seq<Entry>, fs: seq<Entry>, prefer: Option<Session>,
                        policy: Policy)
    requires Represent(ds, es, prefer, policy) && Represent(sub, fs, prefer, policy)
    ensures Represent(ds + sub, es + fs, prefer, policy)
  {
    SignaturesConcat(es, fs);
    SignaturesConcat(ds, sub);
    PreferredConcat(es, fs, prefer);
    AgreeMeans(es);
    AgreeMeans(fs);
    AgreeMeans(es + fs);
    hide Agree, Signatures, Preferred;
  }

  lemma {:induction false} GroupsRepresent(f: Field, b: Baselines, groups: seq<seq<Pair>>, tops: seq<Pair>,
                                           policy: Policy, prefer: Option<Session>, k: Key)
    requires AreSubTables(f, b, groups, tops, policy, prefer)
    ensures Represent(Entries(f, NO_BASELINES, tops, k), Entries(f, b, Concat(groups), k), prefer, policy)
    decreases |groups|
  {
    if groups != [] {
      var n := |groups| - 1;
      OneMoreGroup(f, b, groups, tops, policy, prefer, k);
      hide *;
      GroupsRepresent(f, b, groups[..n], tops[..n], policy, prefer, k);
      SubWinnerRepresents(Entries(f, b, groups[n], k), EntryOf(f, NO_BASELINES, tops[n], k), policy, prefer);
      RepresentConcat(Entries(f, NO_BASELINES, tops[..n], k), Entries(f, b, Concat(groups[..n]), k),
                      EntryOf(f, NO_BASELINES, tops[n], k), Entries(f, b, groups[n], k), prefer, policy);
    }
  }

  lemma NobodyPreferred(f: Field, tops: seq<Pair>, prefer: Option<Session>, k: Key)
    requires forall p :: p in tops ==> Some(p.session) != prefer
    ensures Preferred(Entries(f, NO_BASELINES, tops, k), prefer) == None
  {
    var es := Entries(f, NO_BASELINES, tops, k);
    if Preferred(es, prefer).Some? {
      PreferredIsContributed(es, prefer);
      EntryMember(f, NO_BASELINES, tops, k, Entry(prefer.value, Preferred(es, prefer).value));
    }
  }

  /**
    What keeps merging in groups right at one key: if the sessions diverge on it, the policy settles
    them exactly if the groups' own plans agree.
  */
  ghost predicate SettledAlike(f: Field, b: Baselines, groups: seq<seq<Pair>>, tops: seq<Pair>, policy: Policy,
                               prefer: Option<Session>, k: Key) {
    var es := Entries(f, b, Concat(groups), k);
    Diverges(f, b, Concat(groups), k) ==>
      (policy == Prefer && Preferred(es, prefer).Some? <==> Unanimous(Entries(f, NO_BASELINES, tops, k)))
  }

  ghost predicate FieldSettledAlike(f: Field, b: Baselines, groups: seq<seq<Pair>>, tops: seq<Pair>, policy: Policy,
                                    prefer: Option<Session>) {
    forall k :: SettledAlike(f, b, groups, tops, policy, prefer, k)
  }

  lemma SamePlanIffSettledAlike(f: Field, b: Baselines, groups: seq<seq<Pair>>, tops: seq<Pair>, policy: Policy,
                                prefer: Option<Session>, k: Key)
    requires policy == Manual || policy == Prefer
    requires AreSubTables(f, b, groups, tops, policy, prefer)
    requires policy == Prefer ==> forall p :: p in tops ==> Some(p.session) != prefer
    ensures Planned(Entries(f, NO_BASELINES, tops, k), policy, prefer)
         == Planned(Entries(f, b, Concat(groups), k), policy, prefer)
      <==> SettledAlike(f, b, groups, tops, policy, prefer, k)
  {
    var es, ds := Entries(f, b, Concat(groups), k), Entries(f, NO_BASELINES, tops, k);
    GroupsRepresent(f, b, groups, tops, policy, prefer, k);
    if policy == Prefer { NobodyPreferred(f, tops, prefer, k); }
    AgreeMeans(es);
    AgreeMeans(ds);
    hide Entries, AreSubTables, Signatures, Preferred, Unanimous;
  }

  /**
    Under MANUAL or PREFER merging in groups gives the flat merge's tables exactly if every key is
    settled alike; under PREFER no group goes by the preferred session's id.
  */
  lemma HierarchicalIffSettledAlike(groups: seq<seq<Pair>>, tops: seq<Pair>, b: Baselines, policy: Policy,
                                    prefer: Option<Session>, fields: Option<seq<string>>, tag: Provenance)
    requires policy == Manual || policy == Prefer
    requires Merge(Concat(groups), b, policy, prefer, fields).Success?
    requires AreMerged(groups, tops, b, policy, prefer, fields, tag)
    requires policy == Prefer ==> forall p :: p in tops ==> Some(p.session) != prefer
    ensures Selected(fields).Success?
    ensures var top := Merge(tops, NO_BASELINES, policy, prefer, fields);
      && top.Success?
      && (SameTables(top.value, Merge(Concat(groups), b, policy, prefer, fields).value)
          <==> forall f :: f in Selected(fields).value ==> FieldSettledAlike(f, b, groups, tops, policy, prefer))
  {
    GroupsMerge(groups, tops, b, policy, prefer, fields, tag);
    var fs := Selected(fields).value;
    var flat, top := MergePlan(fs, b, Concat(groups), policy, prefer),
                     MergePlan(fs, NO_BASELINES, tops, policy, prefer);
    hide *;
    forall f
      ensures PlanOf(top, f) == PlanOf(flat, f)
        <==> (f in fs ==> FieldSettledAlike(f, b, groups, tops, policy, prefer))
    {
      PlanOfMerge(fs, b, Concat(groups), policy, prefer, f);
      PlanOfMerge(fs, NO_BASELINES, tops, policy, prefer, f);
      if f in fs {
        SameFieldIffSettledAlike(f, b, groups, tops, policy, prefer);
      }
    }
    SameTablesByField(top, flat);
  }

  lemma SameFieldIffSettledAlike(f: Field, b: Baselines, groups: seq<seq<Pair>>, tops: seq<Pair>, policy: Policy,
                                 prefer: Option<Session>)
    requires policy == Manual || policy == Prefer
    requires AreSubTables(f, b, groups, tops, policy, prefer)
    requires policy == Prefer ==> forall p :: p in tops ==> Some(p.session) != prefer
    ensures PlanTable(f, NO_BASELINES, tops, policy, prefer) == PlanTable(f, b, Concat(groups), policy, prefer)
      <==> FieldSettledAlike(f, b, groups, tops, policy, prefer)
  {
    hide PlanTable, Planned, Entries, SettledAlike, AreSubTables, Concat;
    var same := PlanTable(f, NO_BASELINES, tops, policy, prefer) == PlanTable(f, b, Concat(groups), policy, prefer);
    forall k
      ensures Planned(Entries(f, NO_BASELINES, tops, k), policy, prefer)
           == Planned(Entries(f, b, Concat(groups), k), policy, prefer)
        <==> SettledAlike(f, b, groups, tops, policy, prefer, k)
      ensures same ==> SettledAlike(f, b, groups, tops, policy, prefer, k)
    {
      SamePlanIffSettledAlike(f, b, groups, tops, policy, prefer, k);
      PlanTableAt(f, NO_BASELINES, tops, policy, prefer, k);
      PlanTableAt(f, b, Concat(groups), policy, prefer, k);
    }
    if forall k :: SettledAlike(f, b, groups, tops, policy, prefer, k) {
      SameTable(f, NO_BASELINES, tops, policy, prefer, b, Concat(groups), policy, prefer);
    }
  }

  // A record that names address 0 and nothing else.
  function OneName(session: Session, name: string): Pair {
    Pair(session, Record(NO_PROVENANCE, map[Ea(0) := Text(name)], map[], map[]))
  }

  const NO_PROVENANCE := Provenance("", None, None, None)

  lemma NameEntries(s: Session, name: string)
    requires name != ""
    ensures Entries(Names, NO_BASELINES, [OneName(s, name)], Ea(0)) == [Entry(s, Text(name))]
  {
    OneEntry(Names, NO_BASELINES, OneName(s, name), Ea(0));
  }

  lemma TwoGroups(xs: seq<Pair>, ys: seq<Pair>)
    ensures Concat([xs, ys]) == xs + ys
  {
    assert [xs, ys][..1] == [xs] && [xs][..0] == [];
    assert Concat([xs]) == Concat([]) + xs;
  }

  lemma TwoSubWinners(f: Field, xs: seq<Pair>, ys: seq<Pair>, tops: seq<Pair>, policy: Policy, prefer: Option<Session>,
                      k: Key)
    requires AreSubTables(f, NO_BASELINES, [xs, ys], tops, policy, prefer)
    ensures var x, y := EntryOf(f, NO_BASELINES, tops[0], k), EntryOf(f, NO_BASELINES, tops[1], k);
      && Entries(f, NO_BASELINES, tops, k) == x + y
      && IsSubWinner(Entries(f, NO_BASELINES, xs, k), x, policy, prefer)
      && IsSubWinner(Entries(f, NO_BASELINES, ys, k), y, policy, prefer)
  {
    SubWinner(f, NO_BASELINES, xs, policy, prefer, tops[0], k);
    SubWinner(f, NO_BASELINES, ys, policy, prefer, tops[1], k);
    assert tops == [tops[0]] + [tops[1]];
    EntriesConcat(f, NO_BASELINES, [tops[0]], [tops[1]], k);
    OneEntry(f, NO_BASELINES, tops[0], k);
    OneEntry(f, NO_BASELINES, tops[1], k);
  }

  lemma NamesMerge(pairs: seq<Pair>, policy: Policy, prefer: Option<Session>)
    requires forall i :: 0 <= i < |pairs| ==> pairs[i].record.provenance == NO_PROVENANCE
    ensures Selected(None) == Success({Names, Comments, Prototypes})
    ensures Merge(pairs, NO_BASELINES, policy, prefer, None).Success?
  {
    TaggedProvenance(pairs, NO_PROVENANCE);
    MergeCases(pairs, NO_BASELINES, policy, prefer, None);
    hide Merge, MergePlan, ProvenanceError, AllProvenances;
  }

  lemma NotSettledAlike(f: Field, b: Baselines, groups: seq<seq<Pair>>, tops: seq<Pair>, policy: Policy,
                        prefer: Option<Session>, k: Key, es: seq<Entry>, ds: seq<Entry>)
    requires es == Entries(f, b, Concat(groups), k) && ds == Entries(f, NO_BASELINES, tops, k)
    requires es != [] && !Unanimous(es)
    requires (policy == Prefer && Preferred(es, prefer).Some?) != Unanimous(ds)
    ensures !FieldSettledAlike(f, b, groups, tops, policy, prefer)
  {
    assert !SettledAlike(f, b, groups, tops, policy, prefer, k);
  }

  /** Under PREFER the preferred session loses its say when it is merged in a group of its own. */
  lemma PreferredCanBeLost(x: Session, y: Session, tops: seq<Pair>, tag: Provenance)
    requires AreMerged([[OneName(x, "a")], [OneName(y, "b")]], tops, NO_BASELINES, Prefer, Some(x), None, tag)
    requires forall p :: p in tops ==> Some(p.session) != Some(x)
    ensures var top := Merge(tops, NO_BASELINES, Prefer, Some(x), None);
      var flat := Merge([OneName(x, "a")] + [OneName(y, "b")], NO_BASELINES, Prefer, Some(x), None);
      top.Success? && flat.Success? && !SameTables(top.value, flat.value)
  {
    var xs, ys := [OneName(x, "a")], [OneName(y, "b")];
    var a, c := [Entry(x, Text("a"))], [Entry(y, Text("b"))];
    NamesMerge(xs + ys, Prefer, Some(x)) by {
      assert OneName(x, "a").record.provenance == OneName(y, "b").record.provenance;
    }
    hide *;
    NameEntries(x, "a");
    NameEntries(y, "b");
    Preferring(a[0], c[0]);
    TwoGroups(xs, ys);
    GroupsMerge([xs, ys], tops, NO_BASELINES, Prefer, Some(x), None, tag);
    EntriesConcat(Names, NO_BASELINES, xs, ys, Ea(0));
    TwoSubWinners(Names, xs, ys, tops, Prefer, Some(x), Ea(0));
    var s, t := EntryOf(Names, NO_BASELINES, tops[0], Ea(0)), EntryOf(Names, NO_BASELINES, tops[1], Ea(0));
    TwoSides(a, c, s, t, Prefer, Some(x));
    NotSettledAlike(Names, NO_BASELINES, [xs, ys], tops, Prefer, Some(x), Ea(0), a + c, s + t);
    HierarchicalIffSettledAlike([xs, ys], tops, NO_BASELINES, Prefer, Some(x), None, tag);
  }

  /** Under MANUAL a conflict left open in one group no longer stands against the other group's edit. */
  lemma OpenConflictCanBeLost(x: Session, y: Session, z: Session, tops: seq<Pair>, tag: Provenance)
    requires AreMerged([[OneName(x, "a")] + [OneName(y, "b")], [OneName(z, "c")]], tops, NO_BASELINES, Manual, None,
                       None, tag)
    ensures var top := Merge(tops, NO_BASELINES, Manual, None, None);
      var flat := Merge([OneName(x, "a")] + [OneName(y, "b")] + [OneName(z, "c")], NO_BASELINES, Manual, None, None);
      top.Success? && flat.Success? && !SameTables(top.value, flat.value)
  {
    var xs, ys := [OneName(x, "a")] + [OneName(y, "b")], [OneName(z, "c")];
    var a, c := [Entry(x, Text("a"))] + [Entry(y, Text("b"))], [Entry(z, Text("c"))];
    NamesMerge(xs + ys, Manual, None) by {
      assert OneName(x, "a").record.provenance == OneName(y, "b").record.provenance
        == OneName(z, "c").record.provenance;
    }
    hide *;
    NameEntries(x, "a");
    NameEntries(y, "b");
    NameEntries(z, "c");
    LeavingOpen(Entry(x, Text("a")), Entry(y, Text("b")), Entry(z, Text("c")));
    TwoGroups(xs, ys);
    GroupsMerge([xs, ys], tops, NO_BASELINES, Manual, None, None, tag);
    EntriesConcat(Names, NO_BASELINES, [OneName(x, "a")], [OneName(y, "b")], Ea(0));
    EntriesConcat(Names, NO_BASELINES, xs, ys, Ea(0));
    TwoSubWinners(Names, xs, ys, tops, Manual, None, Ea(0));
    var s, t := EntryOf(Names, NO_BASELINES, tops[0], Ea(0)), EntryOf(Names, NO_BASELINES, tops[1], Ea(0));
    TwoSides(a, c, s, t, Manual, None);
    NotSettledAlike(Names, NO_BASELINES, [xs, ys], tops, Manual, None, Ea(0), a + c, s + t);
    HierarchicalIffSettledAlike([xs, ys], tops, NO_BASELINES, Manual, None, None, tag);
  }

  lemma TwoSides(es: seq<Entry>, fs: seq<Entry>, s: seq<Entry>, t: seq<Entry>, policy: Policy, prefer: Option<Session>)
    requires IsSubWinner(es, s, policy, prefer) && IsSubWinner(fs, t, policy, prefer)
    requires Planned(fs, policy, prefer).Some?
    ensures Unanimous(s + t) <==> Planned(es, policy, prefer) in {None, Planned(fs, policy, prefer)}
  {
    if s == [] {
      assert s + t == t;
    } else {
      assert (s + t)[0] == s[0] && (s + t)[1] == t[0];
    }
    hide Planned;
  }

  lemma Preferring(e: Entry, d: Entry)
    requires e.signature != d.signature
    ensures Planned([e], Prefer, Some(e.session)) == Some(e.signature)
    ensures Planned([d], Prefer, Some(e.session)) == Some(d.signature)
    ensures Preferred([e] + [d], Some(e.session)).Some? && !Unanimous([e] + [d])
  {
    assert ([e] + [d])[0] == e && ([e] + [d])[1] == d;
  }

  lemma LeavingOpen(e: Entry, d: Entry, last: Entry)
    requires e.signature != d.signature
    ensures Planned([e] + [d], Manual, None) == None && Planned([last], Manual, None) == Some(last.signature)
    ensures !Unanimous([e] + [d] + [last])
  {
    assert ([e] + [d])[0] == e && ([e] + [d])[1] == d;
    assert ([e] + [d] + [last])[0] == e && ([e] + [d] + [last])[1] == d;
  }

  // ---------------------------------------------------------------- when a merge is refused

  lemma {:induction false} MoreThanOne<T>(s: set<T>)
    ensures |s| > 1 <==> exists x, y :: x in s && y in s && x != y
  {
    if |s| > 1 {
      var x :| x in s;
      assert |s - {x}| > 0;
      var y :| y in s - {x};
    }
    if x, y :| x in s && y in s && x != y {
      SmallerSet({x, y}, s);
    }
  }

  /** Two records, or a record and a baseline, were taken from different files. */
  ghost predicate HashesDiffer(ps: set<Provenance>) {
    exists p, q :: p in ps && q in ps && p.sha256.Some? && q.sha256.Some? && p.sha256 != q.sha256
  }

  /** Two of them were taken at different load addresses. */
  ghost predicate BasesDiffer(ps: set<Provenance>) {
    exists p, q :: p in ps && q in ps && p.imagebase.Some? && q.imagebase.Some? && p.imagebase != q.imagebase
  }

  lemma HashGate(ps: set<Provenance>)
    ensures |ShaValues(ps)| > 1 <==> HashesDiffer(ps)
  {
    MoreThanOne(ShaValues(ps));
    if x, y :| x in ShaValues(ps) && y in ShaValues(ps) && x != y {
      var p :| p in ps && p.sha256 == Some(x);
      var q :| q in ps && q.sha256 == Some(y);
    }
    if p, q :| p in ps && q in ps && p.sha256.Some? && q.sha256.Some? && p.sha256 != q.sha256 {
      assert p.sha256.value in ShaValues(ps) && q.sha256.value in ShaValues(ps);
    }
  }

  lemma BaseGate(ps: set<Provenance>)
    ensures |Imagebases(ps)| > 1 <==> BasesDiffer(ps)
  {
    MoreThanOne(Imagebases(ps));
    if x, y :| x in Imagebases(ps) && y in Imagebases(ps) && x != y {
      var p :| p in ps && p.imagebase == Some(x);
      var q :| q in ps && q.imagebase == Some(y);
    }
    if p, q :| p in ps && q in ps && p.imagebase.Some? && q.imagebase.Some? && p.imagebase != q.imagebase {
      assert p.imagebase.value in Imagebases(ps) && q.imagebase.value in Imagebases(ps);
    }
  }

  /** Name `i` of the selection is no field, and every name before it is one. */
  predicate IsFirstUnknown(names: seq<string>, i: nat) {
    i < |names| && FieldNamed(names[i]) == None && forall j :: 0 <= j < i ==> FieldNamed(names[j]).Some?
  }

  lemma {:induction false} SelectionFailsAtFirst(names: seq<string>)
    ensures SelectedFields(names).Failure? <==> exists i :: 0 <= i < |names| && FieldNamed(names[i]) == None
    ensures forall i: nat :: IsFirstUnknown(names, i) ==> SelectedFields(names) == Failure(UnknownField(names[i]))
  {
    if names != [] {
      var init, last := names[..|names| - 1], |names| - 1;
      SelectionFailsAtFirst(init);
      assert forall j :: 0 <= j < last ==> init[j] == names[j];
      forall i: nat | IsFirstUnknown(names, i) ensures SelectedFields(names) == Failure(UnknownField(names[i])) {
        assert i < last ==> IsFirstUnknown(init, i);
      }
    }
  }

  /**
    A merge is refused for an unknown field name, the first one; failing that for two different file
    hashes; failing that for two different load addresses; and for nothing else.
  */
  lemma RefusedIff(pairs: seq<Pair>, b: Baselines, policy: Policy, prefer: Option<Session>, fields: Option<seq<string>>)
    ensures var r, ps := Merge(pairs, b, policy, prefer, fields), AllProvenances(pairs, b);
      var known := fields.Some? ==> forall i :: 0 <= i < |fields.value| ==> FieldNamed(fields.value[i]).Some?;
      && (r.Success? <==> known && !HashesDiffer(ps) && !BasesDiffer(ps))
      && (fields.Some? ==> forall i: nat :: IsFirstUnknown(fields.value, i) ==>
            r == Failure(UnknownField(fields.value[i])))
      && (r == Failure(ShaMismatch) <==> known && HashesDiffer(ps))
      && (r == Failure(ImagebaseMismatch) <==> known && !HashesDiffer(ps) && BasesDiffer(ps))
  {
    var ps := AllProvenances(pairs, b);
    MergeCases(pairs, b, policy, prefer, fields);
    HashGate(ps);
    BaseGate(ps);
    if fields.Some? {
      SelectionFailsAtFirst(fields.value);
      SelectionError(fields.value);
    }
    hide Merge, MergePlan, AllProvenances, ShaValues, Imagebases, HashesDiffer, BasesDiffer, SelectedFields, FieldNamed;
  }

  lemma {:induction false} SelectionError(names: seq<string>)
    ensures SelectedFields(names).Failure? ==> SelectedFields(names).error.UnknownField?
  {
    if names != [] { SelectionError(names[..|names| - 1]); }
  }

  // ---------------------------------------------------------------- re-merging

  lemma RemergeField(fs: set<Field>, f: Field, b: Baselines, pairs: seq<Pair>, policy: Policy, prefer: Option<Session>,
                     x: Pair, policy': Policy, prefer': Option<Session>)
    requires TableOf(x.record, f) == SelectedTable(fs, f, b, pairs, policy, prefer)
    ensures SelectedTable(fs, f, NO_BASELINES, [x], policy', prefer') == TableOf(x.record, f)
    ensures SelectedConflicts(fs, f, NO_BASELINES, [x], policy', prefer') == []
  {
    if f in fs {
      var table := TableOf(x.record, f);
      forall k ensures Entries(f, NO_BASELINES, [x], k) == if k in table then [Entry(x.session, table[k])] else [] {
        RemergeEntries(f, b, pairs, policy, prefer, x, k);
      }
      assert Repeats(f, x);
      hide Entries, PlanTable, FieldConflicts;
      RemergeTable(f, x, policy', prefer');
    }
  }

  lemma RemergeEntries(f: Field, b: Baselines, pairs: seq<Pair>, policy: Policy, prefer: Option<Session>, x: Pair,
                       k: Key)
    requires TableOf(x.record, f) == PlanTable(f, b, pairs, policy, prefer)
    ensures var table := TableOf(x.record, f);
      Entries(f, NO_BASELINES, [x], k) == if k in table then [Entry(x.session, table[k])] else []
  {
    var table := TableOf(x.record, f);
    PlanTableAt(f, b, pairs, policy, prefer, k);
    if k in table { PlannedIsAnEdit(f, b, pairs, k, policy, prefer); }
    MergedContributes(f, table, x.session, x.record, k);
    OneEntry(f, NO_BASELINES, x, k);
    hide *;
  }

  /** Merged again alone, a merged record contributes its own table and nothing else. */
  ghost predicate Repeats(f: Field, x: Pair) {
    forall k :: Entries(f, NO_BASELINES, [x], k)
             == if k in TableOf(x.record, f) then [Entry(x.session, TableOf(x.record, f)[k])] else []
  }

  lemma RemergeAt(f: Field, x: Pair, policy: Policy, prefer: Option<Session>, k: Key)
    requires Repeats(f, x)
    ensures k in PlanTable(f, NO_BASELINES, [x], policy, prefer) <==> k in TableOf(x.record, f)
    ensures k in TableOf(x.record, f) ==> PlanTable(f, NO_BASELINES, [x], policy, prefer)[k] == TableOf(x.record, f)[k]
    ensures !Diverges(f, NO_BASELINES, [x], k)
  {
    PlanTableAt(f, NO_BASELINES, [x], policy, prefer, k);
    assert Entries(f, NO_BASELINES, [x], k)
        == if k in TableOf(x.record, f) then [Entry(x.session, TableOf(x.record, f)[k])] else [];
    hide PlanTable, Entries, Repeats;
  }

  lemma RemergeTable(f: Field, x: Pair, policy: Policy, prefer: Option<Session>)
    requires Repeats(f, x)
    ensures PlanTable(f, NO_BASELINES, [x], policy, prefer) == TableOf(x.record, f)
    ensures FieldConflicts(f, NO_BASELINES, [x], policy, prefer) == []
  {
    hide *;
    var again, table := PlanTable(f, NO_BASELINES, [x], policy, prefer), TableOf(x.record, f);
    forall k ensures (k in again <==> k in table) && (k in table ==> again[k] == table[k])
      && !Diverges(f, NO_BASELINES, [x], k) {
      RemergeAt(f, x, policy, prefer, k);
    }
    NoDivergenceNoConflicts(f, NO_BASELINES, [x], policy, prefer, SortedKeys(CandidateKeys(f, NO_BASELINES, [x])));
    ConflictsAreListed(f, NO_BASELINES, [x], policy, prefer);
  }

  lemma ConflictsAreListed(f: Field, b: Baselines, pairs: seq<Pair>, policy: Policy, prefer: Option<Session>)
    ensures FieldConflicts(f, b, pairs, policy, prefer)
         == ConflictList(f, b, pairs, policy, prefer, SortedKeys(CandidateKeys(f, b, pairs)))
  {
  }

  lemma {:induction false} NoDivergenceNoConflicts(f: Field, b: Baselines, pairs: seq<Pair>, policy: Policy,
                                                   prefer: Option<Session>, keys: seq<Key>)
    requires forall k :: !Diverges(f, b, pairs, k)
    ensures ConflictList(f, b, pairs, policy, prefer, keys) == []
  {
    if keys != [] {
      NoDivergenceNoConflicts(f, b, pairs, policy, prefer, keys[..|keys| - 1]);
      assert !Diverges(f, b, pairs, keys[|keys| - 1]);
    }
  }

  /** Merging a merged record alone, under any policy, reproduces it with no conflicts. */
  lemma RemergeIsIdentity(pairs: seq<Pair>, b: Baselines, policy: Policy, prefer: Option<Session>,
                          fields: Option<seq<string>>, x: Session, tag: Provenance, policy': Policy,
                          prefer': Option<Session>)
    requires Merge(pairs, b, policy, prefer, fields).Success?
    ensures var plan := Merge(pairs, b, policy, prefer, fields).value;
      Merge([Pair(x, AsRecord(plan, tag))], NO_BASELINES, policy', prefer', fields)
      == Success(Plan(plan.names, plan.comments, plan.prototypes, []))
  {
    MergeCases(pairs, b, policy, prefer, fields);
    hide *;
    var fs := Selected(fields).value;
    var plan := MergePlan(fs, b, pairs, policy, prefer);
    var p := Pair(x, AsRecord(plan, tag));
    TaggedProvenance([p], tag) by { AsRecordFields(plan, tag, Names); }
    MergeCases([p], NO_BASELINES, policy', prefer', fields);
    RemergeFields(fs, b, pairs, policy, prefer, p, tag, policy', prefer');
  }

  lemma RemergeFields(fs: set<Field>, b: Baselines, pairs: seq<Pair>, policy: Policy, prefer: Option<Session>, p: Pair,
                      tag: Provenance, policy': Policy, prefer': Option<Session>)
    requires p.record == AsRecord(MergePlan(fs, b, pairs, policy, prefer), tag)
    ensures var plan := MergePlan(fs, b, pairs, policy, prefer);
      MergePlan(fs, NO_BASELINES, [p], policy', prefer') == Plan(plan.names, plan.comments, plan.prototypes, [])
  {
    MergePlanFields(fs, b, pairs, policy, prefer);
    MergePlanFields(fs, NO_BASELINES, [p], policy', prefer');
    hide SelectedTable, SelectedConflicts, MergePlan;
    RemergeField(fs, Names, b, pairs, policy, prefer, p, policy', prefer');
    RemergeField(fs, Comments, b, pairs, policy, prefer, p, policy', prefer');
    RemergeField(fs, Prototypes, b, pairs, policy, prefer, p, policy', prefer');
  }

  // ---------------------------------------------------------------- what becomes of an edit

  function ConflictAt(f: Field, b: Baselines, pairs: seq<Pair>, policy: Policy, prefer: Option<Session>,
                      k: Key): Conflict
    requires Entries(f, b, pairs, k) != []
  {
    var es := Entries(f, b, pairs, k);
    Conflict(f, k, CandidateMap(es), Resolve(es, policy, prefer))
  }

  ghost predicate IsConflict(f: Field, b: Baselines, pairs: seq<Pair>, policy: Policy, prefer: Option<Session>,
                             c: Conflict) {
    Diverges(f, b, pairs, c.key) && c == ConflictAt(f, b, pairs, policy, prefer, c.key)
  }

  /** Exactly one conflict for each diverging key of `keys`, in ascending key order. */
  ghost predicate IsConflictList(f: Field, b: Baselines, pairs: seq<Pair>, policy: Policy, prefer: Option<Session>,
                                 keys: seq<Key>, cs: seq<Conflict>) {
    && (forall k :: k in keys && Diverges(f, b, pairs, k) ==> ConflictAt(f, b, pairs, policy, prefer, k) in cs)
    && (forall c :: c in cs ==> c.key in keys && IsConflict(f, b, pairs, policy, prefer, c))
    && (forall i, j :: 0 <= i < j < |cs| ==> KeyLess(cs[i].key, cs[j].key))
  }

  lemma {:induction false} ConflictListIsExact(f: Field, b: Baselines, pairs: seq<Pair>, policy: Policy,
                                               prefer: Option<Session>, keys: seq<Key>)
    requires forall i, j :: 0 <= i < j < |keys| ==> KeyLess(keys[i], keys[j])
    ensures IsConflictList(f, b, pairs, policy, prefer, keys, ConflictList(f, b, pairs, policy, prefer, keys))
  {
    hide *;
    if keys == [] {
      NoConflictsYet(f, b, pairs, policy, prefer);
    } else {
      var init, k := keys[..|keys| - 1], keys[|keys| - 1];
      var before := ConflictList(f, b, pairs, policy, prefer, init);
      ConflictListStep(f, b, pairs, policy, prefer, init, k);
      ConflictListIsExact(f, b, pairs, policy, prefer, init);
      assert keys == init + [k];
      LastKeyIsGreatest(init, k);
      if Diverges(f, b, pairs, k) {
        ConflictListGrows(f, b, pairs, policy, prefer, init, k, before);
      } else {
        ConflictListStays(f, b, pairs, policy, prefer, init, k, before);
      }
    }
  }

  lemma NoConflictsYet(f: Field, b: Baselines, pairs: seq<Pair>, policy: Policy, prefer: Option<Session>)
    ensures IsConflictList(f, b, pairs, policy, prefer, [], ConflictList(f, b, pairs, policy, prefer, []))
  {
    hide Diverges, IsConflict, ConflictAt, Entries, KeyLess;
  }

  lemma LastKeyIsGreatest(init: seq<Key>, k: Key)
    requires var keys := init + [k]; forall i, j :: 0 <= i < j < |keys| ==> KeyLess(keys[i], keys[j])
    ensures forall x :: x in init ==> KeyLess(x, k)
  {
    hide *;
    forall x | x in init ensures KeyLess(x, k) {
      var m :| 0 <= m < |init| && init[m] == x;
      assert (init + [k])[m] == x && (init + [k])[|init|] == k;
    }
  }

  lemma ConflictListStep(f: Field, b: Baselines, pairs: seq<Pair>, policy: Policy, prefer: Option<Session>,
                         init: seq<Key>, k: Key)
    ensures var before, after := ConflictList(f, b, pairs, policy, prefer, init),
                                 ConflictList(f, b, pairs, policy, prefer, init + [k]);
      && (Diverges(f, b, pairs, k) ==>
            Entries(f, b, pairs, k) != [] && after == before + [ConflictAt(f, b, pairs, policy, prefer, k)])
      && (!Diverges(f, b, pairs, k) ==> after == before)
  {
    assert (init + [k])[..|init|] == init;
    hide Unanimous, CandidateMap, Resolve, Entries;
  }

  lemma ConflictListGrows(f: Field, b: Baselines, pairs: seq<Pair>, policy: Policy, prefer: Option<Session>,
                          keys: seq<Key>, k: Key, cs: seq<Conflict>)
    requires IsConflictList(f, b, pairs, policy, prefer, keys, cs) && Diverges(f, b, pairs, k)
    requires forall x :: x in keys ==> KeyLess(x, k)
    ensures IsConflictList(f, b, pairs, policy, prefer, keys + [k], cs + [ConflictAt(f, b, pairs, policy, prefer, k)])
  {
    ConflictAtDivergence(f, b, pairs, policy, prefer, k);
    hide Diverges, IsConflict, ConflictAt, KeyLess;
    LastConflictIsGreatest(cs, ConflictAt(f, b, pairs, policy, prefer, k), keys);
  }

  lemma ConflictAtDivergence(f: Field, b: Baselines, pairs: seq<Pair>, policy: Policy, prefer: Option<Session>, k: Key)
    requires Diverges(f, b, pairs, k)
    ensures Entries(f, b, pairs, k) != []
    ensures ConflictAt(f, b, pairs, policy, prefer, k).key == k
      && IsConflict(f, b, pairs, policy, prefer, ConflictAt(f, b, pairs, policy, prefer, k))
  {
    hide Unanimous, Entries, CandidateMap, Resolve;
  }

  lemma ConflictListStays(f: Field, b: Baselines, pairs: seq<Pair>, policy: Policy, prefer: Option<Session>,
                          keys: seq<Key>, k: Key, cs: seq<Conflict>)
    requires IsConflictList(f, b, pairs, policy, prefer, keys, cs) && !Diverges(f, b, pairs, k)
    ensures IsConflictList(f, b, pairs, policy, prefer, keys + [k], cs)
  {
    hide Diverges, IsConflict, ConflictAt, KeyLess;
  }

  lemma LastConflictIsGreatest(cs: seq<Conflict>, last: Conflict, keys: seq<Key>)
    requires forall c :: c in cs ==> c.key in keys
    requires forall i, j :: 0 <= i < j < |cs| ==> KeyLess(cs[i].key, cs[j].key)
    requires forall x :: x in keys ==> KeyLess(x, last.key)
    ensures var cs' := cs + [last]; forall i, j :: 0 <= i < j < |cs'| ==> KeyLess(cs'[i].key, cs'[j].key)
  {
    hide *;
    forall i | 0 <= i < |cs| ensures KeyLess(cs[i].key, last.key) {
      assert cs[i] in cs;
    }
  }

  ghost predicate UnresolvedAt(cs: seq<Conflict>, k: Key) {
    exists c :: c in cs && c.key == k && c.resolved == None
  }

  /**
    Every key with a genuine edit ends up in the plan or in an unresolved conflict, never in both;
    nothing else does; and what the plan says is some session's own edit.
  */
  lemma EveryEditIsSettled(f: Field, b: Baselines, pairs: seq<Pair>, policy: Policy, prefer: Option<Session>, k: Key)
    ensures var plan, cs := PlanTable(f, b, pairs, policy, prefer), FieldConflicts(f, b, pairs, policy, prefer);
      && ((exists p :: p in pairs && IsEdit(f, b, p, k)) <==> k in plan || UnresolvedAt(cs, k))
      && !(k in plan && UnresolvedAt(cs, k))
      && (k in plan ==> exists p :: p in pairs && Contributes(f, b, p, k, Entry(p.session, plan[k])))
  {
    var es := Entries(f, b, pairs, k);
    var plan, cs := PlanTable(f, b, pairs, policy, prefer), FieldConflicts(f, b, pairs, policy, prefer);
    PlanTableAt(f, b, pairs, policy, prefer, k);
    CandidatesHaveEntries(f, b, pairs, k);
    ConflictListIsExact(f, b, pairs, policy, prefer, SortedKeys(CandidateKeys(f, b, pairs)));
    if k in plan { PlannedIsAnEdit(f, b, pairs, k, policy, prefer); }
    SomebodyEdits(f, b, pairs, k);
    UnresolvedIffUnplanned(f, b, pairs, policy, prefer, k, cs) by {
      hide SortedKeys, CandidateKeys, Entries, Unanimous, Resolve, PlanTable, KeyLess;
    }
    hide *;
  }

  lemma SomebodyEdits(f: Field, b: Baselines, pairs: seq<Pair>, k: Key)
    ensures Entries(f, b, pairs, k) != [] <==> exists p :: p in pairs && IsEdit(f, b, p, k)
  {
    var es := Entries(f, b, pairs, k);
    if es != [] {
      EntryMember(f, b, pairs, k, es[0]);
    }
    if p :| p in pairs && IsEdit(f, b, p, k) {
      EntryMember(f, b, pairs, k, Entry(p.session, TableOf(p.record, f)[k]));
      assert Contributes(f, b, p, k, Entry(p.session, TableOf(p.record, f)[k]));
    }
  }

  lemma UnresolvedIffUnplanned(f: Field, b: Baselines, pairs: seq<Pair>, policy: Policy, prefer: Option<Session>,
                               k: Key, cs: seq<Conflict>)
    requires Diverges(f, b, pairs, k) ==> ConflictAt(f, b, pairs, policy, prefer, k) in cs
    requires forall c :: c in cs ==> IsConflict(f, b, pairs, policy, prefer, c)
    ensures UnresolvedAt(cs, k)
      <==> Entries(f, b, pairs, k) != [] && Planned(Entries(f, b, pairs, k), policy, prefer) == None
  {
    hide Entries, Unanimous, Resolve, CandidateMap;
    if Diverges(f, b, pairs, k) {
      assert ConflictAt(f, b, pairs, policy, prefer, k).key == k;
    }
  }

  // ---------------------------------------------------------------- order of the records

  ghost predicate DistinctSessions(pairs: seq<Pair>) {
    forall i, j :: 0 <= i < j < |pairs| ==> pairs[i].session != pairs[j].session
  }

  ghost predicate SameElements<T(!new)>(xs: seq<T>, ys: seq<T>) {
    forall x :: x in xs <==> x in ys
  }

  /** No session contributes twice. */
  ghost predicate OneEach(es: seq<Entry>) {
    forall x, y :: x in es && y in es && x.session == y.session ==> x == y
  }

  lemma EntriesOneEach(f: Field, b: Baselines, pairs: seq<Pair>, k: Key)
    requires DistinctSessions(pairs)
    ensures OneEach(Entries(f, b, pairs, k))
  {
    var es := Entries(f, b, pairs, k);
    forall x, y | x in es && y in es && x.session == y.session ensures x == y {
      EntryMember(f, b, pairs, k, x);
      EntryMember(f, b, pairs, k, y);
      var p :| p in pairs && Contributes(f, b, p, k, x);
      var q :| q in pairs && Contributes(f, b, q, k, y);
      assert p == q by {
        var i :| 0 <= i < |pairs| && pairs[i] == p;
        var j :| 0 <= j < |pairs| && pairs[j] == q;
        assert i == j;
      }
    }
  }

  lemma SamePairsSameEntries(f: Field, b: Baselines, xs: seq<Pair>, ys: seq<Pair>, k: Key)
    requires SameElements(xs, ys)
    ensures SameElements(Entries(f, b, xs, k), Entries(f, b, ys, k))
  {
    forall e ensures e in Entries(f, b, xs, k) <==> e in Entries(f, b, ys, k) {
      EntryMember(f, b, xs, k, e);
      EntryMember(f, b, ys, k, e);
      hide Entries;
    }
  }

  lemma SameUnanimous(es: seq<Entry>, fs: seq<Entry>)
    requires SameElements(es, fs)
    ensures Unanimous(es) == Unanimous(fs)
    ensures es == [] <==> fs == []
    ensures Unanimous(es) ==> es[0].signature == fs[0].signature
  {
    assert es != [] ==> es[0] in es;
    assert fs != [] ==> fs[0] in fs;
    assert Unanimous(es) <==> es != [] && forall x, y :: x in es && y in es ==> x.signature == y.signature;
    assert Unanimous(fs) <==> fs != [] && forall x, y :: x in fs && y in fs ==> x.signature == y.signature;
    hide Unanimous;
  }

  lemma {:induction false} PreferredIsMember(es: seq<Entry>, s: Option<Session>)
    requires OneEach(es)
    ensures Preferred(es, s).Some? <==> exists e :: e in es && Some(e.session) == s
    ensures forall e :: e in es && Some(e.session) == s ==> Preferred(es, s) == Some(e.signature)
    decreases |es|
  {
    if es != [] {
      assert es == [es[0]] + es[1..];
      if Some(es[0].session) != s {
        PreferredIsMember(es[1..], s);
      }
    }
  }

  lemma {:induction false} CandidateMapIsMember(es: seq<Entry>)
    requires OneEach(es)
    ensures forall s :: s in CandidateMap(es) <==> exists e :: e in es && e.session == s
    ensures forall e :: e in es ==> e.session in CandidateMap(es) && CandidateMap(es)[e.session] == e.signature
    decreases |es|
  {
    if es != [] {
      var init, last := es[..|es| - 1], es[|es| - 1];
      assert es == init + [last];
      CandidateMapIsMember(init);
      assert last in es;
    }
  }

  lemma SameCandidateMap(es: seq<Entry>, fs: seq<Entry>)
    requires SameElements(es, fs) && OneEach(es) && OneEach(fs)
    ensures CandidateMap(es) == CandidateMap(fs)
  {
    CandidateMapIsMember(es);
    CandidateMapIsMember(fs);
    hide CandidateMap;
  }

  /** MANUAL and PREFER look only at which contributions there are, not at their order. */
  lemma SamePlanned(es: seq<Entry>, fs: seq<Entry>, policy: Policy, prefer: Option<Session>)
    requires SameElements(es, fs) && OneEach(es) && OneEach(fs)
    requires policy == Manual || policy == Prefer
    ensures Planned(es, policy, prefer) == Planned(fs, policy, prefer)
    ensures es != [] ==> fs != [] && Resolve(es, policy, prefer) == Resolve(fs, policy, prefer)
  {
    SameUnanimous(es, fs);
    PreferredIsMember(es, prefer);
    PreferredIsMember(fs, prefer);
    assert Preferred(es, prefer) == Preferred(fs, prefer) by {
      if Preferred(es, prefer).Some? {
        var e :| e in es && Some(e.session) == prefer;
        assert e in fs;
      }
    }
    hide Preferred, Unanimous;
  }

  /** Two lists of records that diverge alike, key by key, give the same conflicts. */
  lemma {:induction false} SameConflicts(f: Field, b: Baselines, xs: seq<Pair>, ys: seq<Pair>, policy: Policy,
                                         policy': Policy, prefer: Option<Session>, keys: seq<Key>)
    requires forall k :: AlikeAt(f, b, xs, ys, policy, policy', prefer, k)
    ensures ConflictList(f, b, xs, policy, prefer, keys) == ConflictList(f, b, ys, policy', prefer, keys)
  {
    hide Entries, Unanimous, CandidateMap, Resolve;
    if keys != [] {
      SameConflicts(f, b, xs, ys, policy, policy', prefer, keys[..|keys| - 1]);
      assert AlikeAt(f, b, xs, ys, policy, policy', prefer, keys[|keys| - 1]);
    }
  }

  /** At this key the two lists give the same plan entry, candidates and resolution. */
  ghost predicate AlikeAt(f: Field, b: Baselines, xs: seq<Pair>, ys: seq<Pair>, policy: Policy, policy': Policy,
                          prefer: Option<Session>, k: Key) {
    var es, fs := Entries(f, b, xs, k), Entries(f, b, ys, k);
    && (es == [] <==> fs == [])
    && Unanimous(es) == Unanimous(fs)
    && Planned(es, policy, prefer) == Planned(fs, policy', prefer)
    && CandidateMap(es) == CandidateMap(fs)
    && (es != [] && fs != [] ==> Resolve(es, policy, prefer) == Resolve(fs, policy', prefer))
  }

  lemma SameMerge(xs: seq<Pair>, ys: seq<Pair>, b: Baselines, policy: Policy, policy': Policy, prefer: Option<Session>,
                  fields: Option<seq<string>>)
    requires AllProvenances(xs, b) == AllProvenances(ys, b)
    requires forall f, k :: AlikeAt(f, b, xs, ys, policy, policy', prefer, k)
    ensures Merge(xs, b, policy, prefer, fields) == Merge(ys, b, policy', prefer, fields)
  {
    hide *;
    MergeCases(xs, b, policy, prefer, fields);
    MergeCases(ys, b, policy', prefer, fields);
    forall fs ensures MergePlan(fs, b, xs, policy, prefer) == MergePlan(fs, b, ys, policy', prefer) {
      SamePlans(fs, xs, ys, b, policy, policy', prefer);
    }
  }

  lemma SamePlans(fs: set<Field>, xs: seq<Pair>, ys: seq<Pair>, b: Baselines, policy: Policy, policy': Policy,
                  prefer: Option<Session>)
    requires forall f, k :: AlikeAt(f, b, xs, ys, policy, policy', prefer, k)
    ensures MergePlan(fs, b, xs, policy, prefer) == MergePlan(fs, b, ys, policy', prefer)
  {
    hide PlanTable, FieldConflicts, AlikeAt;
    forall f ensures SelectedTable(fs, f, b, xs, policy, prefer) == SelectedTable(fs, f, b, ys, policy', prefer)
               && SelectedConflicts(fs, f, b, xs, policy, prefer) == SelectedConflicts(fs, f, b, ys, policy', prefer) {
      SameField(f, b, xs, ys, policy, policy', prefer);
    }
    hide SelectedTable, SelectedConflicts;
  }

  lemma SameField(f: Field, b: Baselines, xs: seq<Pair>, ys: seq<Pair>, policy: Policy, policy': Policy,
                  prefer: Option<Session>)
    requires forall f, k :: AlikeAt(f, b, xs, ys, policy, policy', prefer, k)
    ensures PlanTable(f, b, xs, policy, prefer) == PlanTable(f, b, ys, policy', prefer)
    ensures FieldConflicts(f, b, xs, policy, prefer) == FieldConflicts(f, b, ys, policy', prefer)
  {
    hide Entries, Planned, PlanTable, SortedKeys, CandidateMap, Resolve, Unanimous, ConflictList;
    forall k ensures Planned(Entries(f, b, xs, k), policy, prefer) == Planned(Entries(f, b, ys, k), policy', prefer) {
      assert AlikeAt(f, b, xs, ys, policy, policy', prefer, k);
    }
    SameTable(f, b, xs, policy, prefer, b, ys, policy', prefer);
    forall k ensures k in CandidateKeys(f, b, xs) <==> k in CandidateKeys(f, b, ys) {
      assert AlikeAt(f, b, xs, ys, policy, policy', prefer, k);
      CandidatesHaveEntries(f, b, xs, k);
      CandidatesHaveEntries(f, b, ys, k);
      hide CandidateKeys;
    }
    assert CandidateKeys(f, b, xs) == CandidateKeys(f, b, ys) by { hide CandidateKeys; }
    hide AlikeAt;
    SameConflicts(f, b, xs, ys, policy, policy', prefer, SortedKeys(CandidateKeys(f, b, xs)));
  }

  /** With distinct session ids, MANUAL and PREFER give one result for every order of the records. */
  lemma OrderDoesNotMatter(xs: seq<Pair>, ys: seq<Pair>, b: Baselines, policy: Policy, prefer: Option<Session>,
                           fields: Option<seq<string>>)
    requires policy == Manual || policy == Prefer
    requires SameElements(xs, ys) && DistinctSessions(xs) && DistinctSessions(ys)
    ensures Merge(xs, b, policy, prefer, fields) == Merge(ys, b, policy, prefer, fields)
  {
    forall f, k ensures AlikeAt(f, b, xs, ys, policy, policy, prefer, k) {
      var es, fs := Entries(f, b, xs, k), Entries(f, b, ys, k);
      SamePairsSameEntries(f, b, xs, ys, k);
      EntriesOneEach(f, b, xs, k);
      EntriesOneEach(f, b, ys, k);
      SameUnanimous(es, fs);
      SamePlanned(es, fs, policy, prefer);
      SameCandidateMap(es, fs);
      hide Entries, Unanimous, Planned, Resolve, CandidateMap, SameElements, OneEach;
    }
    assert AllProvenances(xs, b) == AllProvenances(ys, b);
    SameMerge(xs, ys, b, policy, policy, prefer, fields);
  }

  function Reversed<T>(s: seq<T>): seq<T> {
    if s == [] then [] else Reversed(s[1..]) + [s[0]]
  }

  lemma {:induction false} ReversedFacts<T(!new)>(s: seq<T>)
    ensures |Reversed(s)| == |s| && SameElements(s, Reversed(s))
    ensures forall i :: 0 <= i < |s| ==> Reversed(s)[i] == s[|s| - 1 - i]
    decreases |s|
  {
    if s != [] {
      ReversedFacts(s[1..]);
      assert s == [s[0]] + s[1..];
    }
  }

  lemma {:induction false} EntriesReversed(f: Field, b: Baselines, pairs: seq<Pair>, k: Key)
    ensures Entries(f, b, Reversed(pairs), k) == Reversed(Entries(f, b, pairs, k))
    decreases |pairs|
  {
    if pairs != [] {
      var rest := pairs[1..];
      EntriesReversed(f, b, rest, k);
      assert pairs == [pairs[0]] + rest;
      EntriesConcat(f, b, [pairs[0]], rest, k);
      EntriesConcat(f, b, Reversed(rest), [pairs[0]], k);
      OneEntry(f, b, pairs[0], k);
      assert Reversed(pairs) == Reversed(rest) + [pairs[0]];
      hide *;
      ReversedConcat(EntryOf(f, b, pairs[0], k), Entries(f, b, rest, k));
    }
  }

  lemma ReversedConcat(few: seq<Entry>, es: seq<Entry>)
    requires |few| <= 1
    ensures Reversed(few + es) == Reversed(es) + few
  {
    if few == [] {
      assert few + es == es && Reversed(es) + few == Reversed(es);
    } else {
      assert (few + es)[1..] == es;
    }
  }

  lemma OneEntry(f: Field, b: Baselines, p: Pair, k: Key)
    ensures Entries(f, b, [p], k) == EntryOf(f, b, p, k) && |EntryOf(f, b, p, k)| <= 1
  {
    assert Entries(f, b, [p], k) == Entries(f, b, [], k) + EntryOf(f, b, p, k);
  }

  /** With distinct session ids, FIRST on a list is LAST on its reverse, conflicts and all. */
  lemma FirstIsLastReversed(pairs: seq<Pair>, b: Baselines, prefer: Option<Session>, fields: Option<seq<string>>)
    requires DistinctSessions(pairs)
    ensures Merge(pairs, b, First, prefer, fields) == Merge(Reversed(pairs), b, Last, prefer, fields)
  {
    ReversedFacts(pairs);
    assert DistinctSessions(Reversed(pairs));
    forall f, k ensures AlikeAt(f, b, pairs, Reversed(pairs), First, Last, prefer, k) {
      var es := Entries(f, b, pairs, k);
      EntriesReversed(f, b, pairs, k);
      ReversedFacts(es);
      EntriesOneEach(f, b, pairs, k);
      EntriesOneEach(f, b, Reversed(pairs), k);
      SameUnanimous(es, Reversed(es));
      SameCandidateMap(es, Reversed(es));
      FirstOrLast(es, prefer);
      FirstOrLast(Reversed(es), prefer);
      hide Entries, Unanimous, Planned, CandidateMap, SameElements, OneEach, Reversed;
    }
    assert AllProvenances(pairs, b) == AllProvenances(Reversed(pairs), b);
    SameMerge(pairs, Reversed(pairs), b, First, Last, prefer, fields);
  }

  /** A session identical to its own baseline changes nothing, wherever it stands in the list. */
  lemma UnchangedSessionIsSilent(xs: seq<Pair>, p: Pair, ys: seq<Pair>, b: Baselines, policy: Policy,
                                 prefer: Option<Session>, fields: Option<seq<string>>)
    requires p.session in b.perSource && b.perSource[p.session] == p.record
    ensures Merge(xs + [p] + ys, b, policy, prefer, fields) == Merge(xs + ys, b, policy, prefer, fields)
  {
    hide *;
    forall f, k ensures AlikeAt(f, b, xs + [p] + ys, xs + ys, policy, policy, prefer, k) {
      SilentAt(f, b, xs, p, ys, policy, prefer, k);
    }
    SameProvenances(xs, p, ys, b);
    SameMerge(xs + [p] + ys, xs + ys, b, policy, policy, prefer, fields);
  }

  lemma SilentAt(f: Field, b: Baselines, xs: seq<Pair>, p: Pair, ys: seq<Pair>, policy: Policy,
                 prefer: Option<Session>, k: Key)
    requires p.session in b.perSource && b.perSource[p.session] == p.record
    ensures AlikeAt(f, b, xs + [p] + ys, xs + ys, policy, policy, prefer, k)
  {
    EntriesConcat(f, b, xs + [p], ys, k);
    EntriesConcat(f, b, xs, [p], k);
    EntriesConcat(f, b, xs, ys, k);
    OneEntry(f, b, p, k);
    assert EntryOf(f, b, p, k) == [];
    hide Entries, EntryOf, Unanimous, Planned, CandidateMap, Resolve;
    assert Entries(f, b, xs, k) + [] == Entries(f, b, xs, k);
  }

  lemma SameProvenances(xs: seq<Pair>, p: Pair, ys: seq<Pair>, b: Baselines)
    requires p.session in b.perSource && b.perSource[p.session] == p.record
    ensures AllProvenances(xs + [p] + ys, b) == AllProvenances(xs + ys, b)
  {
  }
}
