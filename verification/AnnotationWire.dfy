/**
  The wire form of an annotation record (src/idamesh/application/annotation_wire.py): a plain
  document of sorted entry lists, and the tolerant parser that reads one back.
*/
module AnnotationWire {
  import opened Common
  import opened Reconciliation
  import MergeLaws
  import Number
  import Strings

  /** What a document may hold where an integer belongs; missing and null read alike, and so do NaN and compounds. */
  datatype JsonNumber = Missing | Whole(n: int) | Truth | Fraction(x: real) | Infinite | Written(text: string)
    | Compound

  /** The integer read, if any: truth values and compounds are none, fractions are cut off, texts are parsed. */
  function OptInt(v: JsonNumber): Option<int> {
    match v
    case Whole(n) => Some(n)
    case Fraction(x) => Some(if x >= 0.0 then x.Floor else -((-x).Floor))
    case Written(text) => Number.ReadDecimal(Strings.Strip(text))
    case _ => None
  }

  function FromInt(n: Option<int>): JsonNumber {
    if n.Some? then Whole(n.value) else Missing
  }

  /**
    One list element.  `first` is the entry's name, type or regular comment, depending on the list it
    stands in; `second` is the repeatable comment.  Any field may be missing, and an element need not
    be an object at all.
  */
  datatype Item =
    | NotAnObject
    | Item(ea: JsonNumber, scope: Option<string>, first: Option<string>, second: Option<string>)

  /**
    What stands under "provenance": nothing or a value Python counts as false, an object, or a non-empty
    value of which `dict` makes no object, such as a number other than zero or a non-empty text.
  */
  datatype ProvenanceWire =
    | Blank
    | Given(inputPath: Option<string>, sha256: Option<string>, imagebase: JsonNumber, version: Option<string>)
    | NoObject

  // A list is None when the document has none under that name.
  datatype Wire = Wire(provenance: ProvenanceWire, names: Option<seq<Item>>, comments: Option<seq<Item>>,
                       prototypes: Option<seq<Item>>)

  // An infinite number where an integer belongs, or a provenance that is no object.
  datatype WireError = Overflow | NoDictionary

  function OrEmpty(s: Option<string>): string {
    if s.Some? then s.value else ""
  }

  predicate KeyFits(f: Field, k: Key) { if f == Comments then k.Scoped? else k.Ea? }

  predicate SignatureFits(f: Field, s: Signature) { if f == Comments then s.CommentPair? else s.Text? }

  /** The key and signature conventions of the domain record. */
  predicate TableFits(f: Field, t: Table) {
    forall k :: k in t ==> KeyFits(f, k) && SignatureFits(f, t[k])
  }

  predicate WellShaped(r: Record) {
    TableFits(Names, r.names) && TableFits(Comments, r.comments) && TableFits(Prototypes, r.prototypes)
  }

  // ---------------------------------------------------------------- entries

  function ToItem(f: Field, k: Key, s: Signature): Item
    requires KeyFits(f, k) && SignatureFits(f, s)
  {
    if f == Comments then Item(Whole(k.ea), Some(k.scope), Some(s.regular), Some(s.repeatable))
    else Item(Whole(k.ea), None, Some(s.text), None)
  }

  /** The key an element is filed under; malformed elements have none. */
  function ItemKey(f: Field, i: Item): Option<Key> {
    if i.NotAnObject? || OptInt(i.ea) == None then None
    else if f == Comments then Some(Scoped(OptInt(i.ea).value, OrEmpty(i.scope)))
    else Some(Ea(OptInt(i.ea).value))
  }

  function ItemSignature(f: Field, i: Item): Signature
    requires i.Item?
  {
    if f == Comments then CommentPair(OrEmpty(i.first), OrEmpty(i.second)) else Text(OrEmpty(i.first))
  }

  // ---------------------------------------------------------------- one list

  function ParseItems(f: Field, items: seq<Item>): Table {
    if items == [] then map[]
    else
      var t, last := ParseItems(f, items[..|items| - 1]), items[|items| - 1];
      if ItemKey(f, last).Some? then t[ItemKey(f, last).value := ItemSignature(f, last)] else t
  }

  function RenderKeys(f: Field, t: Table, keys: seq<Key>): seq<Item>
    requires TableFits(f, t) && forall k :: k in keys ==> k in t
  {
    if keys == [] then []
    else RenderKeys(f, t, keys[..|keys| - 1]) + [ToItem(f, keys[|keys| - 1], t[keys[|keys| - 1]])]
  }

  ghost function RenderTable(f: Field, t: Table): seq<Item>
    requires TableFits(f, t)
  {
    RenderKeys(f, t, SortedKeys(t.Keys))
  }

  lemma ItemRoundTrip(f: Field, k: Key, s: Signature)
    requires KeyFits(f, k) && SignatureFits(f, s)
    ensures ItemKey(f, ToItem(f, k, s)) == Some(k) && ItemSignature(f, ToItem(f, k, s)) == s
  {
  }

  lemma {:induction false} RenderedKeysParse(f: Field, t: Table, keys: seq<Key>)
    requires TableFits(f, t) && forall k :: k in keys ==> k in t
    ensures ParseItems(f, RenderKeys(f, t, keys)) == map k | k in keys :: t[k]
  {
    if keys != [] {
      var init, k := keys[..|keys| - 1], keys[|keys| - 1];
      assert keys == init + [k];
      RenderedKeysParse(f, t, init);
      ItemRoundTrip(f, k, t[k]);
      var items := RenderKeys(f, t, keys);
      assert items[..|items| - 1] == RenderKeys(f, t, init);
    }
  }

  lemma TableRoundTrip(f: Field, t: Table)
    requires TableFits(f, t)
    ensures ParseItems(f, RenderTable(f, t)) == t
  {
    RenderedKeysParse(f, t, SortedKeys(t.Keys));
  }

  lemma {:induction false} ParsedFits(f: Field, items: seq<Item>)
    ensures TableFits(f, ParseItems(f, items))
  {
    if items != [] {
      ParsedFits(f, items[..|items| - 1]);
    }
  }

  /** The last well-formed element filed under `k` is at index `i`. */
  ghost predicate IsLastFor(f: Field, items: seq<Item>, k: Key, i: nat) {
    && i < |items| && ItemKey(f, items[i]) == Some(k)
    && forall j :: i < j < |items| ==> ItemKey(f, items[j]) != Some(k)
  }

  /** Parsing keeps, for each key, what the last well-formed element says, and nothing else. */
  lemma {:induction false} LastEntryWins(f: Field, items: seq<Item>, k: Key)
    ensures k in ParseItems(f, items) <==> exists i: nat :: IsLastFor(f, items, k, i)
    ensures forall i: nat | IsLastFor(f, items, k, i) :: k in ParseItems(f, items)
                                                         && ParseItems(f, items)[k] == ItemSignature(f, items[i])
  {
    if items != [] {
      var init, last := items[..|items| - 1], |items| - 1;
      LastEntryWins(f, init, k);
      if ItemKey(f, items[last]) == Some(k) {
        assert IsLastFor(f, items, k, last);
      } else {
        forall i: nat
          ensures IsLastFor(f, items, k, i) <==> IsLastFor(f, init, k, i)
        {
          LastIsInherited(f, items, k, i);
        }
      }
    }
  }

  lemma LastIsInherited(f: Field, items: seq<Item>, k: Key, i: nat)
    requires items != [] && ItemKey(f, items[|items| - 1]) != Some(k)
    ensures IsLastFor(f, items, k, i) <==> IsLastFor(f, items[..|items| - 1], k, i)
  {
    var init := items[..|items| - 1];
    if IsLastFor(f, init, k, i) {
      forall j | i < j < |items|
        ensures ItemKey(f, items[j]) != Some(k)
      {
        if j < |init| {
          assert init[j] == items[j];
        }
      }
    }
  }

  /** A rendered list is strictly ascending in its keys. */
  lemma {:induction false} RenderedKeysAt(f: Field, t: Table, keys: seq<Key>, i: nat)
    requires TableFits(f, t) && forall k :: k in keys ==> k in t
    requires i < |keys|
    ensures |RenderKeys(f, t, keys)| == |keys|
    ensures RenderKeys(f, t, keys)[i] == ToItem(f, keys[i], t[keys[i]])
  {
    var init := keys[..|keys| - 1];
    if i < |init| {
      RenderedKeysAt(f, t, init, i);
    } else if |init| > 0 {
      RenderedKeysAt(f, t, init, 0);
    }
  }

  lemma RenderedAscends(f: Field, t: Table, i: nat, j: nat)
    requires TableFits(f, t) && i < j < |RenderTable(f, t)|
    ensures var a, b := ItemKey(f, RenderTable(f, t)[i]), ItemKey(f, RenderTable(f, t)[j]);
      a.Some? && b.Some? && KeyLess(a.value, b.value)
  {
    var keys := SortedKeys(t.Keys);
    RenderedCount(f, t, keys);
    RenderedKeysAt(f, t, keys, i);
    RenderedKeysAt(f, t, keys, j);
    ItemRoundTrip(f, keys[i], t[keys[i]]);
    ItemRoundTrip(f, keys[j], t[keys[j]]);
  }

  lemma {:induction false} RenderedCount(f: Field, t: Table, keys: seq<Key>)
    requires TableFits(f, t) && forall k :: k in keys ==> k in t
    ensures |RenderKeys(f, t, keys)| == |keys|
  {
    if keys != [] {
      RenderedCount(f, t, keys[..|keys| - 1]);
    }
  }

  // ---------------------------------------------------------------- documents

  function ProvenanceToWire(p: Provenance): ProvenanceWire {
    Given(Some(p.inputPath), p.sha256, FromInt(p.imagebase), p.version)
  }

  function ReadProvenance(w: ProvenanceWire): Result<Provenance, WireError> {
    match w
    case Blank => Success(Provenance("", None, None, None))
    case NoObject => Failure(NoDictionary)
    case Given(path, sha256, imagebase, version) =>
      if imagebase == Infinite then Failure(Overflow)
      else Success(Provenance(OrEmpty(path), sha256, OptInt(imagebase), version))
  }

  ghost function ToWire(r: Record): Wire
    requires WellShaped(r)
  {
    Wire(ProvenanceToWire(r.provenance), Some(RenderTable(Names, r.names)), Some(RenderTable(Comments, r.comments)),
         Some(RenderTable(Prototypes, r.prototypes)))
  }

  function ListUnder(w: Wire, f: Field): Option<seq<Item>> {
    match f
    case Names => w.names
    case Comments => w.comments
    case Prototypes => w.prototypes
  }

  /** An element whose address is an infinite number, which no integer conversion survives. */
  predicate IsInfinite(i: Item) { i.Item? && i.ea == Infinite }

  predicate ListOverflows(items: Option<seq<Item>>) {
    items.Some? && exists i :: 0 <= i < |items.value| && IsInfinite(items.value[i])
  }

  function ReadList(f: Field, items: Option<seq<Item>>): Result<Table, WireError> {
    if ListOverflows(items) then Failure(Overflow)
    else Success(if items == None then map[] else ParseItems(f, items.value))
  }

  /** The record a document holds, or what parsing raises: the lists are read first, then the provenance. */
  function Read(w: Wire): Result<Record, WireError> {
    match (ReadList(Names, w.names), ReadList(Comments, w.comments), ReadList(Prototypes, w.prototypes))
    case (Success(names), Success(comments), Success(prototypes)) =>
      (match ReadProvenance(w.provenance)
       case Success(provenance) => Success(Record(provenance, names, comments, prototypes))
       case Failure(e) => Failure(e))
    case _ => Failure(Overflow)
  }

  lemma ReadFits(w: Wire)
    requires Read(w).Success?
    ensures WellShaped(Read(w).value)
  {
    if w.names.Some? { ParsedFits(Names, w.names.value); }
    if w.comments.Some? { ParsedFits(Comments, w.comments.value); }
    if w.prototypes.Some? { ParsedFits(Prototypes, w.prototypes.value); }
  }

  /** Parsing a record's wire form never raises and gives the record back. */
  lemma RecordRoundTrip(r: Record)
    requires WellShaped(r)
    ensures Read(ToWire(r)) == Success(r)
  {
    TableRoundTrip(Names, r.names);
    TableRoundTrip(Comments, r.comments);
    TableRoundTrip(Prototypes, r.prototypes);
    RenderedIsFinite(Names, r.names);
    RenderedIsFinite(Comments, r.comments);
    RenderedIsFinite(Prototypes, r.prototypes);
    hide RenderTable, ParseItems, ListOverflows;
  }

  lemma RenderedIsFinite(f: Field, t: Table)
    requires TableFits(f, t)
    ensures !ListOverflows(Some(RenderTable(f, t)))
  {
    var keys := SortedKeys(t.Keys);
    RenderedCount(f, t, keys);
    forall i | 0 <= i < |keys| ensures !IsInfinite(RenderTable(f, t)[i]) {
      RenderedKeysAt(f, t, keys, i);
    }
  }

  /** Some element of some list, its position and the list's name given, is at an infinite address. */
  predicate IsOverflowAt(w: Wire, f: Field, i: nat) {
    ListUnder(w, f).Some? && i < |ListUnder(w, f).value| && IsInfinite(ListUnder(w, f).value[i])
  }

  /**
    What keeps a document from being read: one element at an infinite address, in any list; a load
    address that is infinite; or a provenance that is no object.  Nothing else does.
  */
  lemma RaisesIff(w: Wire)
    ensures Read(w) == Failure(NoDictionary) <==> w.provenance.NoObject? && forall f, i: nat :: !IsOverflowAt(w, f, i)
    ensures Read(w) == Failure(Overflow) <==>
      (exists f, i: nat :: IsOverflowAt(w, f, i)) || (w.provenance.Given? && w.provenance.imagebase == Infinite)
  {
    forall f ensures ListOverflows(ListUnder(w, f)) <==> exists i: nat :: IsOverflowAt(w, f, i) {
      if ListOverflows(ListUnder(w, f)) {
        var i: nat :| i < |ListUnder(w, f).value| && IsInfinite(ListUnder(w, f).value[i]);
        assert IsOverflowAt(w, f, i);
      }
    }
    hide ListOverflows, IsOverflowAt, ParseItems;
    if ListOverflows(w.names) { assert ListOverflows(ListUnder(w, Names)); }
    if ListOverflows(w.comments) { assert ListOverflows(ListUnder(w, Comments)); }
    if ListOverflows(w.prototypes) { assert ListOverflows(ListUnder(w, Prototypes)); }
  }

  /** One element at an infinite address, whatever else the document holds, keeps all of it from being read. */
  lemma OneBadEntryStopsTheMerge(w: Wire, f: Field, before: seq<Item>, bad: Item, after: seq<Item>)
    requires ListUnder(w, f) == Some(before + [bad] + after) && IsInfinite(bad)
    ensures Read(w) == Failure(Overflow)
  {
    assert IsOverflowAt(w, f, |before|);
    RaisesIff(w);
  }

  /** So does a provenance that is no object, in a document that is otherwise a rendered record. */
  lemma BadProvenanceStopsTheMerge(r: Record)
    requires WellShaped(r)
    ensures Read(ToWire(r).(provenance := NoObject)) == Failure(NoDictionary)
  {
    RenderedIsFinite(Names, r.names);
    RenderedIsFinite(Comments, r.comments);
    RenderedIsFinite(Prototypes, r.prototypes);
  }

  /** Rendering a parsed document is a normal form: doing it again changes nothing. */
  lemma NormalFormIsIdempotent(w: Wire)
    requires Read(w).Success?
    ensures WellShaped(Read(w).value)
    ensures var normal := ToWire(Read(w).value);
      Read(normal).Success? && WellShaped(Read(normal).value) && ToWire(Read(normal).value) == normal
  {
    ReadFits(w);
    RecordRoundTrip(Read(w).value);
  }

  // ---------------------------------------------------------------- merged records

  lemma PlanFits(fs: set<Field>, f: Field, b: Baselines, pairs: seq<Pair>, policy: Policy, prefer: Option<Session>)
    requires forall p :: p in pairs ==> TableFits(f, TableOf(p.record, f))
    ensures TableFits(f, SelectedTable(fs, f, b, pairs, policy, prefer))
  {
    var plan := SelectedTable(fs, f, b, pairs, policy, prefer);
    forall k | k in plan ensures KeyFits(f, k) && SignatureFits(f, plan[k]) {
      MergeLaws.PlanTableAt(f, b, pairs, policy, prefer, k);
      MergeLaws.PlannedIsAnEdit(f, b, pairs, k, policy, prefer);
      hide Planned, Entries, PlanTable;
      var p :| p in pairs && MergeLaws.Contributes(f, b, p, k, Entry(p.session, plan[k]));
      assert TableFits(f, TableOf(p.record, f));
    }
  }

  /** Merging well-shaped records gives a well-shaped record, so the merged record survives the wire too. */
  lemma MergedRecordSurvivesTheWire(pairs: seq<Pair>, b: Baselines, policy: Policy, prefer: Option<Session>,
                                    fields: Option<seq<string>>, tag: Provenance)
    requires forall p :: p in pairs ==> WellShaped(p.record)
    requires Merge(pairs, b, policy, prefer, fields).Success?
    ensures var merged := AsRecord(Merge(pairs, b, policy, prefer, fields).value, tag);
      WellShaped(merged) && Read(ToWire(merged)) == Success(merged)
  {
    var fs := Selected(fields).value;
    MergeCases(pairs, b, policy, prefer, fields);
    MergePlanFields(fs, b, pairs, policy, prefer);
    PlanFits(fs, Names, b, pairs, policy, prefer);
    PlanFits(fs, Comments, b, pairs, policy, prefer);
    PlanFits(fs, Prototypes, b, pairs, policy, prefer);
    hide TableFits, SelectedTable, SelectedConflicts, Merge, MergePlan;
    RecordRoundTrip(AsRecord(MergePlan(fs, b, pairs, policy, prefer), tag));
  }

  // ---------------------------------------------------------------- the loops

  method RenderLoop(f: Field, t: Table) returns (items: seq<Item>)
    requires TableFits(f, t)
    ensures items == RenderTable(f, t)
  {
    var keys := SortKeys(t.Keys);
    items := [];
    hide KeyLess, SortedKeys;
    for i := 0 to |keys|
      invariant items == RenderKeys(f, t, keys[..i])
    {
      assert keys[..i + 1][..i] == keys[..i];
      items := items + [ToItem(f, keys[i], t[keys[i]])];
    }
    assert keys[..|keys|] == keys;
  }

  method ParseLoop(f: Field, items: Option<seq<Item>>) returns (r: Result<Table, WireError>)
    ensures r == ReadList(f, items)
  {
    var t := map[];
    if items == None { return Success(t); }
    for i := 0 to |items.value|
      invariant t == ParseItems(f, items.value[..i])
      invariant forall j :: 0 <= j < i ==> !IsInfinite(items.value[j])
    {
      assert items.value[..i + 1][..i] == items.value[..i];
      var entry := items.value[i];
      if entry.NotAnObject? { continue; }
      if entry.ea == Infinite { return Failure(Overflow); }
      if OptInt(entry.ea) == None { continue; }
      t := t[ItemKey(f, entry).value := ItemSignature(f, entry)];
    }
    assert items.value[..|items.value|] == items.value;
    r := Success(t);
  }

  method RecordToWire(r: Record) returns (w: Wire)
    requires WellShaped(r)
    ensures w == ToWire(r)
  {
    var names := RenderLoop(Names, r.names);
    var comments := RenderLoop(Comments, r.comments);
    var prototypes := RenderLoop(Prototypes, r.prototypes);
    w := Wire(ProvenanceToWire(r.provenance), Some(names), Some(comments), Some(prototypes));
  }

  method RecordFromWire(w: Wire) returns (r: Result<Record, WireError>)
    ensures r == Read(w)
  {
    hide ReadList, ReadProvenance;
    var names := ParseLoop(Names, w.names);
    if names.Failure? { return Failure(Overflow); }
    var comments := ParseLoop(Comments, w.comments);
    if comments.Failure? { return Failure(Overflow); }
    var prototypes := ParseLoop(Prototypes, w.prototypes);
    if prototypes.Failure? { return Failure(Overflow); }
    var provenance := ReadProvenance(w.provenance);
    if provenance.Failure? { return Failure(provenance.error); }
    r := Success(Record(provenance.value, names.value, comments.value, prototypes.value));
  }
}
