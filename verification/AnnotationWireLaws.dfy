/**
  What the wire parser (src/idamesh/application/annotation_wire.py) reads out of one element and out of a
  whole document, value by value.
*/
module AnnotationWireLaws {
  import opened Common
  import opened Reconciliation
  import opened AnnotationWire
  import NumberLaws
  import Strings

  /** The document's value stands for the integer: itself, a fraction cut towards zero, or a decimal text. */
  ghost predicate StandsFor(v: JsonNumber, n: int) {
    match v
    case Whole(m) => n == m
    case Fraction(x) => if x >= 0.0 then n as real <= x < n as real + 1.0 else n as real - 1.0 < x <= n as real
    case Written(text) => exists t :: Strings.IsStripped(text, t) && NumberLaws.IsDecimal(t, n)
    case _ => false
  }

  lemma NumberIsSpelledOut(v: JsonNumber, n: int)
    ensures OptInt(v) == Some(n) <==> StandsFor(v, n)
  {
    if v.Written? {
      var t := Strings.Strip(v.text);
      Strings.StripIsExact(v.text);
      NumberLaws.DecimalIsRead(t, n);
      forall u | Strings.IsStripped(v.text, u) ensures u == t { Strings.StrippedIsUnique(v.text, u, t); }
      hide Strings.Strip, Strings.IsStripped, NumberLaws.IsDecimal;
    } else if v.Fraction? {
      FloorIsNear(v.x, n);
      FloorIsNear(-v.x, -n);
    }
  }

  lemma FloorIsNear(x: real, n: int)
    ensures x.Floor == n <==> n as real <= x < n as real + 1.0
  {
  }

  /** The text read from a field that may be missing. */
  predicate ReadsText(field: Option<string>, text: string) {
    match field
    case None => text == ""
    case Some(t) => text == t
  }

  /** The element is an object with an address, and is filed under `k` with the signature `s`. */
  ghost predicate Says(f: Field, i: Item, k: Key, s: Signature) {
    && i.Item? && StandsFor(i.ea, k.ea)
    && if f == Comments
       then k.Scoped? && ReadsText(i.scope, k.scope)
         && s.CommentPair? && ReadsText(i.first, s.regular) && ReadsText(i.second, s.repeatable)
       else k.Ea? && s.Text? && ReadsText(i.first, s.text)
  }

  /** What one element says, if anything. */
  lemma ElementIsSpelledOut(f: Field, i: Item, k: Key, s: Signature)
    ensures ItemKey(f, i) == Some(k) && ItemSignature(f, i) == s <==> Says(f, i, k, s)
  {
    if i.Item? {
      NumberIsSpelledOut(i.ea, k.ea);
      if OptInt(i.ea).Some? { NumberIsSpelledOut(i.ea, OptInt(i.ea).value); }
    }
    hide OptInt, StandsFor;
  }

  /** The `i`-th element says `s` of `k`, and no later one says anything of it. */
  ghost predicate IsLastWord(f: Field, items: seq<Item>, k: Key, s: Signature, i: nat) {
    && i < |items| && Says(f, items[i], k, s)
    && forall j, t :: i < j < |items| ==> !Says(f, items[j], k, t)
  }

  /** A parsed list holds, for each key, the last word on it. */
  lemma ListIsSpelledOut(f: Field, items: seq<Item>, k: Key, s: Signature)
    ensures k in ParseItems(f, items) && ParseItems(f, items)[k] == s
      <==> exists i: nat :: IsLastWord(f, items, k, s, i)
  {
    LastEntryWins(f, items, k);
    forall i: nat ensures IsLastWord(f, items, k, s, i)
      <==> IsLastFor(f, items, k, i) && ItemSignature(f, items[i]) == s
    {
      LastWordIsLast(f, items, k, s, i);
    }
    hide ParseItems, IsLastWord, IsLastFor, ItemSignature;
  }

  lemma LastWordIsLast(f: Field, items: seq<Item>, k: Key, s: Signature, i: nat)
    ensures IsLastWord(f, items, k, s, i)
      <==> IsLastFor(f, items, k, i) && items[i].Item? && ItemSignature(f, items[i]) == s
  {
    if i < |items| {
      ElementIsSpelledOut(f, items[i], k, s);
      forall j | i < j < |items| ensures ItemKey(f, items[j]) == Some(k) <==> exists t :: Says(f, items[j], k, t) {
        KeyIsSaid(f, items[j], k);
      }
      KeyIsSaid(f, items[i], k);
    }
    hide ItemKey, ItemSignature, Says;
  }

  lemma KeyIsSaid(f: Field, i: Item, k: Key)
    ensures ItemKey(f, i) == Some(k) <==> exists t :: Says(f, i, k, t)
    ensures ItemKey(f, i) == Some(k) ==> i.Item?
  {
    if ItemKey(f, i) == Some(k) { ElementIsSpelledOut(f, i, k, ItemSignature(f, i)); }
    if t :| Says(f, i, k, t) { ElementIsSpelledOut(f, i, k, t); }
    hide ItemKey, Says;
  }

  /**
    The provenance read: each text as it stands, the path empty if it is missing, the address as an
    integer if it is one.
  */
  ghost predicate IsProvenanceOf(w: ProvenanceWire, p: Provenance) {
    match w
    case Blank => p == Provenance("", None, None, None)
    case NoObject => false
    case Given(path, sha256, imagebase, version) =>
      && ReadsText(path, p.inputPath) && p.sha256 == sha256 && p.version == version
      && if p.imagebase.Some? then StandsFor(imagebase, p.imagebase.value) else forall n :: !StandsFor(imagebase, n)
  }

  /** What a document that can be read holds, list by list. */
  lemma DocumentIsSpelledOut(w: Wire)
    requires Read(w).Success?
    ensures var r := Read(w).value;
      && IsProvenanceOf(w.provenance, r.provenance)
      && forall f, k, s :: Holds(r, f, k, s)
           <==> ListUnder(w, f).Some? && exists i: nat :: IsLastWord(f, ListUnder(w, f).value, k, s, i)
  {
    var r := Read(w).value;
    if w.provenance.Given? {
      var v := w.provenance.imagebase;
      forall n ensures OptInt(v) == Some(n) <==> StandsFor(v, n) { NumberIsSpelledOut(v, n); }
      hide OptInt, StandsFor;
    }
    forall f, k, s ensures Holds(r, f, k, s)
      <==> ListUnder(w, f).Some? && exists i: nat :: IsLastWord(f, ListUnder(w, f).value, k, s, i)
    {
      if ListUnder(w, f).Some? { ListIsSpelledOut(f, ListUnder(w, f).value, k, s); }
      hide ParseItems, IsLastWord, ListOverflows;
    }
    hide ParseItems, IsLastWord, ListOverflows;
  }

  /** The record has the signature at `k` of the field. */
  predicate Holds(r: Record, f: Field, k: Key, s: Signature) {
    match f
    case Names => k in r.names && r.names[k] == s
    case Comments => k in r.comments && r.comments[k] == s
    case Prototypes => k in r.prototypes && r.prototypes[k] == s
  }

  // ---------------------------------------------------------------- rendering

  /** The element for one entry: the address as a number and the texts under their names, nothing left out. */
  predicate IsEntryFor(f: Field, i: Item, k: Key, s: Signature) {
    if f == Comments
    then k.Scoped? && s.CommentPair? && i == Item(Whole(k.ea), Some(k.scope), Some(s.regular), Some(s.repeatable))
    else k.Ea? && s.Text? && i == Item(Whole(k.ea), None, Some(s.text), None)
  }

  /** A rendered list has one element for each entry and no other, in the order of their keys. */
  lemma RenderingIsSpelledOut(f: Field, t: Table) returns (keys: seq<Key>)
    requires TableFits(f, t)
    ensures (forall k :: k in keys <==> k in t) && forall i, j :: 0 <= i < j < |keys| ==> KeyLess(keys[i], keys[j])
    ensures |RenderTable(f, t)| == |keys|
    ensures forall i :: 0 <= i < |keys| ==> IsEntryFor(f, RenderTable(f, t)[i], keys[i], t[keys[i]])
  {
    keys := SortedKeys(t.Keys);
    RenderedCount(f, t, keys);
    forall i | 0 <= i < |keys| ensures IsEntryFor(f, RenderTable(f, t)[i], keys[i], t[keys[i]]) {
      RenderedKeysAt(f, t, keys, i);
    }
    hide KeyLess, IsEntryFor;
  }
}
