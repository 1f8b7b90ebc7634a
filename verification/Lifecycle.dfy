/** SQL's three-valued logic, as far as the queries of seaplane-db use it. */
module Sql {

  datatype Tri = True | False | Unknown

  function Truth(b: bool): Tri { if b then True else False }

  function And(a: Tri, b: Tri): Tri {
    if a == False || b == False then False
    else if a == True && b == True then True
    else Unknown
  }

  function Or(a: Tri, b: Tri): Tri {
    if a == True || b == True then True
    else if a == False && b == False then False
    else Unknown
  }

  function Not(a: Tri): Tri {
    match a
    case True => False
    case False => True
    case Unknown => Unknown
  }

  /** COALESCE(a, FALSE). */
  function OrElseFalse(a: Tri): Tri { if a == Unknown then False else a }
}

/**
 * One row of kubernetes_resources and the filters that decide whether the row is
 * live, dying or a tombstone.  Five places of the code decide it on their own:
 * three SQL filters and two Go predicates.
 */
module Lifecycle {
  import opened Wrappers
  import opened Sql

  /** An element of a JSON list. */
  datatype Element = Str(text: string) | NullElement | OtherElement

  /** The value of metadata->'finalizers' in the stored JSON. */
  datatype Finalizers = Missing | JsonNull | JsonList(items: seq<Element>) | OtherJson

  /**
   * The stored metadata as its two readers see it: finalizers is what SQL finds under
   * the key, decoded what unmarshalling the whole document into a list of strings
   * gives, None when that fails.
   */
  datatype Metadata = Metadata(labels: Option<map<string, string>>, finalizers: Finalizers,
                               decoded: Option<seq<string>>, rest: string)

  datatype Key = Key(gvk: string, namespace: string, name: string)

  datatype Row = Row(uid: nat, stamp: nat, version: int, spec: string, status: string,
                     metadata: Metadata, deletion: Option<int>)

  // ---- SQL side ----

  /** metadata->'finalizers' = '[]'::jsonb */
  function EmptyArray(f: Finalizers): Tri {
    match f
    case Missing => Unknown
    case JsonNull => False
    case JsonList(items) => Truth(items == [])
    case OtherJson => False
  }

  /** deletion_timestamp IS NULL OR finalizers != '[]'  (List). */
  function ListFilter(r: Row): Tri {
    Or(Truth(r.deletion.None?), Not(EmptyArray(r.metadata.finalizers)))
  }

  /** deletion_timestamp IS NULL OR (finalizers IS NOT NULL AND finalizers != '[]')  (readCurrentResource). */
  function CurrentFilter(r: Row): Tri {
    Or(Truth(r.deletion.None?),
       And(Truth(!r.metadata.finalizers.Missing?), Not(EmptyArray(r.metadata.finalizers))))
  }

  /** deletion_timestamp IS NOT NULL AND (finalizers IS NULL OR finalizers = '[]')  (compaction and revival). */
  function TombstoneFilter(r: Row): Tri {
    And(Truth(r.deletion.Some?),
        Or(Truth(r.metadata.finalizers.Missing?), EmptyArray(r.metadata.finalizers)))
  }

  // ---- Go side ----

  predicate HasFinalizers(r: Row) {
    r.metadata.decoded.Some? && r.metadata.decoded.value != []
  }

  predicate IsFullyDeleted(r: Row) {
    r.deletion.Some? && !HasFinalizers(r)
  }

  /** What extractMetadata stores for an object's finalizers: the omitempty tag drops an empty list. */
  function Extracted(labels: Option<map<string, string>>, items: seq<string>, rest: string): Metadata {
    Metadata(labels, if items == [] then Missing else JsonList(seq(|items|, i requires 0 <= i < |items| => Str(items[i]))),
             Some(items), rest)
  }

  // ---- Three states ----

  /** SQL sees finalizers. */
  predicate Holds(f: Finalizers) {
    !f.Missing? && f != JsonList([])
  }

  /** SQL and Go see finalizers together or not at all. */
  predicate Regular(m: Metadata) {
    Holds(m.finalizers) <==> m.decoded.Some? && m.decoded.value != []
  }

  datatype Phase = Live | Dying | Tombstone

  function PhaseOf(r: Row): Phase {
    if r.deletion.None? then Live else if Holds(r.metadata.finalizers) then Dying else Tombstone
  }

  datatype EventType = Added | Modified | Deleted

  /** pollAll's classification of a row. */
  function ReaderEvent(r: Row): EventType {
    if r.deletion.Some? then Deleted else if r.version == 1 then Added else Modified
  }

  /** relay's classification of what the reader reported. */
  function RelayEvent(r: Row): EventType {
    match ReaderEvent(r)
    case Added => Added
    case Modified => Modified
    case Deleted => if HasFinalizers(r) then Modified else Deleted
  }

  /** All five filters and the relay draw the same line between tombstones and the rest. */
  predicate OneLine(r: Row) {
    var gone := IsFullyDeleted(r);
    && (ListFilter(r) == True <==> !gone)
    && (CurrentFilter(r) == True <==> !gone)
    && (TombstoneFilter(r) == True <==> gone)
    && (RelayEvent(r) == Deleted <==> gone)
  }

  /**
   * The filters agree exactly on rows that are not deleted or whose finalizers SQL
   * and Go see alike; the SQL filters always agree with each other.
   */
  lemma FiltersAgreeExactly(r: Row)
    ensures OneLine(r) <==> r.deletion.None? || Regular(r.metadata)
    ensures ListFilter(r) == True <==> PhaseOf(r) != Tombstone
    ensures CurrentFilter(r) == True <==> PhaseOf(r) != Tombstone
    ensures TombstoneFilter(r) == True <==> PhaseOf(r) == Tombstone
  {
  }

  /** Unmarshalling a list of strings: null elements become empty strings. */
  function DecodeItems(items: seq<Element>): Option<seq<string>> {
    if items == [] then Some([])
    else
      var rest := DecodeItems(items[1..]);
      if items[0].OtherElement? || rest.None? then None
      else Some([if items[0].Str? then items[0].text else ""] + rest.value)
  }

  /** Unmarshalling the field itself: null and absence give an empty list, what is no list fails. */
  function Decode(f: Finalizers): Option<seq<string>> {
    match f
    case Missing => Some([])
    case JsonNull => Some([])
    case JsonList(items) => DecodeItems(items)
    case OtherJson => None
  }

  lemma {:induction false} DecodeItemsKeepsLength(items: seq<Element>)
    ensures DecodeItems(items).Some? <==> OtherElement !in items
    ensures DecodeItems(items).Some? ==> |DecodeItems(items).value| == |items|
  {
    if items != [] {
      DecodeItemsKeepsLength(items[1..]);
      assert items == [items[0]] + items[1..];
    }
  }

  /**
   * On documents that spell the key as the code does (Go also accepts other spellings,
   * SQL does not) and decode otherwise: a deleted row is judged alike exactly when the
   * field is absent or a list of strings and nulls.
   */
  lemma PlainKeysAgreeExactly(r: Row)
    requires r.metadata.decoded == Decode(r.metadata.finalizers)
    ensures OneLine(r) <==>
      || r.deletion.None?
      || r.metadata.finalizers.Missing?
      || (r.metadata.finalizers.JsonList? && OtherElement !in r.metadata.finalizers.items)
  {
    if r.metadata.finalizers.JsonList? {
      DecodeItemsKeepsLength(r.metadata.finalizers.items);
    }
  }

  /** A key in another spelling: SQL takes the row for a tombstone, Go sees a finalizer. */
  lemma OtherSpellingDisagrees(r: Row)
    requires r.metadata.finalizers.Missing? && r.metadata.decoded == Some(["x"])
    ensures OneLine(r) <==> r.deletion.None?
    ensures r.deletion.Some? ==> TombstoneFilter(r) == True && RelayEvent(r) == Modified
  {
  }

  /** Everything extractMetadata can produce is on the agreeing side. */
  lemma ExtractedMetadataIsRegular(labels: Option<map<string, string>>, items: seq<string>, rest: string, r: Row)
    requires r.metadata == Extracted(labels, items, rest)
    ensures OneLine(r) && r.metadata.decoded == Decode(r.metadata.finalizers)
    ensures PhaseOf(r) == Tombstone <==> r.deletion.Some? && items == []
    ensures HasFinalizers(r) <==> items != []
    ensures r.metadata.labels == labels && r.metadata.decoded == Some(items) && r.metadata.rest == rest
  {
    var texts := seq(|items|, i requires 0 <= i < |items| => Str(items[i]));
    TextsDecode(texts, items);
  }

  lemma {:induction false} TextsDecode(texts: seq<Element>, items: seq<string>)
    requires |texts| == |items| && forall i :: 0 <= i < |items| ==> texts[i] == Str(items[i])
    ensures DecodeItems(texts) == Some(items)
  {
    if items != [] {
      TextsDecode(texts[1..], items[1..]);
      assert items == [items[0]] + items[1..];
    }
  }
}
