/**
 * Snapshot selectors for compare-and-swap updates: a selector copies a
 * document's id, its two timestamps and a list of extra fields, and a stored
 * document matches it when it agrees with the snapshot on every copied field.
 */
module StrictSelectors {
  import opened Outcomes

  /** A document is a record from field names to values; a missing field reads as `undefined`. */
  type Doc<V> = map<string, V>

  /** A selector maps each selected field to the snapshot's value, `None` for `undefined`. */
  type Selector<V> = map<string, Option<V>>

  const BaseFields: seq<string> := ["_id", "createdAt", "modifiedAt"]

  /** `doc[field]` in JavaScript. */
  function Lookup<V>(doc: Doc<V>, field: string): Option<V> {
    if field in doc then Some(doc[field]) else None
  }

  /** The `reduce` step: spread the accumulator and set one more field. */
  function AddFields<V>(acc: Selector<V>, doc: Doc<V>, fields: seq<string>): (r: Selector<V>)
    ensures r.Keys == acc.Keys + set f | f in fields
    ensures forall f :: f in r ==> r[f] == if f in fields then Lookup(doc, f) else acc[f]
    decreases |fields|
  {
    if fields == [] then acc
    else AddFields(acc[fields[0] := Lookup(doc, fields[0])], doc, fields[1..])
  }

  /** `strictSelector(doc, extraFields)`; pass `[]` for the omitted argument. */
  function StrictSelector<V>(doc: Doc<V>, extraFields: seq<string>): (r: Selector<V>)
    ensures r.Keys == {"_id", "createdAt", "modifiedAt"} + set f | f in extraFields
    ensures forall f :: f in r ==> r[f] == Lookup(doc, f)
  {
    AddFields(map[], doc, BaseFields + extraFields)
  }

  /** The selector's meaning: a stored document matches when it agrees on every selected field. */
  predicate Matches<V(==)>(stored: Doc<V>, selector: Selector<V>) {
    forall f :: f in selector ==> Lookup(stored, f) == selector[f]
  }

  /** Without extra fields only the id and the two timestamps are selected. */
  lemma DefaultSelectsBaseFields<V>(doc: Doc<V>)
    ensures StrictSelector(doc, []).Keys == {"_id", "createdAt", "modifiedAt"}
  {
  }

  /** Listing a field twice selects the same as listing it once. */
  lemma RepeatedFieldIsHarmless<V>(doc: Doc<V>, extraFields: seq<string>, f: string)
    requires f in extraFields
    ensures StrictSelector(doc, extraFields + [f]) == StrictSelector(doc, extraFields)
  {
    var a, b := StrictSelector(doc, extraFields + [f]), StrictSelector(doc, extraFields);
    assert a.Keys == b.Keys;
  }

  /** Matching the snapshot's own selector is exactly agreeing with it on the selected fields. */
  lemma MatchesIff<V>(stored: Doc<V>, snapshot: Doc<V>, extraFields: seq<string>)
    ensures Matches(stored, StrictSelector(snapshot, extraFields))
        <==> forall f :: f in BaseFields + extraFields ==> Lookup(stored, f) == Lookup(snapshot, f)
  {
    var sel := StrictSelector(snapshot, extraFields);
    if Matches(stored, sel) {
      forall f | f in BaseFields + extraFields
        ensures Lookup(stored, f) == Lookup(snapshot, f)
      {
        assert f in sel;
      }
    }
  }
}
