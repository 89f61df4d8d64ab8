/** `defaults(target, source)`: copy into `target`, in place, every key it lacks. */
module Defaults {

  /** A mutable JavaScript object: its own enumerable properties. */
  class JsObject<V> {
    var props: map<string, V>

    constructor (props: map<string, V>)
      ensures this.props == props
    {
      this.props := props;
    }
  }

  /** The object `defaults` leaves behind: target's own keys win, source fills the rest. */
  function Defaulted<V>(target: map<string, V>, source: map<string, V>): (r: map<string, V>)
    ensures r.Keys == target.Keys + source.Keys
    ensures forall k :: k in target ==> r[k] == target[k]
    ensures forall k :: k in source && k !in target ==> r[k] == source[k]
  {
    map k | k in target.Keys + source.Keys :: if k in target then target[k] else source[k]
  }

  /**
   * The `reduce` over `Object.entries(source)`: each entry is skipped when
   * `target` already owns the key and assigned otherwise. Returns `target` itself.
   */
  method ApplyDefaults<V>(target: JsObject<V>, source: map<string, V>) returns (r: JsObject<V>)
    modifies target
    ensures r == target
    ensures target.props == Defaulted(old(target.props), source)
  {
    var entries := source.Keys;
    ghost var done: set<string> := {};
    while entries != {}
      invariant entries + done == source.Keys && entries !! done
      invariant target.props == Defaulted(old(target.props), map k | k in done :: source[k])
      decreases entries
    {
      var key :| key in entries;
      if key !in target.props {
        target.props := target.props[key := source[key]];
      }
      entries := entries - {key};
      done := done + {key};
    }
    assert (map k | k in done :: source[k]) == source;
    r := target;
  }

  /** Applying the same defaults a second time changes nothing. */
  lemma DefaultsIdempotent<V>(target: map<string, V>, source: map<string, V>)
    ensures Defaulted(Defaulted(target, source), source) == Defaulted(target, source)
  {
    var once := Defaulted(target, source);
    var twice := Defaulted(once, source);
    assert twice.Keys == once.Keys;
    forall k | k in once ensures twice[k] == once[k] { }
  }
}
