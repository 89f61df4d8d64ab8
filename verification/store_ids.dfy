/** Server-assigned record ids: the store always has an unused, non-empty id to hand out. */
module StoreIds {

  /** A string longer than every string in `used`. */
  ghost function LongerThanAll(used: set<string>): (r: string)
    ensures forall u :: u in used ==> |r| > |u|
    decreases used
  {
    if used == {} then "x"
    else
      var u :| u in used;
      var rest := LongerThanAll(used - {u});
      if |rest| > |u| then rest else rest + u
  }

  /** An id that is neither used nor empty always exists. */
  lemma FreshIdExists(used: set<string>)
    ensures exists id: string :: id !in used && id != ""
  {
    var id := LongerThanAll(used);
    assert id !in used && id != "";
  }
}
