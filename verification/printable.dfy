/**
 * `printable(x)`: flatten a nested value into a record whose keys are the
 * dot-joined paths to its leaves and whose values are tagged strings, or into
 * a bare tagged string when the value is itself a leaf.
 */
module Printables {
  import opened Outcomes

  /**
   * The values `printable` distinguishes. `Num` and `Date` carry the text
   * `String(x)` produces for them; `Undefined` is `undefined`, the one value
   * outside objects and printable primitives that this model covers.
   */
  datatype Value =
    | Str(s: string)
    | Num(text: string)
    | Bool(b: bool)
    | Null
    | Date(text: string)
    | Undefined
    | Arr(items: seq<Value>)
    | Obj(entries: seq<(string, Value)>)

  /** One flattened leaf: where it was found and what it prints as. */
  datatype Leaf = Leaf(path: seq<string>, value: string)

  /** What `printable` returns: a bare string or a flat record. */
  datatype Printed = Bare(text: string) | Flat(fields: map<string, string>)

  predicate IsContainer(x: Value) {
    x.Arr? || x.Obj?
  }

  /** The tagged text of a leaf value. */
  function Render(x: Value): (r: string)
    requires !IsContainer(x)
  {
    match x
    case Str(s) => "[string]" + s
    case Num(t) => "[number]" + t
    case Bool(b) => "[boolean]" + (if b then "true" else "false")
    case Null => "[printable object]null]"
    case Date(t) => "[printable object]" + t + "]"
    case Undefined => "[unrecognized primitive]undefined]"
  }

  function DigitChar(d: nat): char
    requires d < 10
  {
    "0123456789"[d]
  }

  /** `String(index)` for an array index. */
  function NatToString(n: nat): (r: string)
    ensures |r| > 0
  {
    if n < 10 then [DigitChar(n)] else NatToString(n / 10) + [DigitChar(n % 10)]
  }

  /** Different indices print differently, so an index key names one array slot. */
  lemma {:induction false} NatToStringInjective(a: nat, b: nat)
    ensures NatToString(a) == NatToString(b) ==> a == b
    decreases a
  {
    if NatToString(a) == NatToString(b) {
      var s := NatToString(a);
      if a < 10 && b < 10 {
        assert s[0] == DigitChar(a) == DigitChar(b);
      } else if a >= 10 && b >= 10 {
        assert s[|s| - 1] == DigitChar(a % 10) == DigitChar(b % 10);
        assert NatToString(a / 10) == s[..|s| - 1] == NatToString(b / 10);
        NatToStringInjective(a / 10, b / 10);
      }
    }
  }

  /** No property name occurs twice among an object's entries. */
  predicate DistinctKeys(entries: seq<(string, Value)>) {
    forall i, j :: 0 <= i < j < |entries| ==> entries[i].0 != entries[j].0
  }

  /**
   * A value a JavaScript program can build: every object, at any depth, has
   * each property name once.
   */
  predicate WellFormed(x: Value)
    decreases x, 1
  {
    match x
    case Arr(items) => ItemsWellFormed(items, 0)
    case Obj(entries) => DistinctKeys(entries) && EntriesWellFormed(entries, 0)
    case _ => true
  }

  predicate ItemsWellFormed(items: seq<Value>, i: nat)
    requires i <= |items|
    decreases items, |items| - i
  {
    i == |items| || (WellFormed(items[i]) && ItemsWellFormed(items, i + 1))
  }

  predicate EntriesWellFormed(entries: seq<(string, Value)>, i: nat)
    requires i <= |entries|
    decreases entries, |entries| - i
  {
    i == |entries| || (assert entries[i].1 < entries[i]; WellFormed(entries[i].1) && EntriesWellFormed(entries, i + 1))
  }

  /** The array slot named by `key`, searched from index `j`: `items[key]` for a canonical index string. */
  function ItemNamed(items: seq<Value>, key: string, j: nat): (r: Option<Value>)
    ensures r.Some? ==> exists m :: j <= m < |items| && NatToString(m) == key && r == Some(items[m])
    decreases |items| - j
  {
    if j >= |items| then None
    else if NatToString(j) == key then Some(items[j])
    else ItemNamed(items, key, j + 1)
  }

  /** The value of the first entry named `key`, searched from position `j`: `obj[key]`. */
  function EntryNamed(entries: seq<(string, Value)>, key: string, j: nat): (r: Option<Value>)
    ensures r.Some? ==> exists m :: j <= m < |entries| && entries[m].0 == key && r == Some(entries[m].1)
    decreases |entries| - j
  {
    if j >= |entries| then None
    else if entries[j].0 == key then Some(entries[j].1)
    else EntryNamed(entries, key, j + 1)
  }

  /** One property access: an array by index string, an object by name; a leaf value has no properties. */
  function Child(x: Value, key: string): (r: Option<Value>)
    ensures r.Some? ==> IsContainer(x)
  {
    match x
    case Arr(items) => ItemNamed(items, key, 0)
    case Obj(entries) => EntryNamed(entries, key, 0)
    case _ => None
  }

  /** The value reached from `x` by following `path` one property at a time, if every step exists. */
  function At(x: Value, path: seq<string>): Option<Value>
    decreases |path|
  {
    if path == [] then Some(x)
    else
      match Child(x, path[0])
      case None => None
      case Some(c) => At(c, path[1..])
  }

  /** Index `m` of an array is reached by the key `String(m)`. */
  lemma ItemNamedFinds(items: seq<Value>, j: nat, m: nat)
    requires j <= m < |items|
    ensures ItemNamed(items, NatToString(m), j) == Some(items[m])
    decreases m - j
  {
    NatToStringInjective(j, m);
    if j < m {
      ItemNamedFinds(items, j + 1, m);
    }
  }

  /** Entry `m` of an object with distinct names is reached by its name. */
  lemma EntryNamedFinds(entries: seq<(string, Value)>, j: nat, m: nat)
    requires DistinctKeys(entries) && j <= m < |entries|
    ensures EntryNamed(entries, entries[m].0, j) == Some(entries[m].1)
    decreases m - j
  {
    if j < m {
      EntryNamedFinds(entries, j + 1, m);
    }
  }

  /** `path.join('.')`. */
  function Join(path: seq<string>): string {
    if path == [] then ""
    else if |path| == 1 then path[0]
    else path[0] + "." + Join(path[1..])
  }

  predicate Extends(long: seq<string>, short: seq<string>) {
    |long| >= |short| && long[..|short|] == short
  }

  /** `printableRecursionHelper(path, x)`: the leaves of `x`, in order, below `path`. */
  function Leaves(path: seq<string>, x: Value): (r: seq<Leaf>)
    ensures forall l :: l in r ==> Extends(l.path, path)
    ensures IsContainer(x) ==> forall l :: l in r ==> |l.path| > |path|
    ensures !IsContainer(x) ==> r == [Leaf(path, Render(x))]
    decreases x, 1
  {
    match x
    case Arr(items) => ItemLeaves(path, items, 0)
    case Obj(entries) => EntryLeaves(path, entries, 0)
    case _ => [Leaf(path, Render(x))]
  }

  /** The array case: items from index `i` on, each keyed by its index. */
  function ItemLeaves(path: seq<string>, items: seq<Value>, i: nat): (r: seq<Leaf>)
    requires i <= |items|
    ensures forall l :: l in r ==> |l.path| > |path| && Extends(l.path, path)
    decreases items, |items| - i
  {
    if i == |items| then []
    else
      var here := Leaves(path + [NatToString(i)], items[i]);
      assert forall l :: l in here ==> Extends(l.path, path + [NatToString(i)]);
      here + ItemLeaves(path, items, i + 1)
  }

  /** The object case: entries from position `i` on, each keyed by its property name. */
  function EntryLeaves(path: seq<string>, entries: seq<(string, Value)>, i: nat): (r: seq<Leaf>)
    requires i <= |entries|
    ensures forall l :: l in r ==> |l.path| > |path| && Extends(l.path, path)
    decreases entries, |entries| - i
  {
    if i == |entries| then []
    else
      var (key, value) := entries[i];
      assert value < entries[i];
      var here := Leaves(path + [key], value);
      assert forall l :: l in here ==> Extends(l.path, path + [key]);
      here + EntryLeaves(path, entries, i + 1)
  }

  /** The array case holds exactly the leaves of items `i..`, each below its own index. */
  lemma {:induction false} ItemLeavesMembers(path: seq<string>, items: seq<Value>, i: nat)
    requires i <= |items|
    ensures forall l :: l in ItemLeaves(path, items, i) <==>
              exists j :: i <= j < |items| && l in Leaves(path + [NatToString(j)], items[j])
    decreases |items| - i
  {
    if i < |items| {
      ItemLeavesMembers(path, items, i + 1);
      var here := Leaves(path + [NatToString(i)], items[i]);
      assert ItemLeaves(path, items, i) == here + ItemLeaves(path, items, i + 1);
    }
  }

  /** The object case holds exactly the leaves of entries `i..`, each below its own name. */
  lemma {:induction false} EntryLeavesMembers(path: seq<string>, entries: seq<(string, Value)>, i: nat)
    requires i <= |entries|
    ensures forall l :: l in EntryLeaves(path, entries, i) <==>
              exists j :: i <= j < |entries| && l in Leaves(path + [entries[j].0], entries[j].1)
    decreases |entries| - i
  {
    if i < |entries| {
      EntryLeavesMembers(path, entries, i + 1);
      var here := Leaves(path + [entries[i].0], entries[i].1);
      assert EntryLeaves(path, entries, i) == here + EntryLeaves(path, entries, i + 1);
    }
  }

  /** Following `rel` from `x` reaches a leaf value that prints as `value`. */
  predicate LeafAt(x: Value, rel: seq<string>, value: string) {
    && At(x, rel).Some?
    && !IsContainer(At(x, rel).value)
    && value == Render(At(x, rel).value)
  }

  /** A leaf found below `path + [key]` in child `c` of `x` is found below `path` in `x`. */
  lemma LeafUnderChild(x: Value, path: seq<string>, key: string, c: Value, l: Leaf)
    requires Child(x, key) == Some(c) && Extends(l.path, path + [key])
    requires LeafAt(c, l.path[|path| + 1..], l.value)
    ensures LeafAt(x, l.path[|path|..], l.value)
  {
    var rel := l.path[|path|..];
    assert l.path[..|path| + 1] == path + [key];
    assert rel[0] == key && rel[1..] == l.path[|path| + 1..];
  }

  /** Every leaf of a well-formed value sits at its path below `path`. */
  lemma {:induction false} LeavesLookup(path: seq<string>, x: Value)
    requires WellFormed(x)
    ensures forall l :: l in Leaves(path, x) ==> LeafAt(x, l.path[|path|..], l.value)
    decreases x, 1
  {
    match x
    case Arr(items) => ItemLeavesLookup(path, items, 0);
    case Obj(entries) => EntryLeavesLookup(path, entries, 0);
    case _ =>
      assert Leaves(path, x)[0].path[|path|..] == [];
  }

  lemma {:induction false} ItemLeavesLookup(path: seq<string>, items: seq<Value>, i: nat)
    requires i <= |items| && ItemsWellFormed(items, i)
    ensures forall l :: l in ItemLeaves(path, items, i) ==> LeafAt(Arr(items), l.path[|path|..], l.value)
    decreases items, |items| - i
  {
    if i < |items| {
      var key := NatToString(i);
      var here := Leaves(path + [key], items[i]);
      LeavesLookup(path + [key], items[i]);
      ItemLeavesLookup(path, items, i + 1);
      ItemNamedFinds(items, 0, i);
      forall l | l in here ensures LeafAt(Arr(items), l.path[|path|..], l.value) {
        LeafUnderChild(Arr(items), path, key, items[i], l);
      }
    }
  }

  lemma {:induction false} EntryLeavesLookup(path: seq<string>, entries: seq<(string, Value)>, i: nat)
    requires i <= |entries| && DistinctKeys(entries) && EntriesWellFormed(entries, i)
    ensures forall l :: l in EntryLeaves(path, entries, i) ==> LeafAt(Obj(entries), l.path[|path|..], l.value)
    decreases entries, |entries| - i
  {
    if i < |entries| {
      var (key, value) := entries[i];
      assert value < entries[i];
      var here := Leaves(path + [key], value);
      LeavesLookup(path + [key], value);
      EntryLeavesLookup(path, entries, i + 1);
      EntryNamedFinds(entries, 0, i);
      forall l | l in here ensures LeafAt(Obj(entries), l.path[|path|..], l.value) {
        LeafUnderChild(Obj(entries), path, key, value, l);
      }
    }
  }

  /** Every path that reaches a leaf value from `x` is the path of one of its leaves below `path`. */
  lemma {:induction false} LookupIsLeaf(path: seq<string>, x: Value, rel: seq<string>)
    requires At(x, rel).Some? && !IsContainer(At(x, rel).value)
    ensures Leaf(path + rel, Render(At(x, rel).value)) in Leaves(path, x)
    decreases |rel|
  {
    if rel == [] {
      assert path + rel == path;
    } else {
      var key := rel[0];
      var c := Child(x, key).value;
      LookupIsLeaf(path + [key], c, rel[1..]);
      assert path + [key] + rel[1..] == path + rel;
      match x
      case Arr(items) =>
        var m :| 0 <= m < |items| && NatToString(m) == key && c == items[m];
        ItemLeavesMembers(path, items, 0);
      case Obj(entries) =>
        var m :| 0 <= m < |entries| && entries[m].0 == key && c == entries[m].1;
        EntryLeavesMembers(path, entries, 0);
    }
  }

  /** The leaves of a well-formed value are exactly its paths to leaf values, each with its printed text. */
  lemma LeavesAreLookups(x: Value)
    requires WellFormed(x)
    ensures forall l :: l in Leaves([], x) ==> LeafAt(x, l.path, l.value)
    ensures forall rel :: At(x, rel).Some? && !IsContainer(At(x, rel).value) ==>
              Leaf(rel, Render(At(x, rel).value)) in Leaves([], x)
  {
    LeavesLookup([], x);
    forall l | l in Leaves([], x) ensures LeafAt(x, l.path, l.value) {
      assert l.path[0..] == l.path;
    }
    forall rel | At(x, rel).Some? && !IsContainer(At(x, rel).value)
      ensures Leaf(rel, Render(At(x, rel).value)) in Leaves([], x)
    {
      LookupIsLeaf([], x, rel);
      assert [] + rel == rel;
    }
  }

  /** The final `reduce`: spread the record and set one dot-joined key per leaf, left to right. */
  function Collect(leaves: seq<Leaf>): (r: map<string, string>)
    ensures r.Keys == set l | l in leaves :: Join(l.path)
    ensures forall i :: 0 <= i < |leaves| && LastWithKey(leaves, i) ==> r[Join(leaves[i].path)] == leaves[i].value
  {
    if leaves == [] then map[]
    else
      var init := leaves[..|leaves| - 1];
      var last := leaves[|leaves| - 1];
      var r := Collect(init)[Join(last.path) := last.value];
      assert forall l :: l in leaves <==> l in init || l == last;
      assert forall i :: 0 <= i < |init| && LastWithKey(leaves, i) ==> LastWithKey(init, i);
      r
  }

  /** No later leaf joins to the same key as leaf `i`. */
  predicate LastWithKey(leaves: seq<Leaf>, i: nat)
    requires i < |leaves|
  {
    forall j :: i < j < |leaves| ==> Join(leaves[j].path) != Join(leaves[i].path)
  }

  /** `printable(x)`. */
  function Printable(x: Value): (r: Printed)
    ensures r.Bare? <==> !IsContainer(x)
    ensures !IsContainer(x) ==> r == Bare(Render(x))
    ensures IsContainer(x) ==> r.fields.Keys == set l | l in Leaves([], x) :: Join(l.path)
    ensures IsContainer(x) ==>
              forall i :: 0 <= i < |Leaves([], x)| && LastWithKey(Leaves([], x), i) ==>
                r.fields[Join(Leaves([], x)[i].path)] == Leaves([], x)[i].value
  {
    var leaves := Leaves([], x);
    if |leaves| == 1 && leaves[0].path == [] then
      Bare(leaves[0].value)
    else
      assert IsContainer(x) ==> leaves == [] || leaves[0] in leaves;
      Flat(Collect(leaves))
  }

  /** Leaf `k`'s key has a last leaf joining to it, at `k` or later. */
  lemma LastLeafWithKey(leaves: seq<Leaf>, k: nat) returns (i: nat)
    requires k < |leaves|
    ensures k <= i < |leaves| && Join(leaves[i].path) == Join(leaves[k].path) && LastWithKey(leaves, i)
    decreases |leaves| - k
  {
    if LastWithKey(leaves, k) {
      i := k;
    } else {
      var j :| k < j < |leaves| && Join(leaves[j].path) == Join(leaves[k].path);
      i := LastLeafWithKey(leaves, j);
    }
  }

  /**
   * For a well-formed array or object, `printable` has a field for every path
   * to a leaf value, and every field holds the printed text of the leaf value
   * at some path that joins to its key.
   */
  lemma PrintableFieldsAreLookups(x: Value)
    requires WellFormed(x) && IsContainer(x)
    ensures forall rel :: At(x, rel).Some? && !IsContainer(At(x, rel).value) ==> Join(rel) in Printable(x).fields
    ensures forall key :: key in Printable(x).fields ==>
              exists rel :: Join(rel) == key && LeafAt(x, rel, Printable(x).fields[key])
  {
    var leaves := Leaves([], x);
    var fields := Printable(x).fields;
    LeavesAreLookups(x);
    forall rel | At(x, rel).Some? && !IsContainer(At(x, rel).value) ensures Join(rel) in fields {
      assert Leaf(rel, Render(At(x, rel).value)) in leaves;
    }
    forall key | key in fields ensures exists rel :: Join(rel) == key && LeafAt(x, rel, fields[key]) {
      var l :| l in leaves && Join(l.path) == key;
      var k :| 0 <= k < |leaves| && leaves[k] == l;
      var i := LastLeafWithKey(leaves, k);
      assert leaves[i] in leaves;
      assert LeafAt(x, leaves[i].path, fields[key]);
    }
  }

  /** An empty array or object prints as an empty record. */
  lemma EmptyContainerIsEmptyRecord()
    ensures Printable(Arr([])) == Flat(map[])
    ensures Printable(Obj([])) == Flat(map[])
  {
    assert Leaves([], Arr([])) == [];
    assert Leaves([], Obj([])) == [];
  }

  /** A one-element array of a leaf prints as a one-key record keyed "0", never as a bare string. */
  lemma SingletonArrayIsRecord(x: Value)
    requires !IsContainer(x)
    ensures Printable(Arr([x])) == Flat(map["0" := Render(x)])
  {
    assert NatToString(0) == "0";
    assert ItemLeaves([], [x], 1) == [];
    assert Leaves([], Arr([x])) == [Leaf(["0"], Render(x))];
  }

  /** Array elements are keyed by index. */
  lemma FlatArrayExample()
    ensures Printable(Arr([Num("1"), Str("2"), Bool(true)]))
         == Flat(map["0" := "[number]1", "1" := "[string]2", "2" := "[boolean]true"])
  {
    var leaves := [Leaf(["0"], "[number]1"), Leaf(["1"], "[string]2"), Leaf(["2"], "[boolean]true")];
    FlatArrayLeaves();
    assert Join(["0"]) == "0" && Join(["1"]) == "1" && Join(["2"]) == "2";
    assert Collect(leaves[..1]) == map["0" := "[number]1"];
    assert Collect(leaves[..2]) == map["0" := "[number]1", "1" := "[string]2"];
    assert leaves[..3] == leaves;
  }

  lemma FlatArrayLeaves()
    ensures Leaves([], Arr([Num("1"), Str("2"), Bool(true)]))
         == [Leaf(["0"], "[number]1"), Leaf(["1"], "[string]2"), Leaf(["2"], "[boolean]true")]
  {
    var xs := [Num("1"), Str("2"), Bool(true)];
    assert NatToString(0) == "0" && NatToString(1) == "1" && NatToString(2) == "2";
    assert [] + [NatToString(2)] == ["2"] && [] + [NatToString(1)] == ["1"] && [] + [NatToString(0)] == ["0"];
    assert Render(Bool(true)) == "[boolean]true" && Render(Str("2")) == "[string]2" && Render(Num("1")) == "[number]1";
    assert ItemLeaves([], xs, 3) == [];
    assert ItemLeaves([], xs, 2) == [Leaf(["2"], "[boolean]true")];
    assert ItemLeaves([], xs, 1) == [Leaf(["1"], "[string]2"), Leaf(["2"], "[boolean]true")];
  }

  /** Nested object keys are joined with a dot. */
  lemma NestedObjectExample()
    ensures Printable(Obj([("foo", Obj([("bar", Num("1"))]))])) == Flat(map["foo.bar" := "[number]1"])
  {
    var inner := Obj([("bar", Num("1"))]);
    assert EntryLeaves(["foo"], [("bar", Num("1"))], 1) == [];
    assert ["foo"] + ["bar"] == ["foo", "bar"] && [] + ["foo"] == ["foo"];
    assert Render(Num("1")) == "[number]1";
    assert Leaves(["foo", "bar"], Num("1")) == [Leaf(["foo", "bar"], "[number]1")];
    assert Leaves(["foo"], inner) == [Leaf(["foo", "bar"], "[number]1")];
    assert EntryLeaves([], [("foo", inner)], 1) == [];
    var leaves := [Leaf(["foo", "bar"], "[number]1")];
    assert Leaves([], Obj([("foo", inner)])) == leaves;
    assert Join(["foo", "bar"]) == "foo.bar";
    assert Collect(leaves) == Collect(leaves[..0])["foo.bar" := "[number]1"];
  }

  /** `null` prints with the printable-object tag and a stray closing bracket, not as "[null]". */
  lemma NullPrintsAsWritten()
    ensures Printable(Null) == Bare("[printable object]null]")
    ensures Printable(Null) != Bare("[null]")
  {
  }

  /** When two leaves join to the same key, the later one wins. */
  lemma CollidingKeysLaterWins()
    ensures Printable(Obj([("a.b", Num("1")), ("a", Obj([("b", Num("2"))]))])) == Flat(map["a.b" := "[number]2"])
  {
    var x := Obj([("a.b", Num("1")), ("a", Obj([("b", Num("2"))]))]);
    var leaves := [Leaf(["a.b"], "[number]1"), Leaf(["a", "b"], "[number]2")];
    CollidingLeaves();
    CollidingCollect();
    assert Printable(x) == Flat(Collect(leaves));
  }

  lemma CollidingCollect()
    ensures Collect([Leaf(["a.b"], "[number]1"), Leaf(["a", "b"], "[number]2")]) == map["a.b" := "[number]2"]
  {
    var leaves := [Leaf(["a.b"], "[number]1"), Leaf(["a", "b"], "[number]2")];
    assert Join(["a", "b"]) == "a.b" && Join(["a.b"]) == "a.b";
    assert leaves[..1] == [leaves[0]];
    assert Collect(leaves[..1]) == map["a.b" := "[number]1"];
    assert Collect(leaves) == map["a.b" := "[number]1"]["a.b" := "[number]2"];
    assert map["a.b" := "[number]1"]["a.b" := "[number]2"] == map["a.b" := "[number]2"];
  }

  lemma CollidingLeaves()
    ensures Leaves([], Obj([("a.b", Num("1")), ("a", Obj([("b", Num("2"))]))]))
         == [Leaf(["a.b"], "[number]1"), Leaf(["a", "b"], "[number]2")]
  {
    var inner := Obj([("b", Num("2"))]);
    var entries := [("a.b", Num("1")), ("a", inner)];
    assert ["a"] + ["b"] == ["a", "b"] && [] + ["a"] == ["a"] && [] + ["a.b"] == ["a.b"];
    assert Render(Num("1")) == "[number]1" && Render(Num("2")) == "[number]2";
    assert EntryLeaves(["a"], [("b", Num("2"))], 1) == [];
    assert Leaves(["a", "b"], Num("2")) == [Leaf(["a", "b"], "[number]2")];
    assert Leaves(["a"], inner) == [Leaf(["a", "b"], "[number]2")];
    assert EntryLeaves([], entries, 2) == [];
    assert EntryLeaves([], entries, 1) == [Leaf(["a", "b"], "[number]2")];
  }
}
