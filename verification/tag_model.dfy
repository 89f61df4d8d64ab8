/**
 * The tag tree as a finite map from id to record, with the pure functions that
 * specify the store operations: ancestor chains, path resolution, the repair
 * that fix mode performs, descendant sets and the snapshot selectors used for
 * compare-and-swap updates.
 */
module TagModel {
  import opened Outcomes
  import SS = StrictSelectors

  /** One entry of a cached path: an ancestor's (or the tag's own) id and name. */
  datatype PathNode = PathNode(id: string, name: string)

  type Path = seq<PathNode>

  /** A stored tag. `parentTagId == ""` marks a root; `path` is absent on records not yet repaired. */
  datatype TagRecord = TagRecord(
    id: string,
    createdAt: int,
    modifiedAt: int,
    name: string,
    parentTagId: string,
    path: Option<Path>)

  type Tags = map<string, TagRecord>

  /** The part of a tag that path resolution reads. */
  datatype TagRef = TagRef(id: string, name: string, parentTagId: string, path: Option<Path>)

  function RefOf(t: TagRecord): TagRef {
    TagRef(t.id, t.name, t.parentTagId, t.path)
  }

  function NodeOf(t: TagRecord): PathNode {
    PathNode(t.id, t.name)
  }

  const ParentNotFound := "Parent Tag not found"
  const TagNameRequired := "Tag must have a name."

  /** Every record is stored under its own id, and no record has the root marker as id. */
  ghost predicate WellKeyed(tags: Tags) {
    "" !in tags && forall k :: k in tags ==> tags[k].id == k
  }

  // ---------------------------------------------------------------------------
  // Parent chains

  /** The parent chain starting at `pid` leaves the store within `fuel` steps. */
  predicate Ends(tags: Tags, pid: string, fuel: nat)
    decreases fuel
  {
    pid !in tags || (fuel > 0 && Ends(tags, tags[pid].parentTagId, fuel - 1))
  }

  /** No parent chain runs in a circle: every chain leaves the store eventually. */
  ghost predicate Acyclic(tags: Tags) {
    forall k :: k in tags ==> exists n: nat :: Ends(tags, k, n)
  }

  function HeightN(tags: Tags, pid: string, fuel: nat): nat
    requires Ends(tags, pid, fuel)
    decreases fuel
  {
    if pid !in tags then 0 else 1 + HeightN(tags, tags[pid].parentTagId, fuel - 1)
  }

  lemma {:induction false} HeightNIndependent(tags: Tags, pid: string, n: nat, m: nat)
    requires Ends(tags, pid, n) && n <= m
    ensures Ends(tags, pid, m) && HeightN(tags, pid, m) == HeightN(tags, pid, n)
    decreases n
  {
    if pid in tags {
      HeightNIndependent(tags, tags[pid].parentTagId, n - 1, m - 1);
    }
  }

  /** The number of stored records on the chain starting at `pid`. */
  ghost function Height(tags: Tags, pid: string): nat
    requires Acyclic(tags)
  {
    if pid !in tags then 0
    else
      var n: nat :| Ends(tags, pid, n);
      HeightN(tags, pid, n)
  }

  lemma HeightIs(tags: Tags, pid: string, n: nat)
    requires Acyclic(tags) && Ends(tags, pid, n)
    ensures Height(tags, pid) == HeightN(tags, pid, n)
  {
    if pid in tags {
      var m: nat :| Ends(tags, pid, m) && Height(tags, pid) == HeightN(tags, pid, m);
      if m <= n { HeightNIndependent(tags, pid, m, n); } else { HeightNIndependent(tags, pid, n, m); }
    }
  }

  /** Climbing to the parent strictly lowers the height. */
  lemma HeightStep(tags: Tags, pid: string)
    requires Acyclic(tags) && pid in tags
    ensures Height(tags, tags[pid].parentTagId) < Height(tags, pid)
  {
    var n: nat :| Ends(tags, pid, n);
    HeightIs(tags, pid, n);
    HeightIs(tags, tags[pid].parentTagId, n - 1);
  }

  /**
   * The ids met climbing from `pid`: `pid` itself, then the parents of stored
   * records, ending with the first id that is not stored ("" for a grounded chain).
   */
  ghost function Ancestry(tags: Tags, pid: string): (r: seq<string>)
    requires Acyclic(tags)
    ensures |r| > 0 && r[0] == pid && r[|r| - 1] !in tags
    ensures forall i :: 0 <= i < |r| - 1 ==> r[i] in tags && r[i + 1] == tags[r[i]].parentTagId
    decreases Height(tags, pid)
  {
    if pid in tags then
      HeightStep(tags, pid);
      [pid] + Ancestry(tags, tags[pid].parentTagId)
    else [pid]
  }

  /** Every stored id on a chain is no higher than the chain's start. */
  lemma {:induction false} AncestryHeights(tags: Tags, pid: string)
    requires Acyclic(tags)
    ensures forall a :: a in Ancestry(tags, pid) && a in tags ==> Height(tags, a) <= Height(tags, pid)
    decreases Height(tags, pid)
  {
    if pid in tags {
      HeightStep(tags, pid);
      AncestryHeights(tags, tags[pid].parentTagId);
    }
  }

  /** A stored tag is never its own ancestor. */
  lemma NotOwnAncestor(tags: Tags, id: string)
    requires Acyclic(tags) && id in tags
    ensures id !in Ancestry(tags, tags[id].parentTagId)
  {
    HeightStep(tags, id);
    AncestryHeights(tags, tags[id].parentTagId);
  }

  /** The members of a list, as a set. */
  function Members(s: seq<string>): set<string> {
    set x | x in s
  }

  /** The ids of a list of records. */
  function Ids(s: seq<TagRecord>): set<string> {
    set i | 0 <= i < |s| :: s[i].id
  }

  /** No id occurs twice in a list of records. */
  predicate DistinctIds(s: seq<TagRecord>) {
    forall i, j :: 0 <= i < j < |s| ==> s[i].id != s[j].id
  }

  /** Every record in the list is the stored record with its id. */
  predicate AllStored(tags: Tags, s: seq<TagRecord>) {
    forall i :: 0 <= i < |s| ==> s[i].id in tags && s[i] == tags[s[i].id]
  }

  lemma ConcatIds(tags: Tags, a: seq<TagRecord>, b: seq<TagRecord>)
    ensures Ids(a + b) == Ids(a) + Ids(b)
    ensures DistinctIds(a) && DistinctIds(b) && Ids(a) !! Ids(b) ==> DistinctIds(a + b)
    ensures AllStored(tags, a) && AllStored(tags, b) ==> AllStored(tags, a + b)
  {
    var c := a + b;
    forall k | k in Ids(a) ensures k in Ids(c) {
      var i :| 0 <= i < |a| && a[i].id == k;
      assert c[i].id == k;
    }
    forall k | k in Ids(b) ensures k in Ids(c) {
      var i :| 0 <= i < |b| && b[i].id == k;
      assert c[|a| + i].id == k;
    }
    if DistinctIds(a) && DistinctIds(b) && Ids(a) !! Ids(b) {
      forall i, j | 0 <= i < j < |c| ensures c[i].id != c[j].id {
        if i < |a| && j >= |a| {
          assert c[i].id in Ids(a) && c[j].id in Ids(b) by {
            assert c[j] == b[j - |a|];
          }
        } else if i >= |a| {
          assert c[i] == b[i - |a|] && c[j] == b[j - |a|];
        }
      }
    }
  }

  lemma PopIds(tags: Tags, s: seq<TagRecord>)
    requires |s| > 0
    ensures Ids(s) == {s[0].id} + Ids(s[1..])
    ensures AllStored(tags, s) ==> AllStored(tags, s[1..])
  {
    assert s == [s[0]] + s[1..];
    ConcatIds(tags, [s[0]], s[1..]);
  }

  lemma TailIds(s: seq<TagRecord>)
    requires |s| > 0 && DistinctIds(s)
    ensures Ids(s[1..]) == Ids(s) - {s[0].id} && DistinctIds(s[1..])
  {
    assert s == [s[0]] + s[1..];
    forall k | k in Ids(s) && k != s[0].id ensures k in Ids(s[1..]) {
      var i :| 0 <= i < |s| && s[i].id == k;
      assert s[1..][i - 1].id == k;
    }
  }

  /** The stored tags whose chain of ancestors passes through `a`. */
  ghost function Descendants(tags: Tags, a: string): set<string>
    requires Acyclic(tags)
  {
    set x | x in tags && a in Ancestry(tags, tags[x].parentTagId)
  }

  /** `x` descends from `a` iff its parent is `a` or its parent descends from `a`. */
  lemma DescendantStep(tags: Tags, a: string, x: string)
    requires Acyclic(tags) && x in tags
    ensures x in Descendants(tags, a) <==>
            tags[x].parentTagId == a || tags[x].parentTagId in Descendants(tags, a)
  {
  }

  lemma NotOwnDescendant(tags: Tags, a: string)
    requires Acyclic(tags)
    ensures a !in Descendants(tags, a)
  {
    if a in tags { NotOwnAncestor(tags, a); }
  }

  /** The stored records whose parent is `id`: the answer to `find({parentTagId: id})`. */
  function Children(tags: Tags, id: string): set<string> {
    set k | k in tags && tags[k].parentTagId == id
  }

  /**
   * A set of stored ids that holds every child of its members and of `a` holds
   * every descendant of `a`.
   */
  lemma {:induction false} ClosedSetHoldsDescendants(tags: Tags, a: string, s: set<string>, x: string)
    requires Acyclic(tags)
    requires forall k :: k in tags && (tags[k].parentTagId == a || tags[k].parentTagId in s) ==> k in s
    requires x in Descendants(tags, a)
    ensures x in s
    decreases Height(tags, x)
  {
    var p := tags[x].parentTagId;
    DescendantStep(tags, a, x);
    if p != a {
      HeightStep(tags, x);
      ClosedSetHoldsDescendants(tags, a, s, p);
    }
  }

  /**
   * The state of the breadth-first walk from `root`: the ids whose children
   * were asked for (`done`), the ids reported so far (`found`) and the ids still
   * queued (`pending`).
   */
  ghost predicate WalkState(tags: Tags, root: string, done: set<string>, found: set<string>, pending: set<string>)
    requires Acyclic(tags)
  {
    && found <= Descendants(tags, root)
    && (done == {} ==> pending == {root} && found == {})
    && (done != {} ==> root in done && pending <= found)
    && done !! pending
    && done <= found + {root}
    && found <= done + pending
    && (forall d, c :: d in done && c in Children(tags, d) ==> c in found)
    && (forall k :: k in found ==> tags[k].parentTagId in done)
  }

  /** Asking for the children of a queued id reports new descendants only and keeps the walk's state. */
  lemma WalkStep(tags: Tags, root: string, done: set<string>, found: set<string>, pending: set<string>, current: string)
    requires Acyclic(tags) && WalkState(tags, root, done, found, pending) && current in pending
    ensures var kids := Children(tags, current);
            && kids <= Descendants(tags, root)
            && kids !! found && kids !! done && kids !! pending
            && WalkState(tags, root, done + {current}, found + kids, (pending - {current}) + kids)
  {
    var kids := Children(tags, current);
    NotOwnDescendant(tags, root);
    forall c | c in kids ensures c in Descendants(tags, root) && c !in found && c !in done && c !in pending {
      DescendantStep(tags, root, c);
    }
  }

  /**
   * One round of the walk on its lists: the head of the queue is taken off,
   * and its children are appended to both the queue and the result.
   */
  lemma WalkAdvance(tags: Tags, root: string, done: set<string>, result: seq<TagRecord>, queue: seq<TagRecord>,
                    children: seq<TagRecord>)
    requires Acyclic(tags) && |queue| > 0
    requires DistinctIds(result) && AllStored(tags, result) && DistinctIds(queue)
    requires WalkState(tags, root, done, Ids(result), Ids(queue))
    requires DistinctIds(children) && AllStored(tags, children) && Ids(children) == Children(tags, queue[0].id)
    ensures DistinctIds(result + children) && AllStored(tags, result + children)
    ensures DistinctIds(queue[1..] + children)
    ensures WalkState(tags, root, done + {queue[0].id}, Ids(result + children), Ids(queue[1..] + children))
    ensures children == [] || |Descendants(tags, root) - Ids(result + children)| < |Descendants(tags, root) - Ids(result)|
  {
    var current := queue[0].id;
    TailIds(queue);
    WalkStep(tags, root, done, Ids(result), Ids(queue), current);
    ConcatIds(tags, queue[1..], children);
    ConcatIds(tags, result, children);
    if children != [] {
      assert children[0].id in Ids(children);
      FewerLeft(Descendants(tags, root), Ids(result), Ids(children), children[0].id);
    }
  }

  /** Adding a new member of `below` to `found` leaves fewer members of `below` to find. */
  lemma FewerLeft(below: set<string>, found: set<string>, more: set<string>, x: string)
    requires x in more && x in below && x !in found
    ensures |below - (found + more)| < |below - found|
  {
    var left := below - found;
    var rest := below - (found + more);
    var others := left - {x};
    assert rest <= others;
    assert others == rest + (others - rest) && rest * (others - rest) == {};
    assert |others| == |left| - 1;
  }

  /** A finished walk has found every descendant. */
  lemma WalkDone(tags: Tags, root: string, done: set<string>, found: set<string>)
    requires Acyclic(tags) && WalkState(tags, root, done, found, {})
    ensures found == Descendants(tags, root)
  {
    assert root in done;
    forall k | k in tags && (tags[k].parentTagId == root || tags[k].parentTagId in found) ensures k in found {
      assert k in Children(tags, tags[k].parentTagId);
    }
    forall x | x in Descendants(tags, root) ensures x in found {
      ClosedSetHoldsDescendants(tags, root, found, x);
    }
  }

  /**
   * The state of a subtree expansion below `id` that skips the ids in `base`:
   * the ids marked so far, each a child of `id` or of another marked id, and the
   * ids still queued; every child of `id` or of a marked id is skipped, marked or queued.
   */
  ghost predicate Expanding(tags: Tags, id: string, base: set<string>, marked: set<string>, pending: set<string>) {
    && marked !! base && marked <= tags.Keys && pending <= tags.Keys
    && (forall x :: x in marked ==> tags[x].parentTagId in marked + {id})
    && (forall x :: x in pending ==> tags[x].parentTagId in marked + {id})
    && (forall x :: x in tags && tags[x].parentTagId in marked + {id} ==> x in base + marked || x in pending)
  }

  /**
   * `order` lists stored ids each of whose parent is `id` or an id listed
   * earlier: every listed id hangs below `id` through listed ids. A parent
   * cycle that does not reach `id` can never be listed.
   */
  ghost predicate ReachedFrom(tags: Tags, id: string, order: seq<string>) {
    forall k :: 0 <= k < |order| ==> ListedAfterParent(tags, id, order, k)
  }

  /** The `k`-th listed id is stored and its parent is `id` or listed before it. */
  ghost predicate ListedAfterParent(tags: Tags, id: string, order: seq<string>, k: nat)
    requires k < |order|
  {
    order[k] in tags && (tags[order[k]].parentTagId == id || tags[order[k]].parentTagId in order[..k])
  }

  /** Listing one more id whose parent is `id` or already listed. */
  lemma ReachedFromStep(tags: Tags, id: string, order: seq<string>, next: string)
    requires ReachedFrom(tags, id, order) && next in tags
    requires tags[next].parentTagId == id || tags[next].parentTagId in order
    ensures ReachedFrom(tags, id, order + [next])
  {
    var order' := order + [next];
    forall k | 0 <= k < |order'| ensures ListedAfterParent(tags, id, order', k) {
      if k < |order| {
        assert ListedAfterParent(tags, id, order, k);
        assert order'[k] == order[k] && order'[..k] == order[..k];
      } else {
        assert order'[..k] == order;
      }
    }
  }

  /** Taking `next` off the queue: skip it when already seen, otherwise mark it and queue its children. */
  lemma ExpandStep(tags: Tags, id: string, base: set<string>, marked: set<string>, pending: set<string>,
                   rest: set<string>, next: string)
    requires Expanding(tags, id, base, marked, pending) && next in pending && pending - {next} <= rest <= pending
    ensures next in base + marked ==> Expanding(tags, id, base, marked, rest)
    ensures next !in base + marked ==> Expanding(tags, id, base, marked + {next}, rest + Children(tags, next))
  {
  }

  /** The loop state of the subtree expansion: `Expanding`, with `order` witnessing how each marked id was reached. */
  ghost predicate ExpandState(tags: Tags, id: string, base: set<string>, marked: set<string>, order: seq<string>,
                              queue: seq<string>) {
    && Expanding(tags, id, base, marked, Members(queue))
    && ReachedFrom(tags, id, order) && forall x :: x in marked ==> x in order
  }

  /** One round of the expansion on its queue of ids. */
  lemma ExpandRound(tags: Tags, id: string, base: set<string>, marked: set<string>, order: seq<string>,
                    queue: seq<string>, children: seq<string>)
    requires |queue| > 0 && ExpandState(tags, id, base, marked, order, queue)
    requires queue[0] !in base + marked ==> Members(children) == Children(tags, queue[0])
    ensures queue[0] in base + marked ==> ExpandState(tags, id, base, marked, order, queue[1..])
    ensures queue[0] !in base + marked ==>
              && ExpandState(tags, id, base, marked + {queue[0]}, order + [queue[0]], queue[1..] + children)
              && |tags.Keys - (base + (marked + {queue[0]}))| < |tags.Keys - (base + marked)|
  {
    var rest := Members(queue[1..]);
    assert queue == [queue[0]] + queue[1..];
    ExpandStep(tags, id, base, marked, Members(queue), rest, queue[0]);
    if queue[0] !in base + marked {
      assert queue[0] in Members(queue);
      ReachedFromStep(tags, id, order, queue[0]);
      assert (Members(queue[1..] + children)) == rest + Children(tags, queue[0]);
      assert tags.Keys - (base + (marked + {queue[0]})) == (tags.Keys - (base + marked)) - {queue[0]};
    }
  }

  /** Tags whose parent id names no stored record. */
  function Detached(tags: Tags): set<string> {
    set k | k in tags && tags[k].parentTagId != "" && tags[k].parentTagId !in tags
  }

  // ---------------------------------------------------------------------------
  // Path resolution

  /**
   * `getTagPath(ref, fix)`: the cached path when not fixing and one is present;
   * otherwise the parent's path, resolved the same way, followed by the leaf
   * entry; `[leaf]` for a root; RecordNotFound when a parent is missing.
   */
  function ResolvePath(tags: Tags, ref: TagRef, fix: bool): (r: Result<Path>)
    requires Acyclic(tags)
    ensures (fix || ref.path.None?) && r.Ok? ==>
              |r.value| > 0 && r.value[|r.value| - 1] == PathNode(ref.id, ref.name)
    decreases Height(tags, ref.parentTagId)
  {
    if !fix && ref.path.Some? then Ok(ref.path.value)
    else
      var leaf := PathNode(ref.id, ref.name);
      if ref.parentTagId == "" then Ok([leaf])
      else if ref.parentTagId !in tags then Err(RecordNotFound(ParentNotFound, ref.parentTagId))
      else
        var parent := tags[ref.parentTagId];
        HeightStep(tags, ref.parentTagId);
        match ResolvePath(tags, RefOf(parent), fix)
        case Err(e) => Err(e)
        case Ok(parentPath) => Ok(parentPath + [leaf])
  }

  /** The path fix mode computes for stored tag `k`, ignoring every cached path. */
  function Fresh(tags: Tags, k: string): Result<Path>
    requires Acyclic(tags) && k in tags
  {
    ResolvePath(tags, RefOf(tags[k]), true)
  }

  /**
   * In fix mode the resolved path is the ancestor chain, root first, then the
   * leaf; it fails exactly when the chain ends at a missing id, naming that id.
   */
  lemma {:induction false} FreshPathFollowsAncestry(tags: Tags, ref: TagRef)
    requires WellKeyed(tags) && Acyclic(tags)
    ensures var a := Ancestry(tags, ref.parentTagId);
            var n := |a| - 1;
            var r := ResolvePath(tags, ref, true);
            && (r.Ok? <==> a[n] == "")
            && (r.Err? ==> r.error == RecordNotFound(ParentNotFound, a[n]))
            && (r.Ok? ==> && |r.value| == n + 1
                          && r.value[n] == PathNode(ref.id, ref.name)
                          && forall i :: 0 <= i < n ==> r.value[i] == NodeOf(tags[a[n - 1 - i]]))
    decreases Height(tags, ref.parentTagId)
  {
    var pid := ref.parentTagId;
    if pid in tags {
      var parent := tags[pid];
      HeightStep(tags, pid);
      FreshPathFollowsAncestry(tags, RefOf(parent));
      var a' := Ancestry(tags, parent.parentTagId);
      assert Ancestry(tags, pid) == [pid] + a';
    }
  }

  /** With `fix` set, cached paths (the argument's and the ancestors') play no part. */
  lemma {:induction false} FixIgnoresCachedPaths(tags: Tags, ref: TagRef, cached: Option<Path>)
    requires Acyclic(tags)
    ensures ResolvePath(tags, ref, true) == ResolvePath(tags, ref.(path := cached), true)
    decreases Height(tags, ref.parentTagId)
  {
  }

  // ---------------------------------------------------------------------------
  // Stores that differ only in cached paths

  /** Same ids, same parents. */
  ghost predicate SameParents(a: Tags, b: Tags) {
    a.Keys == b.Keys && forall k :: k in a ==> a[k].parentTagId == b[k].parentTagId
  }

  /** Same records in everything but the cached path. */
  ghost predicate SameShape(a: Tags, b: Tags) {
    a.Keys == b.Keys && forall k :: k in a ==> a[k].(path := None) == b[k].(path := None)
  }

  /** Writing one cached path changes nothing else. */
  lemma PathWrite(tags: Tags, k: string, p: Option<Path>)
    requires k in tags
    ensures SameShape(tags, tags[k := tags[k].(path := p)])
    ensures WellKeyed(tags) ==> WellKeyed(tags[k := tags[k].(path := p)])
  {
  }

  lemma {:induction false} EndsSameParents(a: Tags, b: Tags, pid: string, n: nat)
    requires SameParents(a, b)
    ensures Ends(a, pid, n) <==> Ends(b, pid, n)
    ensures Ends(a, pid, n) ==> HeightN(a, pid, n) == HeightN(b, pid, n)
    decreases n
  {
    if pid in a && n > 0 {
      EndsSameParents(a, b, a[pid].parentTagId, n - 1);
    }
  }

  /** Chains, heights and acyclicity depend only on the parent pointers. */
  lemma SameParentsSameChains(a: Tags, b: Tags)
    requires SameParents(a, b) && Acyclic(a)
    ensures Acyclic(b)
    ensures forall pid :: Height(a, pid) == Height(b, pid) && Ancestry(a, pid) == Ancestry(b, pid)
  {
    forall k | k in b ensures exists n: nat :: Ends(b, k, n) {
      var n: nat :| Ends(a, k, n);
      EndsSameParents(a, b, k, n);
    }
    forall pid ensures Height(a, pid) == Height(b, pid) && Ancestry(a, pid) == Ancestry(b, pid) {
      SameParentsSameAncestry(a, b, pid);
    }
  }

  lemma {:induction false} SameParentsSameAncestry(a: Tags, b: Tags, pid: string)
    requires SameParents(a, b) && Acyclic(a) && Acyclic(b)
    ensures Height(a, pid) == Height(b, pid) && Ancestry(a, pid) == Ancestry(b, pid)
    decreases Height(a, pid)
  {
    if pid in a {
      var n: nat :| Ends(a, pid, n);
      EndsSameParents(a, b, pid, n);
      HeightIs(a, pid, n);
      HeightIs(b, pid, n);
      HeightStep(a, pid);
      SameParentsSameAncestry(a, b, a[pid].parentTagId);
    }
  }

  /** Fix-mode resolution depends only on ids, names and parents, never on cached paths. */
  lemma {:induction false} SameShapeSameFresh(a: Tags, b: Tags, ref: TagRef)
    requires SameShape(a, b) && Acyclic(a) && Acyclic(b)
    ensures ResolvePath(a, ref, true) == ResolvePath(b, ref, true)
    decreases Height(a, ref.parentTagId)
  {
    var pid := ref.parentTagId;
    if pid != "" && pid in a {
      assert a[pid].(path := None) == b[pid].(path := None);
      HeightStep(a, pid);
      SameShapeSameFresh(a, b, RefOf(a[pid]));
      FixIgnoresCachedPaths(b, RefOf(b[pid]), a[pid].path);
      assert RefOf(b[pid]).(path := a[pid].path) == RefOf(a[pid]);
    }
  }

  // ---------------------------------------------------------------------------
  // The repair fix mode performs

  /**
   * The store after a successful fix-mode resolution of a tag whose parent is
   * `pid`: every stored ancestor's path is replaced by its freshly resolved path.
   */
  ghost function Repaired(tags: Tags, pid: string): (r: Tags)
    requires Acyclic(tags)
  {
    map k | k in tags ::
      if k in Ancestry(tags, pid) && Fresh(tags, k).Ok? then tags[k].(path := Some(Fresh(tags, k).value))
      else tags[k]
  }

  /** The repair rewrites cached paths only, and only on stored ancestors. */
  lemma RepairedFrame(tags: Tags, pid: string)
    requires Acyclic(tags)
    ensures SameShape(tags, Repaired(tags, pid))
    ensures WellKeyed(tags) ==> WellKeyed(Repaired(tags, pid))
    ensures forall k :: k in tags && k !in Ancestry(tags, pid) ==> Repaired(tags, pid)[k] == tags[k]
  {
  }

  /** A chain that starts outside the store repairs nothing. */
  lemma RepairedOutside(tags: Tags, pid: string)
    requires Acyclic(tags) && pid !in tags
    ensures Repaired(tags, pid) == tags
  {
    assert Ancestry(tags, pid) == [pid];
  }

  /** Repairing from `pid` is repairing from its parent, then writing `pid`'s fresh path. */
  lemma RepairedStep(tags: Tags, pid: string)
    requires Acyclic(tags) && pid in tags && Fresh(tags, pid).Ok?
    ensures var below := Repaired(tags, tags[pid].parentTagId);
            && below[pid] == tags[pid]
            && Repaired(tags, pid) == below[pid := tags[pid].(path := Some(Fresh(tags, pid).value))]
  {
    var q := tags[pid].parentTagId;
    NotOwnAncestor(tags, pid);
    assert Ancestry(tags, pid) == [pid] + Ancestry(tags, q);
    var below := Repaired(tags, q);
    var r := Repaired(tags, pid);
    var w := below[pid := tags[pid].(path := Some(Fresh(tags, pid).value))];
    assert r.Keys == w.Keys;
    forall k | k in r ensures r[k] == w[k] {
    }
  }

  /**
   * The write `getTagPath` makes after resolving the parent's own path in fix
   * mode: the parent's snapshot still matches, and writing its fresh path (or
   * skipping a write that would change nothing) completes the repair.
   */
  lemma RepairWriteStep(before: Tags, mid: Tags, pid: string, pp: Path)
    requires Acyclic(before) && pid in before && Fresh(before, pid) == Ok(pp)
    requires mid == Repaired(before, before[pid].parentTagId)
    ensures pid in mid && mid[pid] == before[pid]
    ensures Repaired(before, pid) == mid[pid := mid[pid].(path := Some(pp))]
    ensures before[pid].path == Some(pp) ==> Repaired(before, pid) == mid
  {
    var rec := before[pid];
    RepairedStep(before, pid);
    assert mid[pid] == rec;
    if rec.path == Some(pp) {
      assert rec.(path := Some(pp)) == rec;
      assert mid[pid := rec] == mid;
    }
  }

  // ---------------------------------------------------------------------------
  // Growing and shrinking the store

  /** Ids that a new record must not take: stored ids and ids some record names as parent. */
  function UsedIds(tags: Tags): set<string> {
    tags.Keys + set k | k in tags :: tags[k].parentTagId
  }

  lemma {:induction false} EndsWithoutNewId(tags: Tags, id: string, rec: TagRecord, q: string, n: nat)
    requires id !in UsedIds(tags) && q != id && Ends(tags, q, n)
    ensures Ends(tags[id := rec], q, n)
    decreases n
  {
    if q in tags {
      EndsWithoutNewId(tags, id, rec, tags[q].parentTagId, n - 1);
    }
  }

  /** Adding a record under an unused id, as a root or below a stored tag, keeps the store acyclic. */
  lemma InsertKeepsAcyclic(tags: Tags, id: string, rec: TagRecord)
    requires Acyclic(tags) && id !in UsedIds(tags)
    requires rec.parentTagId == "" || rec.parentTagId in tags
    requires id != ""
    ensures Acyclic(tags[id := rec])
  {
    var t := tags[id := rec];
    forall k | k in t ensures exists n: nat :: Ends(t, k, n) {
      if k == id {
        var p := rec.parentTagId;
        var n: nat := 0;
        if p in tags {
          n :| Ends(tags, p, n);
        }
        EndsWithoutNewId(tags, id, rec, p, n);
        assert Ends(t, k, n + 1);
      } else {
        var n: nat :| Ends(tags, k, n);
        EndsWithoutNewId(tags, id, rec, k, n);
      }
    }
  }

  lemma {:induction false} EndsAfterRemoval(tags: Tags, id: string, q: string, n: nat)
    requires Ends(tags, q, n)
    ensures Ends(tags - {id}, q, n)
    decreases n
  {
    if q in tags && q != id {
      EndsAfterRemoval(tags, id, tags[q].parentTagId, n - 1);
    }
  }

  /** Removing a record never creates a cycle. */
  lemma RemoveKeepsAcyclic(tags: Tags, id: string)
    requires Acyclic(tags)
    ensures Acyclic(tags - {id})
  {
    forall k | k in tags - {id} ensures exists n: nat :: Ends(tags - {id}, k, n) {
      var n: nat :| Ends(tags, k, n);
      EndsAfterRemoval(tags, id, k, n);
    }
  }

  // ---------------------------------------------------------------------------
  // Snapshot selectors over tag records

  /** The field values of a record as the store sees them. */
  datatype Field = Text(s: string) | Time(t: int) | Nodes(p: Path)

  function ToDoc(t: TagRecord): SS.Doc<Field> {
    var base := map["_id" := Text(t.id), "createdAt" := Time(t.createdAt), "modifiedAt" := Time(t.modifiedAt),
                    "name" := Text(t.name), "parentTagId" := Text(t.parentTagId)];
    if t.path.Some? then base["path" := Nodes(t.path.value)] else base
  }

  /** `stored` matches `strictSelector(snapshot, extraFields)`. */
  predicate SnapshotMatches(stored: TagRecord, snapshot: TagRecord, extraFields: seq<string>) {
    SS.Matches(ToDoc(stored), SS.StrictSelector(ToDoc(snapshot), extraFields))
  }

  /**
   * A compare-and-swap on a snapshot with extra fields drawn from name and
   * parentTagId succeeds exactly when the stored record agrees on the id, the
   * two timestamps and those extra fields.
   */
  lemma SnapshotMatchesIff(stored: TagRecord, snapshot: TagRecord, extraFields: seq<string>)
    requires forall f :: f in extraFields ==> f == "name" || f == "parentTagId"
    ensures SnapshotMatches(stored, snapshot, extraFields) <==>
              && stored.id == snapshot.id
              && stored.createdAt == snapshot.createdAt
              && stored.modifiedAt == snapshot.modifiedAt
              && ("name" in extraFields ==> stored.name == snapshot.name)
              && ("parentTagId" in extraFields ==> stored.parentTagId == snapshot.parentTagId)
  {
    var sd, nd := ToDoc(stored), ToDoc(snapshot);
    SS.MatchesIff(sd, nd, extraFields);
    DocFields(stored);
    DocFields(snapshot);
    var fields := SS.BaseFields + extraFields;
    assert "_id" in fields && "createdAt" in fields && "modifiedAt" in fields;
    if && stored.id == snapshot.id
       && stored.createdAt == snapshot.createdAt
       && stored.modifiedAt == snapshot.modifiedAt
       && ("name" in extraFields ==> stored.name == snapshot.name)
       && ("parentTagId" in extraFields ==> stored.parentTagId == snapshot.parentTagId)
    {
      forall f | f in fields ensures SS.Lookup(sd, f) == SS.Lookup(nd, f) {
        if f in extraFields {
          assert f == "name" || f == "parentTagId";
        } else {
          assert f in SS.BaseFields;
          assert f == "_id" || f == "createdAt" || f == "modifiedAt";
        }
      }
    }
  }

  /** A record always matches the selector built from itself. */
  lemma SnapshotMatchesItself(t: TagRecord, extraFields: seq<string>)
    ensures SnapshotMatches(t, t, extraFields)
  {
    SS.MatchesIff(ToDoc(t), ToDoc(t), extraFields);
  }

  lemma DocFields(t: TagRecord)
    ensures SS.Lookup(ToDoc(t), "_id") == Some(Text(t.id))
    ensures SS.Lookup(ToDoc(t), "createdAt") == Some(Time(t.createdAt))
    ensures SS.Lookup(ToDoc(t), "modifiedAt") == Some(Time(t.modifiedAt))
    ensures SS.Lookup(ToDoc(t), "name") == Some(Text(t.name))
    ensures SS.Lookup(ToDoc(t), "parentTagId") == Some(Text(t.parentTagId))
  {
  }

  // ---------------------------------------------------------------------------
  // Path invariant

  /** `p` with its last entry's id replaced by "", as `createTag` stores it. */
  function WithPendingLeaf(p: Path): Path
    requires |p| > 0
  {
    p[..|p| - 1] + [PathNode("", p[|p| - 1].name)]
  }

  /**
   * The cached path of stored tag `k` is correct: it is its fix-mode path,
   * or that path with the leaf id still "" as left by `createTag`.
   */
  ghost predicate PathSound(tags: Tags, k: string)
    requires Acyclic(tags) && k in tags && tags[k].path.Some?
  {
    var expected := Fresh(tags, k);
    && expected.Ok?
    && (tags[k].path.value == expected.value || tags[k].path.value == WithPendingLeaf(expected.value))
  }

  /** Every cached path present in the store is correct. */
  ghost predicate Sound(tags: Tags)
    requires Acyclic(tags)
  {
    forall k :: k in tags && tags[k].path.Some? ==> PathSound(tags, k)
  }

  // ---------------------------------------------------------------------------
  // fixPath

  /** `fixPath`'s compare-and-swap hits: `strictSelector(tag, ['name'])` matches the stored record. */
  predicate FixPathHits(tags: Tags, tag: TagRecord) {
    tag.id in tags && SnapshotMatches(tags[tag.id], tag, ["name"])
  }

  /** Whether `fixPath`'s compare-and-swap hits does not depend on cached paths. */
  lemma SameShapeSameHits(a: Tags, b: Tags, tag: TagRecord)
    requires SameShape(a, b)
    ensures FixPathHits(a, tag) <==> FixPathHits(b, tag)
  {
    if tag.id in a {
      SnapshotMatchesIff(a[tag.id], tag, ["name"]);
      SnapshotMatchesIff(b[tag.id], tag, ["name"]);
      assert a[tag.id].(path := None) == b[tag.id].(path := None);
    }
  }

  /**
   * The store after `fixPath(tag)`: nothing on an error; otherwise the writes of
   * path resolution, then the snapshot's path set when the compare-and-swap hits.
   */
  ghost function FixedStore(tags: Tags, tag: TagRecord, fix: bool): (r: Tags)
    requires Acyclic(tags)
  {
    var p := ResolvePath(tags, RefOf(tag), fix);
    if p.Err? then tags
    else
      var resolved := if fix then Repaired(tags, tag.parentTagId) else tags;
      if FixPathHits(tags, tag) then resolved[tag.id := resolved[tag.id].(path := Some(p.value))]
      else resolved
  }

  /** What `fixPath` leaves behind, given the store as path resolution left it. */
  lemma FixPathOutcome(before: Tags, resolved: Tags, tag: TagRecord, fix: bool)
    requires Acyclic(before) && ResolvePath(before, RefOf(tag), fix).Ok?
    requires resolved == if fix then Repaired(before, tag.parentTagId) else before
    ensures FixPathHits(resolved, tag) <==> FixPathHits(before, tag)
    ensures !FixPathHits(before, tag) ==> resolved == FixedStore(before, tag, fix)
    ensures FixPathHits(before, tag) ==>
              var written := resolved[tag.id := resolved[tag.id].(path := Some(ResolvePath(before, RefOf(tag), fix).value))];
              && SameShape(before, written) && Acyclic(written) && written == FixedStore(before, tag, fix)
              && (WellKeyed(before) ==> WellKeyed(written))
  {
    RepairedFrame(before, tag.parentTagId);
    SameShapeSameHits(before, resolved, tag);
    var p := ResolvePath(before, RefOf(tag), fix).value;
    var fixed := FixedStore(before, tag, fix);
    if FixPathHits(before, tag) {
      WriteKeepsShape(before, resolved, tag.id, Some(p));
      assert fixed == resolved[tag.id := resolved[tag.id].(path := Some(p))];
    } else {
      assert fixed == resolved;
    }
  }

  /** Writing one cached path into a store shaped like `before` keeps it shaped like `before`. */
  lemma WriteKeepsShape(before: Tags, cur: Tags, k: string, p: Option<Path>)
    requires Acyclic(before) && SameShape(before, cur) && k in cur
    requires WellKeyed(before) ==> WellKeyed(cur)
    ensures var written := cur[k := cur[k].(path := p)];
            && SameShape(before, written) && Acyclic(written)
            && (WellKeyed(before) ==> WellKeyed(written))
  {
    var written := cur[k := cur[k].(path := p)];
    assert SameShape(before, written) by {
      forall j | j in before ensures before[j].(path := None) == written[j].(path := None) {
        assert before[j].(path := None) == cur[j].(path := None);
      }
    }
    SameParentsSameChains(before, written);
  }

  // ---------------------------------------------------------------------------
  // renameTag

  /** The position of the first entry whose id is in `ids`, or `|p|` when there is none. */
  function FirstIndexIn(p: Path, ids: set<string>): (i: nat)
    ensures i <= |p|
    ensures i < |p| ==> p[i].id in ids
    ensures forall j :: 0 <= j < i ==> p[j].id !in ids
  {
    if p == [] then 0
    else if p[0].id in ids then 0
    else 1 + FirstIndexIn(p[1..], ids)
  }

  /** The positional update `path.$.name`: rename entry `i` if there is one. */
  function RenameAt(p: Path, i: nat, newName: string): (r: Path)
    ensures |r| == |p|
    ensures forall j :: 0 <= j < |p| ==> r[j].id == p[j].id
    ensures forall j :: 0 <= j < |p| ==> r[j].name == if j == i then newName else p[j].name
  {
    if i < |p| then p[i := p[i].(name := newName)] else p
  }

  /**
   * The primary selector of `renameTag`: the snapshot (id, timestamps, name)
   * still matches, and the path is absent or empty or has an entry with id ""
   * or the tag's id.
   */
  predicate RenameHits(stored: TagRecord, tag: TagRecord) {
    && SnapshotMatches(stored, tag, ["name"])
    && (stored.path.None? || stored.path.value == [] || FirstIndexIn(stored.path.value, {"", tag.id}) < |stored.path.value|)
  }

  /** The primary update: the new name, and the first entry with id "" or the tag's id renamed. */
  function PrimaryRenamed(stored: TagRecord, tag: TagRecord, newName: string): TagRecord {
    stored.(name := newName,
            path := if stored.path.None? then None
                    else Some(RenameAt(stored.path.value, FirstIndexIn(stored.path.value, {"", tag.id}), newName)))
  }

  /** The cascade selector: another tag whose path names the tag's id and has no entry named `newName`. */
  predicate CascadeHits(rec: TagRecord, tagId: string, newName: string) {
    && rec.id != tagId
    && rec.path.Some?
    && FirstIndexIn(rec.path.value, {tagId}) < |rec.path.value|
    && forall j :: 0 <= j < |rec.path.value| ==> rec.path.value[j].name != newName
  }

  /** The cascade update: the first entry with the tag's id renamed. */
  function CascadeRenamed(rec: TagRecord, tagId: string, newName: string): TagRecord
    requires rec.path.Some?
  {
    rec.(path := Some(RenameAt(rec.path.value, FirstIndexIn(rec.path.value, {tagId}), newName)))
  }

  /** The store after a `renameTag` whose primary update hit. */
  function Renamed(tags: Tags, tag: TagRecord, newName: string): (r: Tags)
    requires tag.id in tags
    ensures r.Keys == tags.Keys
    ensures forall k :: k in tags ==>
              && r[k].id == tags[k].id && r[k].parentTagId == tags[k].parentTagId
              && r[k].createdAt == tags[k].createdAt && r[k].modifiedAt == tags[k].modifiedAt
    ensures r[tag.id].name == newName
    ensures var p := tags[tag.id].path;
            r[tag.id].path == if p.None? then None else Some(RenameAt(p.value, FirstIndexIn(p.value, {"", tag.id}), newName))
    ensures forall k :: k in tags && k != tag.id ==> r[k].name == tags[k].name
    ensures forall k :: k in tags && k != tag.id ==>
              r[k].path == if CascadeHits(tags[k], tag.id, newName) then CascadeRenamed(tags[k], tag.id, newName).path
                           else tags[k].path
  {
    var primary := tags[tag.id := PrimaryRenamed(tags[tag.id], tag, newName)];
    map k | k in primary ::
      if k != tag.id && CascadeHits(primary[k], tag.id, newName) then CascadeRenamed(primary[k], tag.id, newName)
      else primary[k]
  }

  lemma RenamedKeepsKeysAndParents(tags: Tags, tag: TagRecord, newName: string)
    requires WellKeyed(tags) && tag.id in tags
    ensures WellKeyed(Renamed(tags, tag, newName)) && SameParents(tags, Renamed(tags, tag, newName))
  {
  }

  // ---------------------------------------------------------------------------
  // getAllDescendantsByPath

  /** The filter of `getAllDescendantsByPath`: other tags whose path has the tag's id and the tag's name. */
  function ByPathIds(tags: Tags, tag: TagRecord): set<string> {
    set k | k in tags && k != tag.id && tags[k].path.Some?
              && (exists i :: 0 <= i < |tags[k].path.value| && tags[k].path.value[i].id == tag.id)
              && (exists j :: 0 <= j < |tags[k].path.value| && tags[k].path.value[j].name == tag.name)
  }

  // ---------------------------------------------------------------------------
  // setTagParent

  /** `setTagParent`'s compare-and-swap hits: `strictSelector(tag, ['parentTagId'])` matches. */
  predicate ReparentHits(tags: Tags, tag: TagRecord) {
    tag.id in tags && SnapshotMatches(tags[tag.id], tag, ["parentTagId"])
  }

  /** The store after `setTagParent`'s update: the new parent and the path computed for it. */
  function Reparented(tags: Tags, id: string, newParentTagId: string, path: Path): (r: Tags)
    requires id in tags
    ensures r.Keys == tags.Keys
    ensures r[id].parentTagId == newParentTagId && r[id].path == Some(path)
    ensures r[id].(parentTagId := tags[id].parentTagId, path := tags[id].path) == tags[id]
    ensures forall k :: k in tags && k != id ==> r[k] == tags[k]
  {
    tags[id := tags[id].(parentTagId := newParentTagId, path := Some(path))]
  }

  /**
   * What `setTagParent(tag, newParentTagId)` leaves behind, from store `before` to store `after` with result `r`:
   * a failed path lookup or a stale snapshot changes nothing; on a hit the tag is moved and every tag found by
   * path below it is counted, and in fix mode re-pathed.
   */
  ghost predicate ReparentOutcome(before: Tags, after: Tags, tag: TagRecord, newParentTagId: string, fix: bool,
                                  r: Result<int>)
    requires Acyclic(before)
  {
    var p := ResolvePath(before, TagRef(tag.id, tag.name, newParentTagId, None), false);
    if p.Err? then r == Err(p.error) && after == before
    else if !ReparentHits(before, tag) then r == Ok(0) && after == before
    else
      var moved := Reparented(before, tag.id, newParentTagId, p.value);
      var below := ByPathIds(moved, tag);
      && (!fix ==> r == Ok(1 + |below|) && after == moved)
      && (fix ==> && RepathedFrom(moved, after)
                  && (r.Ok? <==> forall d :: d in below ==> Fresh(moved, d).Ok?)
                  && (r.Err? ==> exists d :: d in below && Fresh(moved, d) == Err(r.error))
                  && (r.Ok? ==> r == Ok(1 + |below|) && forall d :: d in below ==> PathFresh(after, d)))
  }

  /** A chain that never meets `id` ends just as before when `id`'s record is rewritten. */
  lemma {:induction false} EndsAvoiding(tags: Tags, id: string, rec: TagRecord, q: string)
    requires Acyclic(tags) && id !in Ancestry(tags, q)
    ensures Ends(tags[id := rec], q, Height(tags, q))
    decreases Height(tags, q)
  {
    if q in tags {
      var p := tags[q].parentTagId;
      HeightStep(tags, q);
      EndsAvoiding(tags, id, rec, p);
      HeightNIndependent(tags[id := rec], p, Height(tags, p), Height(tags, q) - 1);
    }
  }

  /** Once the rewritten record's chain ends, every chain of the old store ends too. */
  lemma {:induction false} EndsThrough(tags: Tags, id: string, rec: TagRecord, q: string, m: nat)
    requires Acyclic(tags) && id in tags && Ends(tags[id := rec], id, m)
    ensures Ends(tags[id := rec], q, Height(tags, q) + m)
    decreases Height(tags, q)
  {
    var t := tags[id := rec];
    if q == id {
      HeightNIndependent(t, id, m, Height(tags, q) + m);
    } else if q in tags {
      var p := tags[q].parentTagId;
      HeightStep(tags, q);
      EndsThrough(tags, id, rec, p, m);
      HeightNIndependent(t, p, Height(tags, p) + m, Height(tags, q) + m - 1);
    }
  }

  /** Moving a tag under a parent that is neither itself nor one of its descendants keeps the store acyclic. */
  lemma ReparentKeepsAcyclic(tags: Tags, id: string, newParentTagId: string, path: Path)
    requires Acyclic(tags) && id in tags
    requires newParentTagId != id && newParentTagId !in Descendants(tags, id)
    ensures Acyclic(Reparented(tags, id, newParentTagId, path))
  {
    var t := Reparented(tags, id, newParentTagId, path);
    var rec := t[id];
    assert t == tags[id := rec];
    if newParentTagId in tags {
      assert Ancestry(tags, newParentTagId) == [newParentTagId] + Ancestry(tags, tags[newParentTagId].parentTagId);
    }
    EndsAvoiding(tags, id, rec, newParentTagId);
    var m := Height(tags, newParentTagId) + 1;
    assert Ends(t, id, m);
    forall k | k in t ensures exists n: nat :: Ends(t, k, n) {
      EndsThrough(tags, id, rec, k, m);
    }
  }

  /** Moving a tag under itself leaves a record whose chain never ends. */
  lemma ReparentOntoItselfCycles(tags: Tags, id: string, path: Path)
    requires id in tags
    ensures !Acyclic(Reparented(tags, id, id, path))
  {
    var t := Reparented(tags, id, id, path);
    forall n: nat ensures !Ends(t, id, n) {
      SelfLoopNeverEnds(t, id, n);
    }
  }

  lemma {:induction false} SelfLoopNeverEnds(t: Tags, id: string, n: nat)
    requires id in t && t[id].parentTagId == id
    ensures !Ends(t, id, n)
    decreases n
  {
    if n > 0 {
      SelfLoopNeverEnds(t, id, n - 1);
    }
  }

  /** `b` is `a` with some cached paths replaced by their fix-mode paths. */
  ghost predicate RepathedFrom(a: Tags, b: Tags) {
    && Acyclic(a) && SameShape(a, b)
    && forall k :: k in a ==> b[k].path == a[k].path || (Fresh(a, k).Ok? && b[k].path == Some(Fresh(a, k).value))
  }

  /** Stored tag `k` holds its fix-mode path. */
  ghost predicate PathFresh(tags: Tags, k: string) {
    Acyclic(tags) && k in tags && tags[k].path.Some? && Fresh(tags, k) == Ok(tags[k].path.value)
  }

  lemma RepathedFresh(a: Tags, b: Tags)
    requires Acyclic(a) && SameShape(a, b)
    ensures Acyclic(b) && forall k :: k in b ==> Fresh(b, k) == Fresh(a, k)
  {
    SameParentsSameChains(a, b);
    forall k | k in b ensures Fresh(b, k) == Fresh(a, k) {
      SameShapeSameFresh(a, b, RefOf(a[k]));
      FixIgnoresCachedPaths(b, RefOf(b[k]), a[k].path);
      assert a[k].(path := None) == b[k].(path := None);
      assert RefOf(b[k]).(path := a[k].path) == RefOf(a[k]);
    }
  }

  /** A fix-mode repair writes only fix-mode paths. */
  lemma RepairedRepaths(a: Tags, b: Tags, q: string)
    requires RepathedFrom(a, b)
    ensures Acyclic(b) && RepathedFrom(a, Repaired(b, q))
    ensures forall d :: PathFresh(b, d) ==> PathFresh(Repaired(b, q), d)
  {
    RepathedFresh(a, b);
    RepairedFrame(b, q);
    var c := Repaired(b, q);
    RepathedFresh(a, c);
  }

  /**
   * `fixPath` in fix mode on a snapshot taken from `moved` while the store is a
   * repathed `moved`: it hits, it resolves the snapshot's fix-mode path, and it
   * leaves the store repathed with that record's path correct.
   */
  lemma FixPathRepaths(moved: Tags, cur: Tags, rec: TagRecord)
    requires RepathedFrom(moved, cur) && rec.id in moved && rec == moved[rec.id]
    ensures Acyclic(cur) && FixPathHits(cur, rec)
    ensures ResolvePath(cur, RefOf(rec), true) == Fresh(moved, rec.id)
    ensures RepathedFrom(moved, FixedStore(cur, rec, true))
    ensures Fresh(moved, rec.id).Ok? ==> PathFresh(FixedStore(cur, rec, true), rec.id)
    ensures forall d :: PathFresh(cur, d) ==> PathFresh(FixedStore(cur, rec, true), d)
  {
    RepathedFresh(moved, cur);
    var ref := RefOf(rec);
    SameShapeSameFresh(moved, cur, ref);
    assert Fresh(moved, rec.id) == ResolvePath(moved, ref, true);
    SnapshotMatchesItself(rec, ["name"]);
    SameShapeSameHits(moved, cur, rec);
    var p := ResolvePath(cur, ref, true);
    if p.Ok? {
      var resolved := Repaired(cur, rec.parentTagId);
      FixPathOutcome(cur, resolved, rec, true);
      RepairedRepaths(moved, cur, rec.parentTagId);
      FreshWrite(moved, resolved, rec.id);
    } else {
      assert FixedStore(cur, rec, true) == cur;
    }
  }

  /**
   * What the fix-mode cascade `for (thisTag of recs) tagsUpdated += await fixPath(thisTag)`
   * returns over snapshots of `moved`: one update per snapshot when every one
   * resolves, otherwise the error of the first that does not.
   */
  function CascadeOutcome(moved: Tags, recs: seq<TagRecord>): (r: Result<int>)
    requires Acyclic(moved) && AllStored(moved, recs)
    ensures r.Ok? <==> forall j :: 0 <= j < |recs| ==> Fresh(moved, recs[j].id).Ok?
    ensures r.Ok? ==> r.value == |recs|
    ensures r.Err? ==> exists j :: && 0 <= j < |recs| && Fresh(moved, recs[j].id) == Err(r.error)
                                   && forall i :: 0 <= i < j ==> Fresh(moved, recs[i].id).Ok?
    decreases |recs|
  {
    if recs == [] then Ok(0)
    else
      var rest := recs[1..];
      assert forall j :: 0 <= j < |rest| ==> rest[j] == recs[j + 1];
      match Fresh(moved, recs[0].id)
      case Err(e) => Err(e)
      case Ok(_) =>
        match CascadeOutcome(moved, rest)
        case Err(e) =>
          ghost var j :| && 0 <= j < |rest| && Fresh(moved, rest[j].id) == Err(e)
                         && forall i :: 0 <= i < j ==> Fresh(moved, rest[i].id).Ok?;
          assert forall i :: 0 <= i < j + 1 ==> Fresh(moved, recs[i].id).Ok? by {
            forall i | 0 <= i < j + 1 ensures Fresh(moved, recs[i].id).Ok? {
              if i > 0 { assert recs[i] == rest[i - 1]; }
            }
          }
          Err(e)
        case Ok(n) => Ok(n + 1)
  }

  /** The cascade's result is fixed by the first snapshot that fails to resolve, if any. */
  lemma CascadeStopsAt(moved: Tags, recs: seq<TagRecord>, i: nat)
    requires Acyclic(moved) && AllStored(moved, recs) && i < |recs|
    requires forall j :: 0 <= j < i ==> Fresh(moved, recs[j].id).Ok?
    requires Fresh(moved, recs[i].id).Err?
    ensures CascadeOutcome(moved, recs) == Err(Fresh(moved, recs[i].id).error)
  {
  }

  /** The cascade's outcome seen as a set of ids: it fails exactly when some id fails, with that id's error. */
  lemma CascadeOverIds(moved: Tags, recs: seq<TagRecord>)
    requires Acyclic(moved) && AllStored(moved, recs)
    ensures CascadeOutcome(moved, recs).Ok? <==> forall d :: d in Ids(recs) ==> Fresh(moved, d).Ok?
    ensures CascadeOutcome(moved, recs).Err? ==>
              exists d :: d in Ids(recs) && Fresh(moved, d) == Err(CascadeOutcome(moved, recs).error)
  {
    var r := CascadeOutcome(moved, recs);
    if r.Err? {
      var j :| 0 <= j < |recs| && Fresh(moved, recs[j].id) == Err(r.error);
      assert recs[j].id in Ids(recs);
    } else {
      forall d | d in Ids(recs) ensures Fresh(moved, d).Ok? {
        var j :| 0 <= j < |recs| && recs[j].id == d;
      }
    }
  }

  /**
   * Once the first `i` snapshots hold their fresh paths, the cascade's result is
   * fixed by snapshot `i`, or is one update each when no snapshot is left.
   */
  lemma CascadeAfterPrefix(moved: Tags, cur: Tags, recs: seq<TagRecord>, i: nat)
    requires RepathedFrom(moved, cur) && AllStored(moved, recs) && i <= |recs|
    requires forall j :: 0 <= j < i ==> PathFresh(cur, recs[j].id)
    ensures i < |recs| && Fresh(moved, recs[i].id).Err? ==>
              CascadeOutcome(moved, recs) == Err(Fresh(moved, recs[i].id).error)
    ensures i == |recs| ==> CascadeOutcome(moved, recs) == Ok(|recs|)
  {
    RepathedFresh(moved, cur);
    forall j | 0 <= j < i ensures Fresh(moved, recs[j].id).Ok? {
      assert PathFresh(cur, recs[j].id);
    }
    if i < |recs| && Fresh(moved, recs[i].id).Err? {
      CascadeStopsAt(moved, recs, i);
    }
  }

  /** `FixPathRepaths` for the i-th of a list of snapshots whose first i records already hold fix-mode paths. */
  lemma FixPathRepathsPrefix(moved: Tags, cur: Tags, recs: seq<TagRecord>, i: nat)
    requires RepathedFrom(moved, cur) && i < |recs| && AllStored(moved, recs)
    requires forall j :: 0 <= j < i ==> PathFresh(cur, recs[j].id)
    ensures Acyclic(cur) && FixPathHits(cur, recs[i])
    ensures ResolvePath(cur, RefOf(recs[i]), true) == Fresh(moved, recs[i].id)
    ensures RepathedFrom(moved, FixedStore(cur, recs[i], true))
    ensures Fresh(moved, recs[i].id).Ok? ==>
              forall j :: 0 <= j <= i ==> PathFresh(FixedStore(cur, recs[i], true), recs[j].id)
  {
    FixPathRepaths(moved, cur, recs[i]);
    forall j | 0 <= j < i ensures PathFresh(FixedStore(cur, recs[i], true), recs[j].id) {
      assert PathFresh(cur, recs[j].id);
    }
  }

  /** Writing a record's fix-mode path into a repathed store keeps it repathed. */
  lemma FreshWrite(moved: Tags, cur: Tags, k: string)
    requires RepathedFrom(moved, cur) && k in moved && Fresh(moved, k).Ok?
    ensures var next := cur[k := cur[k].(path := Some(Fresh(moved, k).value))];
            && RepathedFrom(moved, next) && PathFresh(next, k)
            && forall d :: PathFresh(cur, d) ==> PathFresh(next, d)
  {
    var next := cur[k := cur[k].(path := Some(Fresh(moved, k).value))];
    PathWrite(cur, k, Some(Fresh(moved, k).value));
    RepathedFresh(moved, next);
    RepathedFresh(moved, cur);
  }

  /** `fixPath` without fix mode, on the current record with a cached path, writes that same path back. */
  lemma FixPathCachedIsIdentity(tags: Tags, rec: TagRecord)
    requires Acyclic(tags) && rec.id in tags && tags[rec.id] == rec && rec.path.Some?
    ensures FixPathHits(tags, rec)
    ensures ResolvePath(tags, RefOf(rec), false) == Ok(rec.path.value)
    ensures FixedStore(tags, rec, false) == tags
  {
    SnapshotMatchesItself(rec, ["name"]);
  }
}
