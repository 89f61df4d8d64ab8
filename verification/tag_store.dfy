/**
 * The `tags` collection as an in-memory store and the tag operations that
 * read and update it. Each method is specified by the functions of TagModel.
 */
module TagStores {
  import opened Outcomes
  import opened TagModel
  import StoreIds

  /** A query cursor's `fetch()`: the members of `s`, once each, in some order. */
  method Enumerate<T>(s: set<T>) returns (r: seq<T>)
    ensures forall i, j :: 0 <= i < j < |r| ==> r[i] != r[j]
    ensures forall x :: x in r <==> x in s
    ensures |r| == |s|
  {
    r := [];
    var rest := s;
    while rest != {}
      invariant forall i, j :: 0 <= i < j < |r| ==> r[i] != r[j]
      invariant forall x :: x in r <==> x in s && x !in rest
      invariant rest <= s
      invariant |r| + |rest| == |s|
      decreases rest
    {
      var x :| x in rest;
      r := r + [x];
      rest := rest - {x};
    }
  }

  /** `createTag`'s input: every field optional. */
  datatype TagInput = TagInput(name: Option<string>, parentTagId: Option<string>) {
    /** The parent id with its default, "" (a root). */
    function ParentId(): string {
      parentTagId.GetOr("")
    }

    /** What `createTag` resolves a path for: the leaf has the id "" and no cached path. */
    function Ref(): TagRef
      requires name.Some?
    {
      TagRef("", name.value, ParentId(), None)
    }
  }

  class TagStore {
    var tags: Tags

    ghost predicate Valid()
      reads this
    {
      WellKeyed(tags)
    }

    constructor ()
      ensures Valid() && Acyclic(tags) && tags == map[]
    {
      tags := map[];
    }

    /** The stored records with the given ids, once each, in some order. */
    method Fetch(ids: set<string>) returns (recs: seq<TagRecord>)
      requires Valid() && ids <= tags.Keys
      ensures DistinctIds(recs) && AllStored(tags, recs) && Ids(recs) == ids
      ensures |recs| == |ids|
    {
      var order := Enumerate(ids);
      recs := [];
      var i := 0;
      while i < |order|
        invariant 0 <= i <= |order| && |recs| == i
        invariant forall j :: 0 <= j < i ==> recs[j] == tags[order[j]] && recs[j].id == order[j]
      {
        recs := recs + [tags[order[i]]];
        i := i + 1;
      }
      forall k | k in ids ensures k in Ids(recs) {
        var i :| 0 <= i < |order| && order[i] == k;
        assert recs[i].id == k;
      }
    }

    /** `assertParentTag(parentTagId)`: the parent record, or RecordNotFound naming the id. */
    method AssertParentTag(parentTagId: string) returns (r: Result<TagRecord>)
      requires Valid()
      ensures r.Ok? <==> parentTagId in tags
      ensures r.Ok? ==> r.value == tags[parentTagId] && r.value.id == parentTagId
      ensures r.Err? ==> r.error == RecordNotFound(ParentNotFound, parentTagId)
    {
      if parentTagId !in tags {
        return Err(RecordNotFound(ParentNotFound, parentTagId));
      }
      r := Ok(tags[parentTagId]);
    }

    /**
     * `getTagPath(ref, fix)`. It returns what ResolvePath specifies; in fix mode a
     * successful call leaves every stored ancestor holding its freshly resolved
     * path, and any other call writes nothing.
     */
    method GetTagPath(ref: TagRef, fix: bool) returns (r: Result<Path>)
      requires Valid() && Acyclic(tags)
      modifies this
      ensures Valid() && Acyclic(tags) && SameShape(old(tags), tags)
      ensures r == ResolvePath(old(tags), ref, fix)
      ensures tags == if fix && r.Ok? then Repaired(old(tags), ref.parentTagId) else old(tags)
      decreases Height(tags, ref.parentTagId)
    {
      if !fix && ref.path.Some? {
        return Ok(ref.path.value);
      }
      var leaf := PathNode(ref.id, ref.name);
      if ref.parentTagId == "" {
        RepairedOutside(tags, "");
        return Ok([leaf]);
      }
      var found := AssertParentTag(ref.parentTagId);
      if found.Err? {
        return Err(found.error);
      }
      var parent := found.value;
      ghost var before := tags;
      HeightStep(tags, ref.parentTagId);
      var parentPath := GetTagPath(RefOf(parent), fix);
      if parentPath.Err? {
        return Err(parentPath.error);
      }
      if fix {
        RepairWriteStep(before, tags, parent.id, parentPath.value);
        SnapshotMatchesItself(parent, ["name", "parentTagId"]);
        if parent.path != Some(parentPath.value) {
          // strictSelector(parentTag, ['name', 'parentTagId'])
          if SnapshotMatches(tags[parent.id], parent, ["name", "parentTagId"]) {
            tags := tags[parent.id := tags[parent.id].(path := Some(parentPath.value))];
          }
        }
        assert tags == Repaired(before, ref.parentTagId);
        RepairedFrame(before, ref.parentTagId);
        SameParentsSameChains(before, tags);
      }
      r := Ok(parentPath.value + [leaf]);
    }
  
    /** `insertAsync`: store a new record under a fresh, unreferenced server-chosen id. */
    method Insert(createdAt: int, modifiedAt: int, name: string, parentTagId: string, path: Option<Path>)
      returns (id: string)
      requires Valid() && Acyclic(tags)
      requires parentTagId == "" || parentTagId in tags
      modifies this
      ensures Valid() && Acyclic(tags)
      ensures id != "" && id !in UsedIds(old(tags))
      ensures tags == old(tags)[id := TagRecord(id, createdAt, modifiedAt, name, parentTagId, path)]
    {
      StoreIds.FreshIdExists(UsedIds(tags));
      id :| id !in UsedIds(tags) && id != "";
      var rec := TagRecord(id, createdAt, modifiedAt, name, parentTagId, path);
      InsertKeepsAcyclic(tags, id, rec);
      tags := tags[id := rec];
    }

    /**
     * `createTag(input)` at clock reading `now`, with the `fixPath` setting as
     * `fix`. The new record's own path entry carries the id "" because the path
     * is resolved before the id exists.
     */
    method CreateTag(input: TagInput, fix: bool, now: int) returns (r: Result<string>)
      requires Valid() && Acyclic(tags)
      modifies this
      ensures Valid() && Acyclic(tags)
      ensures input.name.None? ==> r == Err(ValidationError(TagNameRequired))
      ensures input.name.Some? && input.ParentId() != "" && input.ParentId() !in old(tags) ==>
                r == Err(RecordNotFound(ParentNotFound, input.ParentId()))
      ensures r.Err? ==> tags == old(tags)
      ensures input.name.Some? ==>
                var p := ResolvePath(old(tags), input.Ref(), fix);
                && (r.Ok? <==> p.Ok?)
                && (p.Err? ==> r == Err(p.error))
                && (r.Ok? ==>
                      && r.value != "" && r.value !in UsedIds(old(tags))
                      && tags == (if fix then Repaired(old(tags), input.ParentId()) else old(tags))
                                 [r.value := TagRecord(r.value, now, now, input.name.value, input.ParentId(), Some(p.value))])
    {
      if input.name.None? {
        return Err(ValidationError(TagNameRequired));
      }
      var name := input.name.value;
      var parentTagId := input.ParentId();
      if parentTagId != "" {
        var found := AssertParentTag(parentTagId);
        if found.Err? {
          return Err(found.error);
        }
      }
      ghost var before := tags;
      var path := GetTagPath(TagRef("", name, parentTagId, None), fix);
      if path.Err? {
        return Err(path.error);
      }
      var id := Insert(now, now, name, parentTagId, Some(path.value));
      assert UsedIds(before) == UsedIds(old(tags)) by {
        RepairedFrame(before, parentTagId);
      }
      r := Ok(id);
    }

    /**
     * `renameTag(tag, newName)`: when the snapshot still matches, rename the tag
     * and its own path entry, then rename its entry in the paths of other tags.
     */
    method RenameTag(tag: TagRecord, newName: string) returns (updated: bool)
      requires Valid()
      modifies this
      ensures Valid()
      ensures updated <==> tag.id in old(tags) && RenameHits(old(tags)[tag.id], tag)
      ensures tags == if updated then Renamed(old(tags), tag, newName) else old(tags)
      ensures SameParents(old(tags), tags)
    {
      if tag.id !in tags || !RenameHits(tags[tag.id], tag) {
        return false;
      }
      ghost var before := tags;
      tags := tags[tag.id := PrimaryRenamed(tags[tag.id], tag, newName)];
      tags := map k | k in tags ::
        if k != tag.id && CascadeHits(tags[k], tag.id, newName) then CascadeRenamed(tags[k], tag.id, newName)
        else tags[k];
      assert tags == Renamed(before, tag, newName);
      RenamedKeepsKeysAndParents(before, tag, newName);
      updated := true;
    }

    /**
     * `getAllDescendants(tag)`: a breadth-first walk that asks the store for the
     * children of each tag it reaches. It finds every descendant exactly once.
     */
    method GetAllDescendants(tag: TagRecord) returns (result: seq<TagRecord>)
      requires Valid() && Acyclic(tags)
      ensures DistinctIds(result) && AllStored(tags, result)
      ensures Ids(result) == Descendants(tags, tag.id)
    {
      ghost var below := Descendants(tags, tag.id);
      var queue := [tag];
      result := [];
      ghost var done: set<string> := {};
      assert Ids(queue) == {tag.id} by { assert queue[0].id == tag.id; }
      while queue != []
        invariant DistinctIds(result) && AllStored(tags, result) && DistinctIds(queue)
        invariant WalkState(tags, tag.id, done, Ids(result), Ids(queue))
        decreases |below - Ids(result)|, |queue|
      {
        var children := Fetch(Children(tags, queue[0].id));
        WalkAdvance(tags, tag.id, done, result, queue, children);
        done := done + {queue[0].id};
        if children == [] {
          assert result + children == result;
        }
        result := result + children;
        queue := queue[1..] + children;
      }
      WalkDone(tags, tag.id, done, Ids(result));
    }

    /** `getAllDescendantsByPath(tag)`: the records that ByPathIds selects, once each. */
    method GetAllDescendantsByPath(tag: TagRecord) returns (found: seq<TagRecord>)
      requires Valid()
      ensures DistinctIds(found) && AllStored(tags, found)
      ensures Ids(found) == ByPathIds(tags, tag) && |found| == |ByPathIds(tags, tag)|
    {
      found := Fetch(ByPathIds(tags, tag));
    }

    /** `removeTag(tagId)`: delete one record; its children are left in place. */
    method RemoveTag(tagId: string) returns (removed: bool)
      requires Valid()
      modifies this
      ensures Valid()
      ensures removed <==> tagId in old(tags)
      ensures tags == old(tags) - {tagId}
      ensures Acyclic(old(tags)) ==> Acyclic(tags)
    {
      removed := tagId in tags;
      if Acyclic(tags) {
        RemoveKeepsAcyclic(tags, tagId);
      }
      tags := tags - {tagId};
    }

    /**
     * `fixPath(tag)`: resolve the tag's path (in fix mode when `fix`), then
     * store it on the record if `strictSelector(tag, ['name'])` still matches.
     * The count is the number of records that update touched.
     */
    method FixPath(tag: TagRecord, fix: bool) returns (r: Result<int>)
      requires Valid() && Acyclic(tags)
      modifies this
      ensures Valid() && Acyclic(tags) && SameShape(old(tags), tags)
      ensures var p := ResolvePath(old(tags), RefOf(tag), fix);
              r == if p.Err? then Err(p.error) else Ok(if FixPathHits(old(tags), tag) then 1 else 0)
      ensures tags == FixedStore(old(tags), tag, fix)
    {
      ghost var before := tags;
      var p := GetTagPath(RefOf(tag), fix);
      if p.Err? {
        return Err(p.error);
      }
      FixPathOutcome(before, tags, tag, fix);
      if tag.id in tags && SnapshotMatches(tags[tag.id], tag, ["name"]) {
        tags := tags[tag.id := tags[tag.id].(path := Some(p.value))];
        return Ok(1);
      }
      r := Ok(0);
    }

    /**
     * `setTagParent(tag, newParentTagId)`, then `fixPath` (with the `fixPath`
     * setting as `fix`) on every tag found by path under the moved tag. The new
     * path is resolved without fix mode before the compare-and-swap.
     */
    method SetTagParent(tag: TagRecord, newParentTagId: string, fix: bool) returns (r: Result<int>)
      requires Valid() && Acyclic(tags)
      requires newParentTagId != tag.id && newParentTagId !in Descendants(tags, tag.id)
      modifies this
      ensures Valid() && Acyclic(tags)
      ensures ReparentOutcome(old(tags), tags, tag, newParentTagId, fix, r)
    {
      var p := GetTagPath(TagRef(tag.id, tag.name, newParentTagId, None), false);
      if p.Err? {
        r := Err(p.error);
      } else {
        var hit := MoveTag(tag, newParentTagId, p.value);
        if !hit {
          r := Ok(0);
        } else {
          var fixed := FixDescendantPaths(tag, fix);
          r := if fixed.Err? then Err(fixed.error) else Ok(1 + fixed.value);
        }
      }
    }

    /** The second half of `setTagParent`: `fixPath` on every tag that `getAllDescendantsByPath(tag)` returns. */
    method FixDescendantPaths(tag: TagRecord, fix: bool) returns (r: Result<int>)
      requires Valid() && Acyclic(tags)
      modifies this
      ensures Valid() && Acyclic(tags)
      ensures !fix ==> r == Ok(|ByPathIds(old(tags), tag)|) && tags == old(tags)
      ensures fix ==> && RepathedFrom(old(tags), tags)
                      && (r.Ok? ==> && r == Ok(|ByPathIds(old(tags), tag)|)
                                    && forall d :: d in ByPathIds(old(tags), tag) ==> PathFresh(tags, d))
      ensures fix ==> (r.Ok? <==> forall d :: d in ByPathIds(old(tags), tag) ==> Fresh(old(tags), d).Ok?)
      ensures fix && r.Err? ==> exists d :: d in ByPathIds(old(tags), tag) && Fresh(old(tags), d) == Err(r.error)
    {
      ghost var moved := tags;
      assert RepathedFrom(moved, tags);
      var below := GetAllDescendantsByPath(tag);
      forall i | 0 <= i < |below| ensures below[i].path.Some? {
        assert below[i].id in Ids(below);
      }
      r := FixPaths(below, fix, moved);
      if fix {
        CascadeOverIds(moved, below);
      }
    }

    /** `setTagParent`'s update: when `strictSelector(tag, ['parentTagId'])` matches, set the new parent and path. */
    method MoveTag(tag: TagRecord, newParentTagId: string, path: Path) returns (hit: bool)
      requires Valid() && Acyclic(tags)
      requires newParentTagId != tag.id && newParentTagId !in Descendants(tags, tag.id)
      modifies this
      ensures Valid() && Acyclic(tags)
      ensures hit == ReparentHits(old(tags), tag)
      ensures tags == if hit then Reparented(old(tags), tag.id, newParentTagId, path) else old(tags)
    {
      hit := tag.id in tags && SnapshotMatches(tags[tag.id], tag, ["parentTagId"]);
      if hit {
        ReparentKeepsAcyclic(tags, tag.id, newParentTagId, path);
        tags := tags[tag.id := tags[tag.id].(parentTagId := newParentTagId, path := Some(path))];
      }
    }

    /**
     * The loop `for (const thisTag of ...) tagsUpdated += await fixPath(thisTag)`
     * over snapshots taken from `moved`; it stops at the first error.
     */
    method FixPaths(recs: seq<TagRecord>, fix: bool, ghost moved: Tags) returns (r: Result<int>)
      requires Valid() && Acyclic(tags) && RepathedFrom(moved, tags)
      requires !fix ==> tags == moved
      requires AllStored(moved, recs)
      requires forall i :: 0 <= i < |recs| ==> recs[i].path.Some?
      modifies this
      ensures Valid() && Acyclic(tags) && RepathedFrom(moved, tags)
      ensures !fix ==> r == Ok(|recs|) && tags == moved
      ensures fix ==> r == CascadeOutcome(moved, recs)
      ensures fix && r.Ok? ==> forall d :: d in Ids(recs) ==> PathFresh(tags, d)
    {
      var count := 0;
      var i := 0;
      while i < |recs|
        invariant 0 <= i <= |recs|
        invariant Valid() && Acyclic(tags) && count == i
        invariant !fix ==> tags == moved
        invariant RepathedFrom(moved, tags)
        invariant fix ==> forall j :: 0 <= j < i ==> PathFresh(tags, recs[j].id)
      {
        var rec := recs[i];
        if fix {
          FixPathRepathsPrefix(moved, tags, recs, i);
          CascadeAfterPrefix(moved, tags, recs, i);
        } else {
          FixPathCachedIsIdentity(tags, rec);
        }
        ghost var resolved := ResolvePath(tags, RefOf(rec), fix);
        assert fix ==> resolved == Fresh(moved, rec.id);
        var n := FixPath(rec, fix);
        assert n.Err? <==> resolved.Err?;
        if n.Err? {
          return Err(n.error);
        }
        count := count + n.value;
        i := i + 1;
      }
      forall d | d in Ids(recs) ensures fix ==> PathFresh(tags, d) {
        var j :| 0 <= j < |recs| && recs[j].id == d;
      }
      if fix {
        CascadeAfterPrefix(moved, tags, recs, i);
      }
      r := Ok(count);
    }

    /**
     * `getDetachedTags()`. The first pass marks every tag whose parent id names
     * no stored record; the second climbs from the parents it queued. A tag the
     * climb reaches always has a stored parent, because a tag with a missing
     * parent was already marked and checked in the first pass, so the subtree
     * expansion is never entered and the answer is exactly Detached.
     */
    method GetDetachedTags() returns (result: seq<string>)
      requires Valid()
      ensures forall i, j :: 0 <= i < j < |result| ==> result[i] != result[j]
      ensures forall k :: k in result <==> k in Detached(tags)
    {
      var toCheck: set<string> := {};
      var detached: set<string> := {};
      var checked: set<string> := {};
      var nonRoots := Fetch(set k | k in tags && tags[k].parentTagId != "");
      var i := 0;
      while i < |nonRoots|
        invariant 0 <= i <= |nonRoots|
        invariant toCheck <= tags.Keys && detached <= Detached(tags) && checked == detached
        invariant forall j :: 0 <= j < i && nonRoots[j].id in Detached(tags) ==> nonRoots[j].id in detached
      {
        var tag := nonRoots[i];
        assert tag.id in Ids(nonRoots);
        var parentTagId := tag.parentTagId;
        var alreadyProcessed := parentTagId in toCheck || parentTagId in detached;
        if !alreadyProcessed {
          if parentTagId !in tags {
            detached := detached + {tag.id};
            checked := checked + {tag.id};
          } else {
            toCheck := toCheck + {parentTagId};
          }
        }
        i := i + 1;
      }
      forall k | k in Detached(tags) ensures k in detached {
        assert k in Ids(nonRoots);
      }
      while toCheck != {}
        invariant toCheck <= tags.Keys && checked <= tags.Keys
        invariant detached == Detached(tags) && Detached(tags) <= checked
        decreases tags.Keys - checked, |toCheck|
      {
        var thisTagId :| thisTagId in toCheck;
        toCheck := toCheck - {thisTagId};
        if thisTagId in checked {
          continue;
        }
        checked := checked + {thisTagId};
        if thisTagId !in tags {
          continue;
        }
        var thisTag := tags[thisTagId];
        if thisTag.parentTagId == "" {
          continue;
        }
        if thisTag.parentTagId !in tags {
          checked, detached := ExpandDetached(thisTagId, checked, detached);
        } else {
          toCheck := toCheck + {thisTag.parentTagId};
        }
      }
      result := Enumerate(detached);
    }

    /**
     * The subtree expansion of `getDetachedTags`: mark `id`, then breadth first
     * every unchecked tag below it, as detached.
     */
    method ExpandDetached(id: string, checked: set<string>, detached: set<string>)
      returns (checked': set<string>, detached': set<string>)
      requires Valid()
      ensures checked <= checked'
      ensures detached' == detached + {id} + (checked' - checked)
      ensures Expanding(tags, id, checked, checked' - checked, {})
      ensures exists order :: ReachedFrom(tags, id, order) && forall x :: x in checked' - checked ==> x in order
    {
      // `marked` holds the ids this expansion adds to both checkedTags and
      // detachedTags
      var marked;
      ghost var order;
      marked, order := WalkBelow(id, checked);
      checked' := checked + marked;
      detached' := detached + {id} + marked;
      assert checked' - checked == marked;
    }

    /**
     * The `descendants` queue of the expansion: fetch the children of `id`,
     * then take one id at a time, skip it when already seen, otherwise mark it
     * and queue its children. Only the ids of the fetched records are used.
     */
    method WalkBelow(id: string, base: set<string>) returns (marked: set<string>, ghost order: seq<string>)
      requires Valid()
      ensures ExpandState(tags, id, base, marked, order, [])
    {
      var store := tags;
      marked := {};
      order := [];
      var queue := Enumerate(Children(store, id));
      while queue != []
        invariant ExpandState(store, id, base, marked, order, queue)
        decreases |store.Keys - (base + marked)|, |queue|
      {
        var next := queue[0];
        if next !in base + marked {
          var children := Enumerate(Children(store, next));
          ExpandRound(store, id, base, marked, order, queue, children);
          order := order + [next];
          marked := marked + {next};
          queue := queue[1..] + children;
        } else {
          ExpandRound(store, id, base, marked, order, queue, []);
          queue := queue[1..];
        }
      }
    }
  }
}
