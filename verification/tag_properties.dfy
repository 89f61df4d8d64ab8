/**
 * Properties that relate the tag operations to each other and to the cached
 * paths: what a store whose cached paths are correct guarantees, the repair
 * that fix mode performs, renaming, removal and detached tags.
 */
module TagProperties {
  import opened Outcomes
  import opened TagModel

  // ---------------------------------------------------------------------------
  // The shape of a correct cached path

  /** A parent chain visits each id at most once. */
  lemma {:induction false} AncestryDistinct(tags: Tags, pid: string)
    requires Acyclic(tags)
    ensures var a := Ancestry(tags, pid);
            forall i, j :: 0 <= i < j < |a| ==> a[i] != a[j]
    decreases Height(tags, pid)
  {
    if pid in tags {
      var q := tags[pid].parentTagId;
      HeightStep(tags, pid);
      AncestryDistinct(tags, q);
      NotOwnAncestor(tags, pid);
      assert Ancestry(tags, pid) == [pid] + Ancestry(tags, q);
    }
  }

  /**
   * `p` is laid out as a correct path of stored tag `k`: the chain above `k`
   * is grounded, and `p` holds one entry per stored ancestor, root first, with
   * that ancestor's id and current name, then the leaf with `k`'s name and the
   * id `k` or "".
   */
  ghost predicate Shaped(tags: Tags, k: string, p: Path)
    requires Acyclic(tags) && k in tags
  {
    var a := Ancestry(tags, tags[k].parentTagId);
    var n := |a| - 1;
    && a[n] == ""
    && |p| == n + 1
    && (forall i :: 0 <= i < n ==> p[i] == NodeOf(tags[a[n - 1 - i]]))
    && p[n].name == tags[k].name && (p[n].id == k || p[n].id == "")
  }

  /** A cached path is correct exactly when it is laid out as `Shaped` describes. */
  lemma PathSoundIffShaped(tags: Tags, k: string)
    requires WellKeyed(tags) && Acyclic(tags) && k in tags && tags[k].path.Some?
    ensures PathSound(tags, k) <==> Shaped(tags, k, tags[k].path.value)
  {
    var ref := RefOf(tags[k]);
    assert ref.id == k && ref.name == tags[k].name && ref.parentTagId == tags[k].parentTagId;
    FreshPathFollowsAncestry(tags, ref);
    var p := tags[k].path.value;
    var a := Ancestry(tags, tags[k].parentTagId);
    var n := |a| - 1;
    var r := Fresh(tags, k);
    assert r == ResolvePath(tags, ref, true);
    if r.Ok? {
      var f := r.value;
      var w := WithPendingLeaf(f);
      assert |w| == n + 1 && w[n] == PathNode("", tags[k].name);
      assert forall i :: 0 <= i < n ==> w[i] == f[i];
      ShapedIffMatches(tags, k, p, f, w);
    }
  }

  /** The two shapes a sound path may take, position by position. */
  lemma ShapedIffMatches(tags: Tags, k: string, p: Path, f: Path, w: Path)
    requires WellKeyed(tags) && Acyclic(tags) && k in tags
    requires var a := Ancestry(tags, tags[k].parentTagId);
             var n := |a| - 1;
             && a[n] == "" && |f| == n + 1 && |w| == n + 1
             && f[n] == PathNode(k, tags[k].name) && w[n] == PathNode("", tags[k].name)
             && (forall i :: 0 <= i < n ==> f[i] == NodeOf(tags[a[n - 1 - i]]) && w[i] == f[i])
    ensures (p == f || p == w) <==> Shaped(tags, k, p)
  {
    var a := Ancestry(tags, tags[k].parentTagId);
    var n := |a| - 1;
    if Shaped(tags, k, p) {
      if p[n].id == k {
        assert p == f;
      } else {
        assert p == w;
      }
    }
  }

  /** In a correct path the tags above `k` sit at the positions before the leaf, and nowhere else. */
  lemma ShapedIds(tags: Tags, k: string, p: Path, x: string)
    requires WellKeyed(tags) && Acyclic(tags) && k in tags && x in tags && x != k && Shaped(tags, k, p)
    ensures var a := Ancestry(tags, tags[k].parentTagId);
            var n := |a| - 1;
            && p[n].id != x
            && (forall i :: 0 <= i < n ==> (p[i].id == x <==> a[n - 1 - i] == x))
            && (x in a <==> exists i :: 0 <= i < n && p[i].id == x)
  {
    var a := Ancestry(tags, tags[k].parentTagId);
    var n := |a| - 1;
    if x in a {
      var m :| 0 <= m < |a| && a[m] == x;
      assert m < n;
      assert p[n - 1 - m].id == x;
    }
  }

  // ---------------------------------------------------------------------------
  // getAllDescendantsByPath against getAllDescendants

  /**
   * When the cached paths present are correct, every tag found by path
   * descends from the tag.
   */
  lemma ByPathWithinTree(tags: Tags, tag: TagRecord)
    requires WellKeyed(tags) && Acyclic(tags) && Sound(tags) && tag.id in tags
    ensures ByPathIds(tags, tag) <= Descendants(tags, tag.id)
  {
    forall k | k in ByPathIds(tags, tag) ensures k in Descendants(tags, tag.id) {
      var p := tags[k].path.value;
      PathSoundIffShaped(tags, k);
      ShapedIds(tags, k, p, tag.id);
    }
  }

  /**
   * When every tag has a correct cached path, searching by path finds exactly
   * the descendants that the breadth-first walk finds.
   */
  lemma ByPathAgreesWithTree(tags: Tags, tag: TagRecord)
    requires WellKeyed(tags) && Acyclic(tags) && Sound(tags) && tag.id in tags && tags[tag.id] == tag
    requires forall k :: k in tags ==> tags[k].path.Some?
    ensures ByPathIds(tags, tag) == Descendants(tags, tag.id)
  {
    ByPathWithinTree(tags, tag);
    forall k | k in Descendants(tags, tag.id) ensures k in ByPathIds(tags, tag) {
      var p := tags[k].path.value;
      PathSoundIffShaped(tags, k);
      NotOwnDescendant(tags, tag.id);
      ShapedIds(tags, k, p, tag.id);
      var n := |Ancestry(tags, tags[k].parentTagId)| - 1;
      var i :| 0 <= i < n && p[i].id == tag.id;
      assert p[i] == NodeOf(tags[tag.id]);
    }
  }

  // ---------------------------------------------------------------------------
  // The repair of fix mode

  /**
   * Fix-mode resolution of stored tag `k`'s path rewrites exactly the stored
   * ancestors whose cached path differs from their fix-mode path; `k` itself
   * is never written.
   */
  lemma RepairTouchesOnlyStaleAncestors(tags: Tags, k: string)
    requires Acyclic(tags) && k in tags
    ensures var r := Repaired(tags, tags[k].parentTagId);
            && r.Keys == tags.Keys
            && r[k] == tags[k]
            && forall j :: j in tags ==>
                 (r[j] != tags[j] <==>
                    && j in Ancestry(tags, tags[k].parentTagId)
                    && Fresh(tags, j).Ok? && tags[j].path != Some(Fresh(tags, j).value))
  {
    NotOwnAncestor(tags, k);
    var r := Repaired(tags, tags[k].parentTagId);
    forall j | j in tags && r[j] != tags[j] ensures tags[j].path != r[j].path {
    }
  }

  // ---------------------------------------------------------------------------
  // removeTag and detached tags

  /** Removing a tag detaches exactly its children (besides the tags detached already). */
  lemma RemovalDetachesChildren(tags: Tags, id: string)
    requires id != ""
    ensures Detached(tags - {id}) == (Detached(tags) - {id}) + (Children(tags, id) - {id})
  {
  }

  // ---------------------------------------------------------------------------
  // renameTag

  /** In a correct path of a tag, its own entry is the first with id "" or its id: the leaf. */
  lemma OwnEntryIsLeaf(tags: Tags, k: string)
    requires WellKeyed(tags) && Acyclic(tags) && k in tags && tags[k].path.Some? && PathSound(tags, k)
    ensures var p := tags[k].path.value;
            && FirstIndexIn(p, {"", k}) == |p| - 1
            && p[|p| - 1].name == tags[k].name
  {
    var p := tags[k].path.value;
    PathSoundIffShaped(tags, k);
    NotOwnAncestor(tags, k);
  }

  /** The first entry with the id of another stored tag in a correct path names that tag as it is stored. */
  lemma EntryOfAncestor(tags: Tags, k: string, x: string)
    requires WellKeyed(tags) && Acyclic(tags) && k in tags && tags[k].path.Some? && PathSound(tags, k)
    requires x in tags && x != k
    ensures var p := tags[k].path.value;
            var i := FirstIndexIn(p, {x});
            i < |p| ==> i < |p| - 1 && p[i] == NodeOf(tags[x])
  {
    var p := tags[k].path.value;
    PathSoundIffShaped(tags, k);
    ShapedIds(tags, k, p, x);
  }

  /** Renaming a tag to the name it already has changes nothing when the cached paths are correct. */
  lemma RenameToSameNameIsNoop(tags: Tags, tag: TagRecord)
    requires WellKeyed(tags) && Acyclic(tags) && Sound(tags) && tag.id in tags && RenameHits(tags[tag.id], tag)
    ensures Renamed(tags, tag, tag.name) == tags
  {
    var stored := tags[tag.id];
    SnapshotMatchesIff(stored, tag, ["name"]);
    SameNamePrimaryUnchanged(tags, tag);
    var primary := tags[tag.id := PrimaryRenamed(stored, tag, tag.name)];
    assert primary == tags;
    SameNameNoCascade(tags, tag);
    var r := Renamed(tags, tag, tag.name);
    assert forall k :: k in tags ==> r[k] == primary[k];
  }

  /** The primary update rewrites nothing when the new name is the current one and the path is correct. */
  lemma SameNamePrimaryUnchanged(tags: Tags, tag: TagRecord)
    requires WellKeyed(tags) && Acyclic(tags) && Sound(tags) && tag.id in tags && tags[tag.id].name == tag.name
    ensures PrimaryRenamed(tags[tag.id], tag, tag.name) == tags[tag.id]
  {
    var stored := tags[tag.id];
    if stored.path.Some? {
      var p := stored.path.value;
      OwnEntryIsLeaf(tags, tag.id);
      assert RenameAt(p, |p| - 1, tag.name) == p;
    }
  }

  /** No entry of a correct path needs renaming when the new name is the current one. */
  lemma SameNameNoCascade(tags: Tags, tag: TagRecord)
    requires WellKeyed(tags) && Acyclic(tags) && Sound(tags) && tag.id in tags && tags[tag.id].name == tag.name
    ensures forall k :: k in tags ==> !CascadeHits(tags[k], tag.id, tag.name)
  {
    forall k | k in tags && tags[k].path.Some? && k != tag.id ensures !CascadeHits(tags[k], tag.id, tag.name) {
      EntryOfAncestor(tags, k, tag.id);
    }
  }

  // ---------------------------------------------------------------------------
  // The rename cascade as written and as intended

  /**
   * The cascade selector as its comment describes it ("all tags that have this
   * tag in their paths"): another tag whose path has an entry with the tag's
   * id, without the condition that no entry is named like the new name.
   */
  predicate CascadeHitsIntended(rec: TagRecord, tagId: string) {
    && rec.id != tagId
    && rec.path.Some?
    && FirstIndexIn(rec.path.value, {tagId}) < |rec.path.value|
  }

  /** The store after a `renameTag` whose primary update hit, with the cascade as intended. */
  function RenamedIntended(tags: Tags, tag: TagRecord, newName: string): (r: Tags)
    requires tag.id in tags
    ensures r.Keys == tags.Keys
    ensures forall k :: k in tags ==>
              && r[k].id == tags[k].id && r[k].parentTagId == tags[k].parentTagId
              && r[k].createdAt == tags[k].createdAt && r[k].modifiedAt == tags[k].modifiedAt
    ensures r[tag.id].name == newName
    ensures var p := tags[tag.id].path;
            r[tag.id].path == if p.None? then None else Some(RenameAt(p.value, FirstIndexIn(p.value, {"", tag.id}), newName))
    ensures forall k :: k in tags && k != tag.id ==> r[k].name == tags[k].name
    ensures forall k :: k in tags && k != tag.id ==>
              r[k].path == if CascadeHitsIntended(tags[k], tag.id) then CascadeRenamed(tags[k], tag.id, newName).path
                           else tags[k].path
  {
    var primary := tags[tag.id := PrimaryRenamed(tags[tag.id], tag, newName)];
    map k | k in primary ::
      if k != tag.id && CascadeHitsIntended(primary[k], tag.id) then CascadeRenamed(primary[k], tag.id, newName)
      else primary[k]
  }

  /** In a correct path, another stored tag's id occurs at most once: at its first occurrence. */
  lemma EntryIsUnique(tags: Tags, k: string, p: Path, x: string)
    requires WellKeyed(tags) && Acyclic(tags) && k in tags && x in tags && x != k && Shaped(tags, k, p)
    ensures forall i :: 0 <= i < |p| ==> (p[i].id == x <==> i == FirstIndexIn(p, {x}))
  {
    var a := Ancestry(tags, tags[k].parentTagId);
    AncestryDistinct(tags, tags[k].parentTagId);
    ShapedIds(tags, k, p, x);
    UniqueAlongChain(p, a, x);
  }

  /** An id met once on a chain of distinct ids is met once on a path listing that chain in reverse. */
  lemma UniqueAlongChain(p: Path, a: seq<string>, x: string)
    requires |a| > 0 && |p| == |a|
    requires forall i, j :: 0 <= i < j < |a| ==> a[i] != a[j]
    requires p[|a| - 1].id != x
    requires forall i :: 0 <= i < |a| - 1 ==> (p[i].id == x <==> a[|a| - 2 - i] == x)
    ensures forall i :: 0 <= i < |p| ==> (p[i].id == x <==> i == FirstIndexIn(p, {x}))
  {
    var n := |a| - 1;
    var i0 := FirstIndexIn(p, {x});
    forall i | 0 <= i < |p| && p[i].id == x ensures i == i0 {
      assert p[i].id in {x};
      assert p[i0].id in {x};
    }
  }

  /**
   * A path with the same ids as a correct path of `k`, whose entries carry the
   * names a store with the same parents gives those ids, is correct there.
   */
  lemma ShapedUnderNewNames(tags: Tags, r: Tags, k: string, p: Path, p': Path)
    requires WellKeyed(tags) && Acyclic(tags) && SameParents(tags, r) && WellKeyed(r)
    requires k in tags && Shaped(tags, k, p)
    requires |p'| == |p| && forall i :: 0 <= i < |p| ==> p'[i].id == p[i].id
    requires forall i :: 0 <= i < |p| - 1 ==> p'[i].name == r[p[i].id].name
    requires p'[|p| - 1].name == r[k].name
    ensures Acyclic(r) && Shaped(r, k, p')
  {
    SameParentsSameChains(tags, r);
    var a := Ancestry(tags, tags[k].parentTagId);
    var n := |a| - 1;
    forall i | 0 <= i < n ensures p'[i] == NodeOf(r[a[n - 1 - i]]) {
      assert p[i] == NodeOf(tags[a[n - 1 - i]]);
    }
  }

  /**
   * The primary update as written keeps the renamed tag's own cached path
   * correct: its leaf, the tag's own entry, now carries the new name.
   */
  lemma RenameKeepsOwnShape(tags: Tags, tag: TagRecord, newName: string)
    requires WellKeyed(tags) && Acyclic(tags) && Sound(tags) && tag.id in tags && tags[tag.id].path.Some?
    ensures var r := Renamed(tags, tag, newName);
            && Acyclic(r) && r[tag.id].path.Some?
            && |r[tag.id].path.value| == |tags[tag.id].path.value| > 0
            && r[tag.id].path.value[|r[tag.id].path.value| - 1].name == newName
            && Shaped(r, tag.id, r[tag.id].path.value)
  {
    var k := tag.id;
    var r := Renamed(tags, tag, newName);
    var p := tags[k].path.value;
    PathSoundIffShaped(tags, k);
    OwnEntryIsLeaf(tags, k);
    ShapedEntriesAbove(tags, k, p);
    RenamedKeepsKeysAndParents(tags, tag, newName);
    var p' := RenameAt(p, |p| - 1, newName);
    assert r[k].path == Some(p');
    forall i | 0 <= i < |p| - 1 ensures p'[i].name == r[p[i].id].name {
      assert p'[i].name == p[i].name;
    }
    ShapedUnderNewNames(tags, r, k, p, p');
  }

  /** After the intended rename, the renamed tag's own cached path is still correct. */
  lemma IntendedRenameKeepsOwnShape(tags: Tags, tag: TagRecord, newName: string)
    requires WellKeyed(tags) && Acyclic(tags) && Sound(tags) && tag.id in tags && tags[tag.id].path.Some?
    ensures var r := RenamedIntended(tags, tag, newName);
            Acyclic(r) && r[tag.id].path.Some? && Shaped(r, tag.id, r[tag.id].path.value)
  {
    var k := tag.id;
    var r := RenamedIntended(tags, tag, newName);
    var p := tags[k].path.value;
    PathSoundIffShaped(tags, k);
    OwnEntryIsLeaf(tags, k);
    ShapedEntriesAbove(tags, k, p);
    var p' := RenameAt(p, |p| - 1, newName);
    assert r[k].path == Some(p');
    forall i | 0 <= i < |p| - 1 ensures p'[i].name == r[p[i].id].name {
      assert p'[i].name == p[i].name;
    }
    ShapedUnderNewNames(tags, r, k, p, p');
  }

  /** A cached path whose entry above the leaf carries an outdated name makes the store unsound. */
  lemma StaleEntryUnsound(tags: Tags, k: string, i: nat)
    requires WellKeyed(tags) && Acyclic(tags) && k in tags && tags[k].path.Some?
    requires i < |tags[k].path.value| - 1
    requires tags[k].path.value[i].id in tags && tags[k].path.value[i].name != tags[tags[k].path.value[i].id].name
    ensures !Sound(tags)
  {
    ShapedNamesCurrent(tags, k, tags[k].path.value);
    PathSoundIffShaped(tags, k);
  }

  /** `ShapedEntriesAbove` for the names alone, as a consequence of `Shaped`. */
  lemma ShapedNamesCurrent(tags: Tags, k: string, p: Path)
    requires WellKeyed(tags) && Acyclic(tags) && k in tags
    ensures Shaped(tags, k, p) ==>
              forall i :: 0 <= i < |p| - 1 ==> p[i].id in tags && p[i].name == tags[p[i].id].name
  {
    if Shaped(tags, k, p) {
      ShapedEntriesAbove(tags, k, p);
    }
  }

  /** The entries above the leaf of a correct path name stored tags other than `k`, by their current names. */
  lemma ShapedEntriesAbove(tags: Tags, k: string, p: Path)
    requires WellKeyed(tags) && Acyclic(tags) && k in tags && Shaped(tags, k, p)
    ensures forall i :: 0 <= i < |p| - 1 ==> p[i].id in tags && p[i].id != k && p[i].name == tags[p[i].id].name
  {
    NotOwnAncestor(tags, k);
    var a := Ancestry(tags, tags[k].parentTagId);
    var n := |a| - 1;
    forall i | 0 <= i < n ensures p[i].id in tags && p[i].id != k && p[i].name == tags[p[i].id].name {
      var j := n - 1 - i;
      assert a[j] in a && p[i] == NodeOf(tags[a[j]]);
    }
  }

  /** After the intended rename, the cached path of any other stored tag is still correct. */
  lemma IntendedRenameKeepsOtherShape(tags: Tags, tag: TagRecord, newName: string, k: string)
    requires WellKeyed(tags) && Acyclic(tags) && Sound(tags) && tag.id in tags
    requires k in tags && k != tag.id && tags[k].path.Some?
    ensures var r := RenamedIntended(tags, tag, newName);
            Acyclic(r) && r[k].path.Some? && Shaped(r, k, r[k].path.value)
  {
    var r := RenamedIntended(tags, tag, newName);
    var p := tags[k].path.value;
    PathSoundIffShaped(tags, k);
    EntryIsUnique(tags, k, p, tag.id);
    ShapedEntriesAbove(tags, k, p);
    var at := FirstIndexIn(p, {tag.id});
    var p' := RenameAt(p, at, newName);
    assert r[k].path == Some(p');
    forall i | 0 <= i < |p| - 1 ensures p'[i].name == r[p[i].id].name {
      if i != at {
        assert p[i].id != tag.id;
      }
    }
    ShapedUnderNewNames(tags, r, k, p, p');
  }

  /** Renaming with the intended cascade keeps every cached path correct. */
  lemma IntendedRenameKeepsPathsSound(tags: Tags, tag: TagRecord, newName: string)
    requires WellKeyed(tags) && Acyclic(tags) && Sound(tags) && tag.id in tags
    ensures var r := RenamedIntended(tags, tag, newName);
            Acyclic(r) && Sound(r)
  {
    var r := RenamedIntended(tags, tag, newName);
    assert SameParents(tags, r);
    SameParentsSameChains(tags, r);
    forall k | k in r && r[k].path.Some? ensures PathSound(r, k) {
      if k == tag.id {
        IntendedRenameKeepsOwnShape(tags, tag, newName);
      } else {
        IntendedRenameKeepsOtherShape(tags, tag, newName, k);
      }
      PathSoundIffShaped(r, k);
    }
  }

  /** Root "a" named "r", its child "b" named "y" and b's child "c" named "x", all with correct paths. */
  function NameClashStore(): (tags: Tags)
    ensures tags.Keys == {"a", "b", "c"}
  {
    map[
      "a" := TagRecord("a", 0, 0, "r", "", Some([PathNode("a", "r")])),
      "b" := TagRecord("b", 0, 0, "y", "a", Some([PathNode("a", "r"), PathNode("b", "y")])),
      "c" := TagRecord("c", 0, 0, "x", "b", Some([PathNode("a", "r"), PathNode("b", "y"), PathNode("c", "x")]))]
  }

  /** The chains of `NameClashStore`: "c" under "b" under the root "a". */
  lemma NameClashStoreChains()
    ensures var tags := NameClashStore();
            && WellKeyed(tags) && Acyclic(tags)
            && Ancestry(tags, "") == [""] && Ancestry(tags, "a") == ["a", ""]
            && Ancestry(tags, "b") == ["b", "a", ""]
  {
    var tags := NameClashStore();
    assert Ends(tags, "a", 1) && Ends(tags, "b", 2) && Ends(tags, "c", 3);
    assert Ancestry(tags, "") == [""];
    assert Ancestry(tags, "a") == ["a", ""];
  }

  lemma NameClashPathSound(k: string)
    requires k in NameClashStore()
    ensures WellKeyed(NameClashStore()) && Acyclic(NameClashStore()) && PathSound(NameClashStore(), k)
  {
    var tags := NameClashStore();
    NameClashStoreChains();
    NameClashShaped(k);
    PathSoundIffShaped(tags, k);
  }

  /** Each cached path of `NameClashStore` follows its chain. */
  lemma NameClashShaped(k: string)
    requires k in NameClashStore()
    ensures Acyclic(NameClashStore()) && Shaped(NameClashStore(), k, NameClashStore()[k].path.value)
  {
    var tags := NameClashStore();
    NameClashStoreChains();
    var p := tags[k].path.value;
    if k == "a" {
      assert Shaped(tags, k, p);
    } else if k == "b" {
      assert p[0] == NodeOf(tags["a"]);
      assert Shaped(tags, k, p);
    } else {
      assert p[0] == NodeOf(tags["a"]) && p[1] == NodeOf(tags["b"]);
      assert Shaped(tags, k, p);
    }
  }

  lemma NameClashStoreIsSound()
    ensures var tags := NameClashStore();
            && WellKeyed(tags) && Acyclic(tags) && Sound(tags)
            && Ancestry(tags, "b") == ["b", "a", ""]
  {
    var tags := NameClashStore();
    NameClashStoreChains();
    forall k | k in tags ensures PathSound(tags, k) {
      NameClashPathSound(k);
    }
  }

  /**
   * The cascade as written misses a descendant whose path already has an entry
   * named like the new name: renaming "b" to "x" leaves the old name "y" in the
   * path of its child "c", which is itself named "x".
   */
  lemma RenameCascadeMissesTagsWithNewName()
    ensures var tags := NameClashStore();
            var b := tags["b"];
            var r := Renamed(tags, b, "x");
            && WellKeyed(tags) && Acyclic(tags) && Sound(tags) && RenameHits(b, b)
            && Acyclic(r) && r["c"].path == tags["c"].path && !Sound(r)
  {
    NameClashStoreIsSound();
    NameClashRenameStep();
    NameClashRenamedUnsound();
  }

  /** After that rename, "c"'s unchanged path no longer matches its parent chain. */
  lemma NameClashRenamedUnsound()
    ensures var tags := NameClashStore();
            var r := Renamed(tags, tags["b"], "x");
            Acyclic(r) && !Sound(r)
  {
    var tags := NameClashStore();
    NameClashStoreChains();
    NameClashRenameStep();
    var r := Renamed(tags, tags["b"], "x");
    SameParentsSameChains(tags, r);
    StaleEntryUnsound(r, "c", 1);
  }

  /** The single rename of `RenameCascadeMissesTagsWithNewName`, record by record. */
  lemma NameClashRenameStep()
    ensures var tags := NameClashStore();
            var b := tags["b"];
            var r := Renamed(tags, b, "x");
            && RenameHits(b, b) && SameParents(tags, r) && WellKeyed(r)
            && r["c"].path == tags["c"].path && r["b"].name == "x"
  {
    var tags := NameClashStore();
    var b := tags["b"];
    NameClashRecords();
    var r := Renamed(tags, b, "x");
    assert r["c"].path == tags["c"].path;
  }

  /** "b" matches its own snapshot, and "c"'s path already holds an entry named "x". */
  lemma NameClashRecords()
    ensures var tags := NameClashStore();
            && RenameHits(tags["b"], tags["b"]) && !CascadeHits(tags["c"], "b", "x")
            && WellKeyed(tags) && tags["c"].id != "b"
  {
    var tags := NameClashStore();
    var b := tags["b"];
    SnapshotMatchesIff(b, b, ["name"]);
    assert FirstIndexIn(b.path.value, {"", "b"}) == 1;
    var c := tags["c"];
    assert c.path.value[2].name == "x";
  }

  // ---------------------------------------------------------------------------
  // Detached tags as listed and as intended

  /** The last id of a chain: the first id met that is not stored. */
  ghost function ChainEnd(tags: Tags, pid: string): string
    requires Acyclic(tags)
  {
    var a := Ancestry(tags, pid);
    a[|a| - 1]
  }

  /** A chain that passes through `d` ends where the chain from `d` ends. */
  lemma {:induction false} ChainEndThrough(tags: Tags, q: string, d: string)
    requires Acyclic(tags) && d in Ancestry(tags, q)
    ensures ChainEnd(tags, q) == ChainEnd(tags, d)
    decreases Height(tags, q)
  {
    if q != d {
      var p := tags[q].parentTagId;
      HeightStep(tags, q);
      assert Ancestry(tags, q) == [q] + Ancestry(tags, p);
      ChainEndThrough(tags, p, d);
    }
  }

  /**
   * The tags that `getDetachedTags` evidently means to list ("this and all
   * connected tags"): the detached tags and every tag below one of them.
   */
  ghost function DetachedTrees(tags: Tags): (r: set<string>)
    requires Acyclic(tags)
    ensures Detached(tags) <= r <= tags.Keys
  {
    set k | k in tags && (k in Detached(tags) || exists d :: d in Detached(tags) && k in Descendants(tags, d))
  }

  /**
   * The intended listing holds exactly the tags whose path cannot be resolved,
   * because their chain of parents leads to a missing record.
   */
  lemma DetachedTreesAreUnresolvable(tags: Tags)
    requires WellKeyed(tags) && Acyclic(tags)
    ensures forall k :: k in DetachedTrees(tags) <==> k in tags && Fresh(tags, k).Err?
  {
    forall k | k in tags ensures k in DetachedTrees(tags) <==> Fresh(tags, k).Err? {
      var pid := tags[k].parentTagId;
      var a := Ancestry(tags, pid);
      var n := |a| - 1;
      FreshPathFollowsAncestry(tags, RefOf(tags[k]));
      if a[n] != "" {
        if n > 0 {
          var d := a[n - 1];
          assert d in Detached(tags);
          assert k in Descendants(tags, d);
        }
      }
      if k in DetachedTrees(tags) && k !in Detached(tags) {
        var d :| d in Detached(tags) && k in Descendants(tags, d);
        ChainEndThrough(tags, pid, d);
        assert Ancestry(tags, d) == [d] + Ancestry(tags, tags[d].parentTagId);
      }
    }
  }

  /** A tag "x" whose parent "gone" is missing, and its child "y". */
  function BrokenChainStore(): (tags: Tags)
    ensures tags.Keys == {"x", "y"}
  {
    map[
      "x" := TagRecord("x", 0, 0, "x", "gone", None),
      "y" := TagRecord("y", 0, 0, "y", "x", None)]
  }

  /**
   * `getDetachedTags` lists only tags whose immediate parent is missing: the
   * child "y" of the detached "x" cannot have its path resolved, yet it is not
   * listed.
   */
  lemma DetachedMissesGrandchildren()
    ensures var tags := BrokenChainStore();
            && WellKeyed(tags) && Acyclic(tags)
            && Detached(tags) == {"x"}
            && DetachedTrees(tags) == {"x", "y"}
            && Fresh(tags, "y").Err?
  {
    var tags := BrokenChainStore();
    assert Ends(tags, "x", 1) && Ends(tags, "y", 2);
    assert "y" !in Detached(tags);
    DetachedTreesAreUnresolvable(tags);
    assert Ancestry(tags, "x") == ["x", "gone"];
    assert "y" in Descendants(tags, "x");
  }
}
