# Tag tree and record helpers of my-inventory-app, in Dafny

This project models the server-side core of the inventory application: the
`tags` collection, in which every tag names its parent by id and caches its
materialized `path` (the ids and names of its ancestors, root first, then its
own entry), together with the small helpers that the tag and item operations
rely on.

- `TagModel` (tag_model.dfy) holds the pure specification. It describes the
  store as a map from id to `TagRecord`, parent chains (`Ancestry`) and
  acyclicity, path resolution (`ResolvePath`, the `getTagPath` recursion), and
  the repair that fix mode performs (`Repaired`). It also defines the
  descendant sets, the detached tags and the compare-and-swap selectors built
  by `strictSelector`. For each update it defines the store that results.
- `TagStores` (tag_store.dfy) is the collection as a class with a `tags` map
  field. Its methods are the operations of `meteor-app/imports/api/tags.ts`,
  with the loops of the source (the breadth-first descendant walk, the
  `setTagParent` cascade, the two-phase detached sweep), each proved against
  the specification functions.
- `TagProperties` (tag_properties.dfy) relates the operations to one another
  and to path correctness. A cached path is "sound" when it equals the path
  that fix mode would compute, or equals it with the leaf id still `""` as
  `createTag` leaves it. The lemmas here show when the by-path search and the
  tree walk agree, that renaming to the current name is a no-op, which tags a
  removal detaches, and the discrepancies listed under Findings.
- `StrictSelectors`, `CollectionItems`, `Items`, `Printables` and `Defaults`
  model `strictSelector`, the `CollectionItem` constructor,
  `createInventoryItem`, `printable` and `defaults`.

Environment inputs are parameters:
- the clock reading is `now: int`;
- the `Meteor.settings.fixPath` switch is `fix: bool`;
- a database-assigned id is any non-empty id not yet used as a key or as a
  parent reference.

The compare-and-swap updates are single-threaded conditional updates. An
update's "number of documents affected" is 0 or 1 per record.

Behaviour the model keeps exactly as the code has it:
- The comment at `tags.ts:121` says the rename cascade updates all tags that
  have the renamed tag in their paths. The selector at `tags.ts:122-131` also
  requires that no entry of such a path is already named like the new name,
  so those tags are skipped (see Findings).
- The comment at `tags.ts:264` says the sweep of `getDetachedTags` adds the
  tag "and all connected tags" as detached. The first pass
  (`tags.ts:219-235`) marks a tag whose parent is missing as checked, so the
  expansion below it never runs: only tags whose immediate parent is missing
  are listed (see Findings).
- `createTag` resolves the path of `{_id: '', name, parentTagId}`
  (`tags.ts:78`), so the new tag's own path entry has the id `""`. Without fix
  mode, `getTagPath` returns a stored parent's cached path as it is
  (`tags.ts:35-37`). A child created under such a tag therefore copies the
  parent's `""` entry into its own path instead of the parent's id.
- The tests at `printable.test.ts:12-19` expect `'[undefined]'`, `'[null]'`
  and `'[date]…'`. The code (`printable.ts:27-43`) builds
  `"[unrecognized primitive]undefined]"`, `"[printable object]null]"` and
  `"[printable object]…]"`, and the model gives those strings.

## Model

| member | source | states |
|---|---|---|
| `CollectionItems.NewCollectionItem` | meteor-app/imports/model/CollectionItem.ts:18-26 | each supplied field is copied unchanged; a missing `_id` becomes `""`; missing timestamps both become the same clock reading |
| `CollectionItems.NoArgumentMeansAllDefaults` | meteor-app/imports/model/CollectionItem.ts:18-21 | calling with no argument equals passing `{}`, and gives `("", now, now)` |
| `CollectionItems.SuppliedPropsAreCopied` | meteor-app/imports/model/CollectionItem.ts:21-25 | a fully supplied argument is taken over field for field, whatever the clock says |
| `StrictSelectors.AddFields` | meteor-app/imports/utility/strictSelector.ts:23-28 | the fold adds exactly the listed fields, each with the document's value; earlier keys keep theirs |
| `StrictSelectors.StrictSelector` | meteor-app/imports/utility/strictSelector.ts:16-28 | the keys are exactly `_id`, `createdAt`, `modifiedAt` plus the extra fields, and each maps to the document's value |
| `StrictSelectors.DefaultSelectsBaseFields` | meteor-app/imports/utility/strictSelector.ts:8-21 | with no extra fields, only the three base fields appear |
| `StrictSelectors.RepeatedFieldIsHarmless` | meteor-app/imports/utility/strictSelector.ts:23-28 | listing a field again gives the same selector |
| `StrictSelectors.MatchesIff` | meteor-app/imports/utility/strictSelector.ts:16-28 | a stored document matches a snapshot's selector iff it agrees with the snapshot on every selected field |
| `Defaults.Defaulted` | meteor-app/imports/utility/defaults.ts:13-21 | the keys are the union of both key sets; target values are kept; source values fill only missing keys |
| `Defaults.ApplyDefaults` | meteor-app/imports/utility/defaults.ts:9-22 | the loop over the source entries mutates the target in place, returns the target itself, and leaves it equal to `Defaulted` of the old target |
| `Defaults.DefaultsIdempotent` | meteor-app/imports/utility/defaults.ts:13-21 | applying the defaults twice equals applying them once |
| `Printables.Leaves` | meteor-app/imports/utility/printable.ts:17-60 | a non-container value is one leaf at the current path with its tagged text; every leaf of a container lies strictly below the current path |
| `Printables.ItemLeaves` | meteor-app/imports/utility/printable.ts:46-51 | every leaf of the array part lies strictly below the array's path |
| `Printables.ItemLeavesMembers` | meteor-app/imports/utility/printable.ts:46-51 | the array part holds exactly the leaves of each item, each found below the array's path extended by `String(index)` |
| `Printables.EntryLeaves` | meteor-app/imports/utility/printable.ts:55-59 | every leaf of the object part lies strictly below the object's path |
| `Printables.EntryLeavesMembers` | meteor-app/imports/utility/printable.ts:55-59 | the object part holds exactly the leaves of each entry, each found below the object's path extended by the entry's key |
| `Printables.Collect` | meteor-app/imports/utility/printable.ts:69-74 | one key per dot-joined leaf path; a key shared by several leaves takes the last one's value |
| `Printables.Printable` | meteor-app/imports/utility/printable.ts:62-75 | a leaf at the top prints as its bare tagged string; a container prints as a record whose keys are its leaves' joined paths, each key holding the value of the last leaf that joins to it |
| `Printables.NatToStringInjective` | meteor-app/imports/utility/printable.ts:48 | different indices give different `String(index)` keys |
| `Printables.WellFormed` | meteor-app/imports/utility/printable.ts:55 | no object, at any depth, has the same property name twice, as for any value `Object.entries` walks |
| `Printables.ItemNamed` | meteor-app/imports/utility/printable.ts:46-51 | a found array slot is the item at an index whose `String(index)` is the key |
| `Printables.EntryNamed` | meteor-app/imports/utility/printable.ts:55-59 | a found object property is the value of an entry with that key |
| `Printables.Child` | meteor-app/imports/utility/printable.ts:46-59 | only an array or an object has properties |
| `Printables.At` | meteor-app/imports/utility/printable.ts:17-60 | the value reached by following a path one property at a time, independent of the flattening |
| `Printables.LeavesLookup` | meteor-app/imports/utility/printable.ts:17-60 | every leaf of a well-formed value below a path sits at the rest of its path, which reaches a non-container whose tagged text is the leaf's value |
| `Printables.ItemLeavesLookup` | meteor-app/imports/utility/printable.ts:46-51 | the same for the items of an array, reached through their index keys |
| `Printables.EntryLeavesLookup` | meteor-app/imports/utility/printable.ts:55-59 | the same for the entries of an object with distinct keys, reached through their keys |
| `Printables.LookupIsLeaf` | meteor-app/imports/utility/printable.ts:17-60 | every path that reaches a non-container value is the path of a leaf carrying that value's tagged text |
| `Printables.LeavesAreLookups` | meteor-app/imports/utility/printable.ts:17-60 | for a well-formed value, the leaves are exactly its paths to non-container values, each with that value's tagged text |
| `Printables.PrintableFieldsAreLookups` | meteor-app/imports/utility/printable.ts:62-75 | for a well-formed array or object, every path to a leaf value joins to a key of the record, and every key holds the tagged text of the leaf value at some path that joins to it |
| `Printables.EmptyContainerIsEmptyRecord` | meteor-app/imports/utility/printable.ts:62-74 | an empty array or object prints as an empty record |
| `Printables.SingletonArrayIsRecord` | meteor-app/imports/utility/printable.ts:62-67 | a one-element array prints as a one-key record `{"0": …}`, not as a bare string |
| `Printables.FlatArrayExample` | meteor-app/imports/utility/printable.ts:46-51 | `[1, '2', true]` prints as `{"0": "[number]1", "1": "[string]2", "2": "[boolean]true"}` |
| `Printables.FlatArrayLeaves` | meteor-app/imports/utility/printable.ts:46-51 | the leaves of that array, in order, at paths `["0"]`, `["1"]`, `["2"]` |
| `Printables.NestedObjectExample` | meteor-app/imports/utility/printable.ts:55-59 | `{foo: {bar: 1}}` prints as `{"foo.bar": "[number]1"}` |
| `Printables.NullPrintsAsWritten` | meteor-app/imports/utility/printable.ts:36-43 | `null` prints as `"[printable object]null]"`, with the stray bracket |
| `Printables.CollidingKeysLaterWins` | meteor-app/imports/utility/printable.ts:69-74 | when two leaves join to the same key, the later one wins |
| `Printables.CollidingLeaves` | meteor-app/imports/utility/printable.ts:55-59 | the two colliding leaves in order of appearance |
| `Items.ItemStore.Insert` | meteor-app/imports/api/items.ts:28 | adds one record under a new non-empty id and leaves every other record unchanged |
| `Items.ItemStore.CreateInventoryItem` | meteor-app/imports/api/items.ts:14-31 | an absent name fails with "Item must have a name." and inserts nothing; otherwise (the empty name included) exactly one record `{name, now, now}` is added and its id returned |
| `TagModel.Ancestry` | meteor-app/imports/api/tags.ts:40-45 | the chain climbed by path resolution: each stored id is followed by its parent, and the chain ends at the first id that is not stored |
| `TagModel.NotOwnAncestor` | meteor-app/imports/api/tags.ts:40-45 | on an acyclic store no tag is met again above itself |
| `TagModel.ResolvePath` | meteor-app/imports/api/tags.ts:31-59 | `getTagPath`: a cached path is returned as is when not fixing; otherwise the result ends with the tag's own entry |
| `TagModel.FreshPathFollowsAncestry` | meteor-app/imports/api/tags.ts:39-58 | in fix mode the path is the ancestor chain, root first, then the leaf; it fails with RecordNotFound naming the missing id exactly when the chain ends at a missing record |
| `TagModel.FixIgnoresCachedPaths` | meteor-app/imports/api/tags.ts:35-37 | in fix mode the argument's cached path plays no part |
| `TagModel.SameShapeSameFresh` | meteor-app/imports/api/tags.ts:39-58 | fix-mode resolution reads ids, names and parents, never cached paths |
| `TagModel.RepairedFrame` | meteor-app/imports/api/tags.ts:47-56 | the fix-mode repair rewrites cached paths only, and only on the stored ancestors |
| `TagModel.RepairedStep` | meteor-app/imports/api/tags.ts:44-56 | the repair from a tag is the repair from its parent followed by writing the tag's own fresh path |
| `TagModel.Repaired` | meteor-app/imports/api/tags.ts:47-56 | the store after a fix-mode resolution: each stored ancestor with a resolvable fresh path holds that path |
| `TagModel.FixedStore` | meteor-app/imports/api/tags.ts:294-300 | the store after `fixPath`: unchanged on an error; otherwise the repairs of resolution, then the resolved path on the tag when its snapshot still matches |
| `TagModel.ByPathIds` | meteor-app/imports/api/tags.ts:169-175 | the query of `getAllDescendantsByPath`: other tags whose path has the tag's id and an entry with the tag's name |
| `TagModel.Detached` | meteor-app/imports/api/tags.ts:219-235 | the tags whose non-empty parent id names no stored record |
| `TagModel.InsertKeepsAcyclic` | meteor-app/imports/api/tags.ts:81 | inserting a record with an unused id under an existing parent or as a root keeps every chain finite |
| `TagModel.RemoveKeepsAcyclic` | meteor-app/imports/api/tags.ts:209-211 | removing a record keeps every chain finite |
| `TagModel.SnapshotMatchesIff` | meteor-app/imports/utility/strictSelector.ts:16-28 | a tag matches `strictSelector(snapshot, extra)` iff id, both timestamps and the extra fields agree |
| `TagModel.SameShapeSameHits` | meteor-app/imports/api/tags.ts:294-299 | whether `fixPath`'s compare-and-swap hits does not depend on cached paths |
| `TagModel.FirstIndexIn` | meteor-app/imports/api/tags.ts:114 | the positional `path.$` entry: the first entry whose id is in the given set, or none |
| `TagModel.RenameAt` | meteor-app/imports/api/tags.ts:114 | `path.$.name`: only that entry's name changes; length and ids are kept |
| `TagModel.RenameHits` | meteor-app/imports/api/tags.ts:95-109 | the primary selector: the snapshot matches on id, timestamps and name, and the path is missing, empty or has an entry with id `""` or the tag's id |
| `TagModel.PrimaryRenamed` | meteor-app/imports/api/tags.ts:111-116 | the primary update: the new name, and the positional entry of the path renamed |
| `TagModel.CascadeHits` | meteor-app/imports/api/tags.ts:122-131 | the cascade selector: another tag whose path has the tag's id and no entry named like the new name |
| `TagModel.CascadeRenamed` | meteor-app/imports/api/tags.ts:132-137 | the cascade update: the first entry with the tag's id renamed |
| `TagModel.Renamed` | meteor-app/imports/api/tags.ts:111-139 | after a hit the tag has the new name, and its own path has the first entry with id `""` or the tag's id renamed; ids, parents, timestamps and other names are kept; another tag's path is renamed at the tag's entry iff the cascade selector matches it |
| `TagModel.Reparented` | meteor-app/imports/api/tags.ts:187-192 | the moved tag gets the new parent and path and nothing else changes |
| `TagModel.ReparentKeepsAcyclic` | meteor-app/imports/api/tags.ts:184-192 | moving a tag under a parent that is neither itself nor one of its descendants keeps the store acyclic |
| `TagModel.ReparentOntoItselfCycles` | meteor-app/imports/api/tags.ts:187-192 | the update the source performs for `setTagParent(tag, tag._id)` leaves a chain that never ends |
| `TagModel.ReparentOutcome` | meteor-app/imports/api/tags.ts:184-206 | the whole outcome of `setTagParent`: a missing parent fails before any write; a stale snapshot gives 0; after a move, without fix mode the count is 1 plus the tags found by path; in fix mode it fails exactly when one of them has no fresh path, with that tag's error, and otherwise they all hold their fresh paths |
| `TagModel.FixPathRepaths` | meteor-app/imports/api/tags.ts:196-200 | in fix mode, `fixPath` on a snapshot taken after the move hits, resolves its fresh path and stores it, keeping every path written so far correct |
| `TagModel.FixPathCachedIsIdentity` | meteor-app/imports/api/tags.ts:294-300 | without fix mode, `fixPath` on the current record with a cached path hits and writes that same path back, so the store is unchanged |
| `TagModel.CascadeOutcome` | meteor-app/imports/api/tags.ts:198-200 | the fix-mode loop over snapshots succeeds iff every snapshot has a fresh path, then with one update each; otherwise it fails with the error of the first snapshot without one |
| `TagModel.CascadeOverIds` | meteor-app/imports/api/tags.ts:198-200 | the same outcome seen as a set of ids: it fails exactly when some id has no fresh path, and with that id's error |
| `TagModel.ReachedFrom` | meteor-app/imports/api/tags.ts:263-285 | a listing of ids each of whose parent is the start id or listed earlier, so each hangs below the start id |
| `TagStores.Enumerate` | meteor-app/imports/api/tags.ts:291 | lists each member of a set exactly once |
| `TagStores.TagStore.Fetch` | meteor-app/imports/api/tags.ts:152 | a cursor's `fetch()`: the stored records with the given ids, each once |
| `TagStores.TagStore.AssertParentTag` | meteor-app/imports/api/tags.ts:19-29 | returns the stored parent, or fails with RecordNotFound("Parent Tag not found") naming the id |
| `TagStores.TagStore.GetTagPath` | meteor-app/imports/api/tags.ts:31-59 | the result is `ResolvePath`; in fix mode a success writes the fresh path of every stored ancestor, and otherwise the store is unchanged |
| `TagStores.TagStore.Insert` | meteor-app/imports/api/tags.ts:81 | adds one record under a new non-empty id that no record uses or references |
| `TagStores.TagStore.CreateTag` | meteor-app/imports/api/tags.ts:61-84 | an absent name fails with "Tag must have a name."; a missing parent fails with RecordNotFound; on failure nothing is written; on success exactly one record is added, with equal timestamps, the defaulted parent and the resolved path whose leaf id is "" |
| `TagStores.TagStore.RenameTag` | meteor-app/imports/api/tags.ts:92-144 | true iff the primary selector matches; the store then becomes `Renamed`; otherwise it is unchanged |
| `TagStores.TagStore.GetAllDescendants` | meteor-app/imports/api/tags.ts:146-159 | the breadth-first walk returns every tag whose parent chain passes through the input, each once, and not the input |
| `TagStores.TagStore.GetAllDescendantsByPath` | meteor-app/imports/api/tags.ts:168-176 | exactly the other tags whose path has an entry with the tag's id and an entry with the tag's name |
| `TagStores.TagStore.RemoveTag` | meteor-app/imports/api/tags.ts:209-211 | deletes only that record; true iff it existed; children stay in place |
| `TagStores.TagStore.FixPath` | meteor-app/imports/api/tags.ts:294-300 | resolution errors propagate; otherwise the count is 1 when the snapshot selector matches and 0 when not; the store becomes `FixedStore` |
| `TagStores.TagStore.SetTagParent` | meteor-app/imports/api/tags.ts:184-206 | states `ReparentOutcome`: a missing new parent fails before any write; a stale snapshot gives 0 and no change; after a hit, the count is 1 plus the number of tags found by path; in fix mode the cascade fails iff one of those tags has no fresh path, with that tag's error, and on success they all hold their fresh paths |
| `TagStores.TagStore.MoveTag` | meteor-app/imports/api/tags.ts:187-194 | the compare-and-swap of `setTagParent`: it hits iff the snapshot matches on id, timestamps and parent, and then stores `Reparented` |
| `TagStores.TagStore.FixDescendantPaths` | meteor-app/imports/api/tags.ts:196-201 | runs `fixPath` on every tag found by path: without fix mode nothing changes and the count is their number; in fix mode only fresh paths are written, the result fails iff one of those tags has no fresh path, with that tag's error, and on success the count is their number and each holds its fresh path |
| `TagStores.TagStore.FixPaths` | meteor-app/imports/api/tags.ts:198-200 | the loop over the snapshots: without fix mode nothing changes and the count is their number; in fix mode the result is `CascadeOutcome`, so the first snapshot without a fresh path stops the loop with its error, and on success every snapshot holds its fresh path |
| `TagStores.TagStore.GetDetachedTags` | meteor-app/imports/api/tags.ts:213-292 | terminates on any store, cycles included; lists no id twice; lists exactly the tags whose non-empty parent id names no record |
| `TagStores.TagStore.ExpandDetached` | meteor-app/imports/api/tags.ts:263-285 | the subtree expansion adds the tags it marks to both the checked and the detached sets; it marks only tags not checked before; each marked tag is reached from the given id through its parents (`ReachedFrom`), so a parent cycle that does not hang below the id is never marked; every child of the id or of a marked tag ends up checked |
| `TagStores.TagStore.WalkBelow` | meteor-app/imports/api/tags.ts:267-285 | the `descendants` queue: it ends with every child of the id or of a marked tag checked, and with an order of marking that witnesses `ReachedFrom` |
| `TagProperties.PathSoundIffShaped` | meteor-app/imports/api/tags.ts:39-58 | a cached path is correct iff it lists every stored ancestor's id and name, root first, then the tag's name with its id or "" |
| `TagProperties.ByPathWithinTree` | meteor-app/imports/api/tags.ts:161-176 | with correct cached paths, every tag found by path is a descendant |
| `TagProperties.ByPathAgreesWithTree` | meteor-app/imports/api/tags.ts:146-176 | when every tag has a correct path, the search by path and the tree walk find the same tags |
| `TagProperties.RepairTouchesOnlyStaleAncestors` | meteor-app/imports/api/tags.ts:47-56 | fix-mode resolution of a stored tag changes exactly the ancestors whose cached path differs from their fresh path, and never the tag itself |
| `TagProperties.RemovalDetachesChildren` | meteor-app/imports/api/tags.ts:208-235 | after removing a tag, the detached tags are the ones detached before plus that tag's children |
| `TagProperties.RenameToSameNameIsNoop` | meteor-app/imports/api/tags.ts:92-139 | with correct cached paths, renaming a tag to its current name changes nothing |
| `TagProperties.OwnEntryIsLeaf` | meteor-app/imports/api/tags.ts:103-114 | in a correct path, the primary rename's positional entry (id "" or the tag's id) is the leaf, which carries the tag's name |
| `TagProperties.RenameKeepsOwnShape` | meteor-app/imports/api/tags.ts:111-116 | with correct cached paths, the primary update as written leaves the renamed tag's own path correct: its leaf carries the new name |
| `TagProperties.RenameCascadeMissesTagsWithNewName` | meteor-app/imports/api/tags.ts:122-138 | a store with correct paths in which a rename leaves a descendant's path stale |
| `TagProperties.RenamedIntended` | meteor-app/imports/api/tags.ts:120-138 | the cascade without the name condition: every other tag with the tag's id in its path has that entry renamed |
| `TagProperties.IntendedRenameKeepsPathsSound` | meteor-app/imports/api/tags.ts:120-138 | with the intended cascade, a rename keeps every cached path correct |
| `TagProperties.DetachedTrees` | meteor-app/imports/api/tags.ts:263-285 | the detached tags together with every tag below one of them |
| `TagProperties.DetachedTreesAreUnresolvable` | meteor-app/imports/api/tags.ts:237-289 | a tag is in a detached tree iff its path cannot be resolved because its chain of parents reaches a missing record |
| `TagProperties.DetachedMissesGrandchildren` | meteor-app/imports/api/tags.ts:219-244 | a store in which the child of a detached tag is not listed although its path cannot be resolved |

## Left out

- `watchAndFixMissingPath` (tags.ts:302-321) is a live subscription that calls `fixPath` on every tag lacking `path._id`; subscriptions and fire-and-forget tasks are not modelled.
- Concurrency: each operation runs without interleaving. The compare-and-swap selectors are conditional updates, and the "tag disappeared" branch of `getDetachedTags` (tags.ts:251-254) cannot be taken.
- Meteor method exposure, `NamedCollection`, the logger and the user interface are not part of this model.
- General MongoDB query semantics are not modelled. Only the predicates and patches these operations use are encoded. The positional `path.$` is the first entry that satisfies the array condition: id `""` or the tag's id for the primary rename, the tag's id for the cascade.
- The error cause of `RecordNotFoundException` is reduced to the missing id instead of the selector object `{_id: id}`.
- `Date` is an integer clock reading. The `String(x)` text of numbers and dates in `printable` is taken as given. Values whose `typeof` is `bigint`, `symbol` or `function` are not modelled.
- The order of the records returned by `getAllDescendants`, `getAllDescendantsByPath` and `getDetachedTags` is not modelled: results are stated as sets of distinct ids.
- Path resolution, the descendant walk, `createTag`, `fixPath` and `setTagParent` require an acyclic store, because on a cycle the source's recursion and loops never end. `getDetachedTags` needs no such requirement.
- TagStores.TagStore.SetTagParent: requires that the new parent is neither the tag nor one of its descendants. The source has no such check; see Findings.
- TagStores.TagStore.SetTagParent: in fix mode, the contract does not give the final store exactly. It states that every path the cascade changed now holds its fresh value and that nothing else changed; on success it also states that every tag found by path holds its fresh path. Which of several failing tags' errors is returned depends on the order of `getAllDescendantsByPath`, which is not modelled: the contract names the error of one of them.
- TagStores.TagStore.FixDescendantPaths: in fix mode, the contract states the same facts as `SetTagParent`'s cascade rather than the exact final store.
- TagStores.TagStore.FixPaths: in fix mode, the contract does not list the writes made before a failing snapshot, only that they are fresh paths.
- TagStores.TagStore.RenameTag: a tag whose path is missing or empty matches the primary selector through `'path._id': {$exists: false}` (tags.ts:97-101), and the model renames it (`TagModel.RenameHits`, `TagModel.PrimaryRenamed`). MongoDB rejects an update with the positional `path.$` when the query matched no array element, so on such a tag the source's update fails instead. That failure is not modelled.
- TagStores.TagStore.ExpandDetached: the contract states what the expansion marks and how each marked tag is reached, not the order of its queue. On a store that does not change during the sweep, the branch that calls it is never reached.

## Findings

| source | as written | input that shows it | evidently intended | confidence | as-written member | corrected member |
|---|---|---|---|---|---|---|
| meteor-app/imports/api/tags.ts:122-131 | the cascade update selects other tags with `'path._id': tag._id` and `'path.name': {$ne: newName}`, which excludes every tag whose path has any entry named `newName` | root `a` "r", child `b` "y", grandchild `c` "x", all paths correct; `renameTag(b, "x")` leaves `c`'s path with `{b, "y"}` | rename the tag's entry in the path of every tag that has the tag in its path ("Update all tags has this tag in their paths") | high: the array semantics of `$ne` are standard; not executed | `TagProperties.RenameCascadeMissesTagsWithNewName` | `TagProperties.IntendedRenameKeepsPathsSound` |
| meteor-app/imports/api/tags.ts:219-244 | the seed loop marks a tag with a missing parent as checked; its children queue it as their parent and the walk then skips it, so the subtree expansion never runs | `x` with missing parent `gone`, `y` under `x`: only `x` is listed although `y`'s path cannot be resolved | list "this and all connected tags", i.e. every tag whose chain reaches a missing record | high: follows from the set operations alone; not executed | `TagProperties.DetachedMissesGrandchildren` | `TagProperties.DetachedTreesAreUnresolvable` |
| meteor-app/imports/api/tags.ts:184-192 | `setTagParent` accepts the tag itself or one of its descendants as the new parent | `setTagParent(t, t._id)` sets `t.parentTagId` to `t._id` | refuse moves that would create a cycle, after which `getTagPath` and `getAllDescendants` would never end | medium: callers may already prevent such moves; not executed | `TagModel.ReparentOntoItselfCycles` | `TagModel.ReparentKeepsAcyclic` |
