# geetools batch utilities: a Dafny model

This project models the small part of `geetools/batch/utils.py` that has
logic of its own, apart from the Earth Engine client it calls:

- `isPoint` and `removeZ` (module `Coordinates`). A GeoJSON-style
  coordinate list is walked recursively. Every point, meaning a list of two
  or three entries whose first two are numbers, loses its third entry.
- `recrusiveDeleteAsset` (module `AssetDeletion`). Deletes a remote asset
  tree: leaves at once, containers after their children.
- `createAssets` (module `AssetCreation`). Creates assets, and their parent
  folders when asked.

Coordinates are the datatype `Coord = Num | List(seq<Coord>)`. `RemoveZ` is a
method with a loop over the list. For each entry it calls `RemoveZEntry`,
which pops a point or calls `RemoveZ` recursively on a sub-list. It is proved
equal to the function `StripZ`, and the properties of the walk are
lemmas about `StripZ`. A walk that reaches a bare number stops with the
`TypeError` Python raises when `isPoint` takes the `len` of a number. The
updates made before that point are kept, as in-place updates would be.

The remote catalogue (module `Catalogue`) is a map from asset id to the
asset's type and to what `getList` answers for it. `None` stands for a
listing that raises. The Earth Engine session is the class `Client`, which
holds that map and the trace `calls` of every `getInfo`, `getList`,
`deleteAsset` and `createAsset` it has issued. `RecursiveDeleteAsset` and
`CreateAssets` are methods on the client. Each is proved to append exactly the
trace of a function, `Walk` or `CreateAll`, and the properties are lemmas
about those functions. Python's `str.split('/')` and `'/'.join` are modelled
in module `Paths`, with both round trips proved.

The recursion of the delete walk terminates on an acyclic catalogue. A ghost
map `rank` witnesses acyclicity (`Ranked`): every child listed by a container
ranks below that container. The listings of other assets are never read and
are not constrained. `Below` is the descendant relation along those listings.

The model follows the code, also where it departs from a plain "children first, then the parent" reading:

- The code deletes only `Image` children directly. Any other child is walked
  recursively, including a `FeatureCollection` child, which the recursive call
  then deletes as a leaf.
- A missing asset and a failing `getList` are reported and the function
  returns normally. Neither is raised. After a child's listing fails, the
  parent goes on with the next child and then deletes itself.
- An asset of an unsupported type makes the function raise. The raise is an
  `UnboundLocalError`, because `content` is never assigned (utils.py:105-108).
  It propagates through every enclosing call, so no enclosing container is
  deleted. The siblings handled before it stay deleted.

## Model

| member | source | states |
|---|---|---|
| Coordinates.IsPoint | geetools/batch/utils.py:70-79 | true exactly when the list has 2 or 3 entries and its first two entries are numbers |
| Coordinates.DropZ | geetools/batch/utils.py:86-87 | `p.pop(2)` when `len(p) == 3`: the result is a prefix of the point, of length 2 for a point of length 3 and of the point's own length otherwise |
| Coordinates.VisitEntry | geetools/batch/utils.py:83-87 | one entry of the walk leaves exactly one entry behind: a point is popped where needed, another list is walked, and a number stops the walk with `TypeError` |
| Coordinates.StripZ | geetools/batch/utils.py:82-89 | the walk never changes the length of the list it walks |
| Coordinates.RemoveZ | geetools/batch/utils.py:82-89 | the loop over the entries leaves the list, and the `TypeError` flag, that `StripZ` gives: points with 3 entries are cut to 2, other lists are walked recursively, and a bare number stops the walk |
| Coordinates.RemoveZEntry | geetools/batch/utils.py:85-89 | one entry as the loop handles it, equal to `VisitEntry`: a point of length 3 loses index 2, a point of length 2 is kept, another list is walked, and a number raises |
| Coordinates.StripZKeepsKinds | geetools/batch/utils.py:84-89 | every entry is still a number or a list, as it was before the walk |
| Coordinates.IsPointKept | geetools/batch/utils.py:85-89 | a list that is not a point is still not one after the walk into it, and vice versa |
| Coordinates.PointsArePoints | geetools/batch/utils.py:85 | everything the walk treats as a point satisfies `isPoint` |
| Coordinates.StripZShape | geetools/batch/utils.py:82-87 | the skeleton is unchanged: the numbers and the nesting of the non-point lists stay as they were, and each point stays at its place; each point is left as it was or has only its third entry popped, so its first two entries are kept; when no `TypeError` occurs, every point reached is popped |
| Coordinates.SkeletonMarksPoints | geetools/batch/utils.py:83 | the skeleton marks exactly the entries that are points, and nothing else, so lists with equal skeletons hold their points at the same places |
| Coordinates.TypeErrorIff | geetools/batch/utils.py:72-89 | the walk raises `TypeError` exactly when it meets a bare number (directly, or inside a non-point list) |
| Coordinates.StripZFlattens | geetools/batch/utils.py:85-87 | after a walk with no `TypeError`, every point in the list has exactly two entries |
| Coordinates.FlatUnchanged | geetools/batch/utils.py:83-87 | a list whose points already have two entries, with no bare number, is left unchanged with no error ("if needed") |
| Coordinates.StripZIdempotent | geetools/batch/utils.py:83-87 | a second walk over the result of a walk changes nothing and ends the same way |
| Catalogue.DeletionsMembers | geetools/batch/utils.py:110-121 | the deleted ids of a trace are exactly the ids of its `deleteAsset` calls |
| Catalogue.CreationsMembers | geetools/batch/utils.py:186-188 | the creations of a trace are exactly its `createAsset` calls |
| Catalogue.Client.GetInfo | geetools/batch/utils.py:93 | records the `getInfo` call and answers with the asset's type, or `None` for an absent id |
| Catalogue.Client.GetList | geetools/batch/utils.py:101 | records the `getList` call and answers with the listing, or `None` when it raises |
| Catalogue.Client.DeleteAsset | geetools/batch/utils.py:110 | records the `deleteAsset` call |
| Catalogue.Client.CreateAsset | geetools/batch/utils.py:188 | records the `createAsset` call |
| AssetDeletion.Walk | geetools/batch/utils.py:92-123 | the calls of `recrusiveDeleteAsset(id)`, branch by branch; every walk starts with the `getInfo` of its id |
| AssetDeletion.Visit | geetools/batch/utils.py:113-119 | an `Image` child is deleted without a `getInfo`; every other child's walk starts with the `getInfo` of that child |
| AssetDeletion.WalkChildren | geetools/batch/utils.py:112-119 | the loop over a listing, up to the first child that raises; only a child that is walked (not an `Image`) can make it raise, and `ChildRaisePropagates` gives the converse |
| AssetDeletion.ChildRaisePropagates | geetools/batch/utils.py:112-119 | a child whose visit raises makes the loop over the listing raise |
| AssetDeletion.ChildRaiseKeepsParent | geetools/batch/utils.py:105-121 | a non-`Image` child whose walk raises makes its container's walk raise, and the container is then not deleted; level by level, no ancestor of an asset of unsupported type is deleted |
| AssetDeletion.ChildrenVisited | geetools/batch/utils.py:112-119 | a loop that does not raise reaches every child of the listing, which gets either its direct deletion or its walk's `getInfo` |
| AssetDeletion.RecursiveDeleteAsset | geetools/batch/utils.py:92-123 | appends exactly the calls of `Walk` for the asset, and raises exactly when `Walk` does |
| AssetDeletion.DeleteChildren | geetools/batch/utils.py:112-119 | the loop over the listing appends exactly the calls of `WalkChildren`: an `Image` child is deleted directly, any other child is walked, and the loop stops at the first child that raises |
| AssetDeletion.DeleteChild | geetools/batch/utils.py:113-119 | one child of the listing as the loop handles it, equal to `Visit`: an `Image` is deleted directly, any other child is walked recursively |
| AssetDeletion.LeafDeletedOnce | geetools/batch/utils.py:96-110 | for an `Image` or `FeatureCollection`, the walk is a `getInfo` and one `deleteAsset` of that id, with no `getList` |
| AssetDeletion.NothingDeletedOnFailure | geetools/batch/utils.py:99-123 | an absent asset, or a container whose `getList` raises, gets no `deleteAsset`, and the walk returns normally |
| AssetDeletion.UnsupportedRaises | geetools/batch/utils.py:105-108 | an asset of any other type gets only its `getInfo`, and the walk raises |
| AssetDeletion.DeletesBelow | geetools/batch/utils.py:111-121 | every id a walk deletes is the walked asset or one of its descendants through the listings of containers (`Below`), and so has a lower height |
| AssetDeletion.ExampleBelow | geetools/batch/utils.py:111-119 | descent follows the listings: in the example tree the sibling `root/a` is not below `root/b`, while `root/b/c` is below `root/b` and `root` |
| AssetDeletion.OwnDeletionLast | geetools/batch/utils.py:92-123 | the walked asset is deleted exactly when it exists and is a leaf, or is a listed container whose walk does not raise; its deletion is then the last call and the only call deleting it |
| AssetDeletion.ChildrenDeleted | geetools/batch/utils.py:112-119 | when the loop over the listing does not raise, every child that gets deleted is deleted by that loop |
| AssetDeletion.ChildrenBeforeParent | geetools/batch/utils.py:111-121 | in a container's walk that does not raise, every child that gets deleted is deleted before the container, and the container's deletion is the last call |
| AssetDeletion.ExampleTree | geetools/batch/utils.py:111-121 | for `root` holding `root/a` (an image) and `root/b` (a folder holding the image `root/b/c`), the deletions run in the order `root/a`, `root/b/c`, `root/b`, `root` |
| Paths.Split | geetools/batch/utils.py:180 | `split('/')` gives at least one segment |
| Paths.SplitSegments | geetools/batch/utils.py:180 | no segment of a split contains a separator |
| Paths.Join | geetools/batch/utils.py:181 | `'/'.join(parts)`: one separator between consecutive segments, so the join is at least `len(parts) - 1` long |
| Paths.JoinSplit | geetools/batch/utils.py:180-181 | joining the segments of a split gives back the id |
| Paths.SplitJoin | geetools/batch/utils.py:180-181 | splitting the join of separator-free segments gives back the segments |
| Paths.JoinPrefix | geetools/batch/utils.py:181-187 | the join of the first `k` segments, followed by a separator, is a prefix of the whole id |
| AssetCreation.Parents | geetools/batch/utils.py:180-184 | an id with `n > 3` segments has `n - 3` parent folders to consider, and an id with fewer segments has none |
| AssetCreation.ParentsShape | geetools/batch/utils.py:180-187 | parent `k` has the first `k + 3` segments of the id, so neither of the first two segments is ever created alone; each parent followed by `/` is a prefix of the id and of the next parent (shallow to deep) |
| AssetCreation.FolderCalls | geetools/batch/utils.py:183-187 | the calls for the parents, in order: one `getInfo` for each and at most one creation for each |
| AssetCreation.MissingFolders | geetools/batch/utils.py:185-186 | the folder creations for the absent parents: at most one for each parent, and none when every parent exists |
| AssetCreation.EnsureFolder | geetools/batch/utils.py:185-186 | a `getInfo` of the folder, then a `Folder` creation exactly when the folder is absent |
| AssetCreation.MakeParents | geetools/batch/utils.py:179-187 | the loop that grows `root` one segment at a time appends exactly `FolderCalls` of the parents: a `getInfo` of each, and a `Folder` creation where it is absent |
| AssetCreation.FolderCreations | geetools/batch/utils.py:183-187 | the creations among the folder calls are exactly the missing parents, in order |
| AssetCreation.MissingFoldersIff | geetools/batch/utils.py:185-186 | only `Folder`s are created for parents, and a parent is created exactly when it is absent |
| AssetCreation.CreateWithParents | geetools/batch/utils.py:179-188 | creating an absent asset issues the parent-folder calls (with `mk_parents`) and then the asset's own creation |
| AssetCreation.CreateAll | geetools/batch/utils.py:171-188 | the calls of `createAssets` and how it ends; a run with ids starts with the `getInfo` of the first id and a run without ids issues nothing; a creation is of the requested type and is the last call |
| AssetCreation.CreateAssets | geetools/batch/utils.py:150-188 | appends exactly the calls of `CreateAll` and returns its outcome; the loop keeps the invariant that every id passed so far exists with the requested type and got only a `getInfo` |
| AssetCreation.SkippedPrefix | geetools/batch/utils.py:171-178 | after skipping a prefix of ids that all exist with the requested type, the run is their `getInfo`s followed by the run on the remaining ids |
| AssetCreation.ValueErrorCreatesNothing | geetools/batch/utils.py:171-176 | a `ValueError` for `x` means that every id before `x` exists with the requested type, that `x` exists with a different type, and that nothing was created |
| AssetCreation.NoneCreatedIff | geetools/batch/utils.py:171-178 | the result is `None` exactly when every id exists with the requested type; the run then only issues one `getInfo` per id |
| AssetCreation.CreatedTrace | geetools/batch/utils.py:171-188 | creating `x` means that every id before `x` exists with the requested type and that `x` is absent; the creations are the missing parents (with `mk_parents`), then `x` as the very last call |
| AssetCreation.StopsEarly | geetools/batch/utils.py:171-188 | ids after the first one that is created or raises are never looked at; a run that skips everything goes on with the next ids |

## Left out

- `getProjection`, `kmlToGeoJsonDict`, `downloadFile` and `convertDataType`, and `GEOMETRY_TYPES`: these are file I/O, HTTP, and foreign libraries or Earth Engine constructors whose behaviour is not visible.
- `geetools/batch/imagecollection.py` and `geetools/tools/string.py`, which are not part of this model: they are export-task submission and server-side string operations of the Earth Engine client.
- The network: `getInfo`, `getList`, `deleteAsset` and `createAsset` act on a catalogue snapshot the session does not see change. A deletion or creation is recorded in the trace, and the catalogue stays as it was. Within one call, the code never queries an id again after it has changed that id, provided each asset appears in only one listing, as it does in a real asset tree. If the same id were listed twice, the model would still report it after its deletion.
- Remote failures of `deleteAsset` and `createAsset`: they are always recorded as succeeding. This includes deleting the parent of a container whose listing raised: that parent still holds the container, so the remote side would refuse the deletion.
- The printed messages (`does not exists`, `Can't handle`, `already exists`, the listing's exception text). They appear only as comments.
- The value `createAsset` returns, which is a description from the server: modelled as `Created(kind, id)`.
- AssetDeletion.RecursiveDeleteAsset: requires `Ranked`, a catalogue whose container listings form no cycle. Children listed as `Image` count in that ranking too, although the walk deletes them without recursing, so a cycle that passes through such a child is excluded although Python would finish on it. A catalogue whose listings form a cycle of walked children would make the Python function end with `RecursionError`, which is not modelled.
- Coordinates.RemoveZ: works on values, not on shared Python lists. The list after the walk is returned instead of being updated in place, so aliasing between sub-lists (the same list reached twice) is not modelled.
- Coordinates.RemoveZ: entries are numbers or lists only. Other values, such as strings, `None` and `bool`, and a top-level argument that is not a list, are not modelled. The kinds of number (`int`, `float`) are not distinguished.
