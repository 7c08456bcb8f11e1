/** Recursive deletion of an asset tree (`recrusiveDeleteAsset` in
    geetools/batch/utils.py). */
module AssetDeletion {
  import opened Catalogue
  import opened Sequences

  /** The calls a walk issues, and whether it ends by raising. The only
      exception is the `UnboundLocalError` of an asset of unsupported type,
      for which `content` is never assigned; it propagates through every
      enclosing walk. */
  datatype Run = Run(calls: seq<Call>, raised: bool)

  /** `rank` witnesses that the catalogue is acyclic: every child listed by
      a container that is itself in the catalogue ranks below that container.
      Listings of other assets are never read, so they are not constrained. */
  predicate Ranked(cat: Catalog, rank: map<Id, nat>)
  {
    forall id | id in cat && IsContainerType(cat[id].kind) && cat[id].listing.Some? ::
      id in rank &&
      forall c | c in cat[id].listing.value && c.id in cat :: c.id in rank && rank[c.id] < rank[id]
  }

  /** The depth measure of the walk: one more than the rank for an asset in
      the catalogue, zero for an id the catalogue does not hold. */
  function Height(cat: Catalog, rank: map<Id, nat>, id: Id): nat
  {
    if id in cat && id in rank then rank[id] + 1 else 0
  }

  /** Every listed child of the container `id` has a lower height. */
  lemma ChildrenBelow(cat: Catalog, rank: map<Id, nat>, id: Id)
    requires Ranked(cat, rank) && id in cat && IsContainerType(cat[id].kind) && cat[id].listing.Some?
    ensures forall c | c in cat[id].listing.value :: Height(cat, rank, c.id) < Height(cat, rank, id)
  {
  }

  /** The calls `recrusiveDeleteAsset(id)` issues:
      - no such asset: only the `getInfo` (and the message);
      - `Image`, `FeatureCollection`: deleted at once;
      - `Folder`, `ImageCollection`: listed; a failing listing ends the walk,
        otherwise the children are handled in order and then the container
        is deleted;
      - any other type: the walk raises, with no deletion. */
  function Walk(cat: Catalog, rank: map<Id, nat>, id: Id): (r: Run)
    requires Ranked(cat, rank)
    ensures r.calls != [] && r.calls[0] == InfoCall(id)
    decreases Height(cat, rank, id), 1, 0
  {
    if id !in cat then Run([InfoCall(id)], false)
    else
      var ty := cat[id].kind;
      if IsLeafType(ty) then Run([InfoCall(id), DeleteCall(id)], false)
      else if IsContainerType(ty) then
        match cat[id].listing
        case None => Run([InfoCall(id), ListCall(id)], false)
        case Some(kids) =>
          ChildrenBelow(cat, rank, id);
          var r := WalkChildren(cat, rank, Height(cat, rank, id), kids);
          if r.raised then Run([InfoCall(id), ListCall(id)] + r.calls, true)
          else Run([InfoCall(id), ListCall(id)] + r.calls + [DeleteCall(id)], false)
      else Run([InfoCall(id)], true)
  }

  /** What one listed child adds: an `Image` is deleted directly, anything
      else is walked. */
  function Visit(cat: Catalog, rank: map<Id, nat>, bound: nat, c: Child): (r: Run)
    requires Ranked(cat, rank) && Height(cat, rank, c.id) < bound
    ensures r.calls != [] && (r.calls[0] == InfoCall(c.id) <==> c.kind != Image)
    ensures r.calls[0] == InfoCall(c.id) || r.calls[0] == DeleteCall(c.id)
    decreases bound, 0, 1
  {
    if c.kind == Image then Run([DeleteCall(c.id)], false) else Walk(cat, rank, c.id)
  }

  /** The calls for the children `kids` handled in order, up to the first
      that raises. `bound` is the height of their parent. */
  function WalkChildren(cat: Catalog, rank: map<Id, nat>, bound: nat, kids: seq<Child>): (r: Run)
    requires Ranked(cat, rank)
    requires forall c | c in kids :: Height(cat, rank, c.id) < bound
    ensures r.raised ==> exists c | c in kids :: c.kind != Image
    decreases bound, 0, 2 + |kids|
  {
    if kids == [] then Run([], false)
    else
      var prev := WalkChildren(cat, rank, bound, kids[..|kids| - 1]);
      if prev.raised then prev
      else
        var step := Visit(cat, rank, bound, kids[|kids| - 1]);
        Run(prev.calls + step.calls, step.raised)
  }

  /** A loop that does not raise reaches every child of the listing: each
      gets its direct deletion or the `getInfo` that starts its walk. */
  lemma {:induction false} ChildrenVisited(cat: Catalog, rank: map<Id, nat>, bound: nat, kids: seq<Child>)
    requires Ranked(cat, rank)
    requires forall c | c in kids :: Height(cat, rank, c.id) < bound
    ensures var r := WalkChildren(cat, rank, bound, kids);
      !r.raised ==> forall c | c in kids :: InfoCall(c.id) in r.calls || DeleteCall(c.id) in r.calls
    decreases |kids|
  {
    if kids != [] {
      var init := kids[..|kids| - 1];
      var c := kids[|kids| - 1];
      assert forall k | k in init :: k in kids;
      assert kids == init + [c];
      ChildrenVisited(cat, rank, bound, init);
      var step := Visit(cat, rank, bound, c);
      assert step.calls[0] in step.calls;
    }
  }

  /** A child whose visit raises makes the whole loop over the listing
      raise: the loop stops at it, or at an earlier child that raises, and
      the exception propagates out of the loop. */
  lemma {:induction false} ChildRaisePropagates(cat: Catalog, rank: map<Id, nat>, bound: nat, kids: seq<Child>, i: nat)
    requires Ranked(cat, rank)
    requires forall c | c in kids :: Height(cat, rank, c.id) < bound
    requires i < |kids| && Visit(cat, rank, bound, kids[i]).raised
    ensures WalkChildren(cat, rank, bound, kids).raised
    decreases |kids|
  {
    var n := |kids| - 1;
    var init := kids[..n];
    assert forall k | k in init :: k in kids;
    if i < n {
      assert init[i] == kids[i];
      ChildRaisePropagates(cat, rank, bound, init, i);
    }
  }

  /** `WalkChildren` over the first `i + 1` children, from that over the first `i`. */
  lemma WalkChildrenSnoc(cat: Catalog, rank: map<Id, nat>, bound: nat, kids: seq<Child>, i: nat)
    requires Ranked(cat, rank) && i < |kids|
    requires forall c | c in kids :: Height(cat, rank, c.id) < bound
    ensures forall c | c in kids[..i] :: Height(cat, rank, c.id) < bound
    ensures forall c | c in kids[..i + 1] :: Height(cat, rank, c.id) < bound
    ensures var prev := WalkChildren(cat, rank, bound, kids[..i]);
      WalkChildren(cat, rank, bound, kids[..i + 1]) ==
        if prev.raised then prev
        else
          var step := Visit(cat, rank, bound, kids[i]);
          Run(prev.calls + step.calls, step.raised)
  {
    assert forall c | c in kids[..i + 1] :: c in kids;
    assert kids[..i + 1][..i] == kids[..i] && kids[..i + 1][i] == kids[i];
  }

  /** The loop state after the child at index `i` is handled: the loop
      invariant at `i + 1`, or the final state when that child raised. */
  lemma ChildStep(cat: Catalog, rank: map<Id, nat>, h: nat, kids: seq<Child>, i: nat,
                  start: seq<Call>, before: seq<Call>, after: seq<Call>, r: bool)
    requires Ranked(cat, rank) && i < |kids|
    requires forall c | c in kids :: Height(cat, rank, c.id) < h
    requires forall c | c in kids[..i] :: Height(cat, rank, c.id) < h
    requires before == start + WalkChildren(cat, rank, h, kids[..i]).calls
    requires !WalkChildren(cat, rank, h, kids[..i]).raised
    requires after == before + Visit(cat, rank, h, kids[i]).calls
    requires r == Visit(cat, rank, h, kids[i]).raised
    ensures forall c | c in kids[..i + 1] :: Height(cat, rank, c.id) < h
    ensures after == start + WalkChildren(cat, rank, h, kids[..i + 1]).calls
    ensures r == WalkChildren(cat, rank, h, kids[..i + 1]).raised
    ensures r ==> WalkChildren(cat, rank, h, kids) == WalkChildren(cat, rank, h, kids[..i + 1])
  {
    WalkChildrenSnoc(cat, rank, h, kids, i);
    Assoc(start, WalkChildren(cat, rank, h, kids[..i]).calls, Visit(cat, rank, h, kids[i]).calls);
    if r {
      RaisedPrefix(cat, rank, h, kids, i + 1);
    }
  }

  /** Once a child raises, the later children add nothing. */
  lemma {:induction false} RaisedPrefix(cat: Catalog, rank: map<Id, nat>, bound: nat, kids: seq<Child>, j: nat)
    requires Ranked(cat, rank)
    requires forall c | c in kids :: Height(cat, rank, c.id) < bound
    requires j <= |kids|
    requires forall c | c in kids[..j] :: Height(cat, rank, c.id) < bound
    requires WalkChildren(cat, rank, bound, kids[..j]).raised
    ensures WalkChildren(cat, rank, bound, kids) == WalkChildren(cat, rank, bound, kids[..j])
    decreases |kids|
  {
    if j < |kids| {
      var init := kids[..|kids| - 1];
      assert init[..j] == kids[..j];
      assert forall k | k in init :: k in kids;
      RaisedPrefix(cat, rank, bound, init, j);
    } else {
      assert kids[..j] == kids;
    }
  }

  /** `recrusiveDeleteAsset(assetId)` against the client's catalogue. The
      exception it may raise is returned as `raised`. */
  method RecursiveDeleteAsset(client: Client, assetId: Id, ghost rank: map<Id, nat>) returns (raised: bool)
    requires Ranked(client.catalogue, rank)
    modifies client
    ensures client.calls == old(client.calls) + Walk(client.catalogue, rank, assetId).calls
    ensures raised == Walk(client.catalogue, rank, assetId).raised
    decreases Height(client.catalogue, rank, assetId), 2
  {
    ghost var cat := client.catalogue;
    var info := client.GetInfo(assetId);
    if info.None? {
      // "does not exists or there is another problem"
      return false;
    }
    var ty := info.value;
    if IsLeafType(ty) {
      client.DeleteAsset(assetId);
      return false;
    }
    if !IsContainerType(ty) {
      // "Can't handle ... type yet", then `content` is unbound
      return true;
    }
    var content := client.GetList(assetId);
    if content.None? {
      return false;
    }
    var kids := content.value;
    ghost var h := Height(cat, rank, assetId);
    ghost var start := client.calls;
    assert start == old(client.calls) + [InfoCall(assetId), ListCall(assetId)];
    ChildrenBelow(cat, rank, assetId);
    raised := DeleteChildren(client, kids, rank, h);
    if !raised {
      client.DeleteAsset(assetId);
    }
  }

  /** The loop of `recrusiveDeleteAsset` over a listing: `Image` children
      are deleted directly, the others walked; it stops at the first that
      raises. */
  method DeleteChildren(client: Client, kids: seq<Child>, ghost rank: map<Id, nat>, ghost h: nat)
    returns (raised: bool)
    requires Ranked(client.catalogue, rank)
    requires forall c | c in kids :: Height(client.catalogue, rank, c.id) < h
    modifies client
    ensures client.calls == old(client.calls) + WalkChildren(client.catalogue, rank, h, kids).calls
    ensures raised == WalkChildren(client.catalogue, rank, h, kids).raised
    decreases h, 1
  {
    ghost var cat := client.catalogue;
    ghost var start := client.calls;
    var i := 0;
    assert kids[..0] == [];
    while i < |kids|
      invariant 0 <= i <= |kids|
      invariant forall c | c in kids[..i] :: Height(cat, rank, c.id) < h
      invariant client.calls == start + WalkChildren(cat, rank, h, kids[..i]).calls
      invariant !WalkChildren(cat, rank, h, kids[..i]).raised
    {
      ghost var before := client.calls;
      var r := DeleteChild(client, kids[i], rank, h);
      ChildStep(cat, rank, h, kids, i, start, before, client.calls, r);
      if r {
        return true;
      }
      i := i + 1;
    }
    assert kids[..i] == kids;
    return false;
  }

  /** One child of the listing: an `Image` is deleted directly, any other
      child is walked recursively. */
  method DeleteChild(client: Client, c: Child, ghost rank: map<Id, nat>, ghost h: nat) returns (raised: bool)
    requires Ranked(client.catalogue, rank) && Height(client.catalogue, rank, c.id) < h
    modifies client
    ensures client.calls == old(client.calls) + Visit(client.catalogue, rank, h, c).calls
    ensures raised == Visit(client.catalogue, rank, h, c).raised
    decreases h, 0
  {
    if c.kind == Image {
      client.DeleteAsset(c.id);
      return false;
    }
    raised := RecursiveDeleteAsset(client, c.id, rank);
  }

  /** A leaf asset gets exactly one `deleteAsset` of its own id, and is never
      listed. */
  lemma LeafDeletedOnce(cat: Catalog, rank: map<Id, nat>, id: Id)
    requires Ranked(cat, rank) && id in cat && IsLeafType(cat[id].kind)
    ensures Walk(cat, rank, id) == Run([InfoCall(id), DeleteCall(id)], false)
  {
  }

  /** A missing asset, or a container whose listing fails, gets no deletion
      and the walk returns normally. */
  lemma NothingDeletedOnFailure(cat: Catalog, rank: map<Id, nat>, id: Id)
    requires Ranked(cat, rank)
    requires id !in cat || (IsContainerType(cat[id].kind) && cat[id].listing.None?)
    ensures Deletions(Walk(cat, rank, id).calls) == [] && !Walk(cat, rank, id).raised
  {
    var calls := Walk(cat, rank, id).calls;
    assert forall x :: DeleteCall(x) !in calls;
    DeletionsMembers(calls);
    if Deletions(calls) != [] {
      assert Deletions(calls)[0] in Deletions(calls);
    }
  }

  /** An asset of any other type makes the walk raise with no deletion. */
  lemma UnsupportedRaises(cat: Catalog, rank: map<Id, nat>, id: Id)
    requires Ranked(cat, rank) && id in cat
    requires !IsLeafType(cat[id].kind) && !IsContainerType(cat[id].kind)
    ensures Walk(cat, rank, id) == Run([InfoCall(id)], true)
  {
  }

  /** `x` is a descendant of `id` in the tree the walk explores: `id` is a
      container in the catalogue whose listing holds `x`, or holds a child
      that `x` is a descendant of. */
  predicate Below(cat: Catalog, rank: map<Id, nat>, id: Id, x: Id)
    requires Ranked(cat, rank)
    decreases Height(cat, rank, id), 0
  {
    id in cat && IsContainerType(cat[id].kind) && cat[id].listing.Some? &&
    (ChildrenBelow(cat, rank, id);
     exists c | c in cat[id].listing.value :: Listed(cat, rank, c, x))
  }

  /** `x` is the listed child `c` or one of its descendants. */
  predicate Listed(cat: Catalog, rank: map<Id, nat>, c: Child, x: Id)
    requires Ranked(cat, rank)
    decreases Height(cat, rank, c.id), 1
  {
    c.id == x || Below(cat, rank, c.id, x)
  }

  /** Every id a walk deletes is the walked id itself or one of its
      descendants, and so has a lower height unless it is the walked id. */
  lemma {:induction false} DeletesBelow(cat: Catalog, rank: map<Id, nat>, id: Id)
    requires Ranked(cat, rank)
    ensures forall x | DeleteCall(x) in Walk(cat, rank, id).calls ::
      x == id || (Below(cat, rank, id, x) && Height(cat, rank, x) < Height(cat, rank, id))
    decreases Height(cat, rank, id), 1, 0
  {
    if id in cat && IsContainerType(cat[id].kind) && cat[id].listing.Some? {
      var kids := cat[id].listing.value;
      ChildrenBelow(cat, rank, id);
      ChildrenDeleteBelow(cat, rank, Height(cat, rank, id), kids);
    }
  }

  /** Every id the loop over `kids` deletes is one of the children or a
      descendant of one, and its height is below `bound`. */
  lemma {:induction false} ChildrenDeleteBelow(cat: Catalog, rank: map<Id, nat>, bound: nat, kids: seq<Child>)
    requires Ranked(cat, rank)
    requires forall c | c in kids :: Height(cat, rank, c.id) < bound
    ensures forall x | DeleteCall(x) in WalkChildren(cat, rank, bound, kids).calls ::
      Height(cat, rank, x) < bound && exists c | c in kids :: Listed(cat, rank, c, x)
    decreases bound, 0, 2 + |kids|
  {
    if kids != [] {
      var init := kids[..|kids| - 1];
      var c := kids[|kids| - 1];
      assert forall k | k in init :: k in kids;
      ChildrenDeleteBelow(cat, rank, bound, init);
      if c.kind != Image {
        DeletesBelow(cat, rank, c.id);
      }
      assert c in kids;
    }
  }

  /** The walked asset is deleted exactly when it exists and is a leaf, or is
      a container whose listing succeeds and whose walk does not raise; then
      its deletion is the last call of the walk and the only one of its id.
      In particular a walk that raises never deletes the walked asset. */
  lemma {:induction false} OwnDeletionLast(cat: Catalog, rank: map<Id, nat>, id: Id)
    requires Ranked(cat, rank)
    ensures var w := Walk(cat, rank, id);
      (DeleteCall(id) in w.calls <==>
        id in cat &&
        (IsLeafType(cat[id].kind) ||
         (IsContainerType(cat[id].kind) && cat[id].listing.Some? && !w.raised)))
    ensures var w := Walk(cat, rank, id);
      DeleteCall(id) in w.calls ==>
        w.calls[|w.calls| - 1] == DeleteCall(id) && DeleteCall(id) !in w.calls[..|w.calls| - 1]
  {
    var w := Walk(cat, rank, id);
    if id in cat && IsContainerType(cat[id].kind) && cat[id].listing.Some? {
      var kids := cat[id].listing.value;
      var h := Height(cat, rank, id);
      ChildrenBelow(cat, rank, id);
      ChildrenDeleteBelow(cat, rank, h, kids);
      var r := WalkChildren(cat, rank, h, kids);
      assert DeleteCall(id) !in r.calls;
      var pre := [InfoCall(id), ListCall(id)] + r.calls;
      assert DeleteCall(id) !in pre;
      if !r.raised {
        assert w.calls == pre + [DeleteCall(id)];
        assert w.calls[..|w.calls| - 1] == pre;
      }
    }
  }

  /** A child of a container that is walked and raises (an asset of
      unsupported type, or one with such an asset below it) makes the
      container's walk raise, so the container is not deleted. Applied
      level by level, this keeps every ancestor of the unsupported asset. */
  lemma ChildRaiseKeepsParent(cat: Catalog, rank: map<Id, nat>, id: Id, c: Child)
    requires Ranked(cat, rank) && id in cat && IsContainerType(cat[id].kind) && cat[id].listing.Some?
    requires c in cat[id].listing.value && c.kind != Image && Walk(cat, rank, c.id).raised
    ensures Walk(cat, rank, id).raised && DeleteCall(id) !in Walk(cat, rank, id).calls
  {
    var kids := cat[id].listing.value;
    var h := Height(cat, rank, id);
    ChildrenBelow(cat, rank, id);
    var i :| 0 <= i < |kids| && kids[i] == c;
    assert Visit(cat, rank, h, kids[i]).raised;
    ChildRaisePropagates(cat, rank, h, kids, i);
    OwnDeletionLast(cat, rank, id);
  }

  /** A child counts as deleted by its parent's walk when it is an `Image`
      (deleted directly) or its own walk deletes it. */
  predicate ChildDeleted(cat: Catalog, rank: map<Id, nat>, bound: nat, c: Child)
    requires Ranked(cat, rank) && Height(cat, rank, c.id) < bound
  {
    DeleteCall(c.id) in Visit(cat, rank, bound, c).calls
  }

  lemma {:induction false} ChildrenDeleted(cat: Catalog, rank: map<Id, nat>, bound: nat, kids: seq<Child>)
    requires Ranked(cat, rank)
    requires forall c | c in kids :: Height(cat, rank, c.id) < bound
    ensures !WalkChildren(cat, rank, bound, kids).raised ==>
      forall c | c in kids && ChildDeleted(cat, rank, bound, c) ::
        DeleteCall(c.id) in WalkChildren(cat, rank, bound, kids).calls
    decreases |kids|
  {
    if kids != [] {
      var init := kids[..|kids| - 1];
      assert forall k | k in init :: k in kids;
      assert kids == init + [kids[|kids| - 1]];
      ChildrenDeleted(cat, rank, bound, init);
    }
  }

  /** In a container's walk that does not raise, every child that gets
      deleted at all (every `Image` child, and every other child whose own
      walk deletes it) is deleted before the container, whose deletion is the
      last call. */
  lemma ChildrenBeforeParent(cat: Catalog, rank: map<Id, nat>, id: Id)
    requires Ranked(cat, rank) && id in cat && IsContainerType(cat[id].kind)
    requires cat[id].listing.Some? && !Walk(cat, rank, id).raised
    ensures var w := Walk(cat, rank, id);
      |w.calls| > 0 && w.calls[|w.calls| - 1] == DeleteCall(id) &&
      forall c | c in cat[id].listing.value && ChildDeleted(cat, rank, Height(cat, rank, id), c) ::
        DeleteCall(c.id) in w.calls[..|w.calls| - 1]
  {
    var w := Walk(cat, rank, id);
    var kids := cat[id].listing.value;
    var h := Height(cat, rank, id);
    ChildrenBelow(cat, rank, id);
    ChildrenDeleted(cat, rank, h, kids);
    var r := WalkChildren(cat, rank, h, kids);
    var pre := [InfoCall(id), ListCall(id)] + r.calls;
    assert w.calls == pre + [DeleteCall(id)];
    assert w.calls[..|w.calls| - 1] == pre;
  }

  /** A small tree: `root` holds the image `root/a` and the
      folder `root/b`, which holds the image `root/b/c`. */
  const ExampleCatalog: Catalog := map[
    "root" := Asset(Folder, Some([Child("root/a", Image), Child("root/b", Folder)])),
    "root/a" := Asset(Image, None),
    "root/b" := Asset(Folder, Some([Child("root/b/c", Image)])),
    "root/b/c" := Asset(Image, None)]

  const ExampleRank: map<Id, nat> := map["root" := 2, "root/a" := 0, "root/b" := 1, "root/b/c" := 0]

  lemma ExampleRanked()
    ensures Ranked(ExampleCatalog, ExampleRank)
  {
  }

  /** Descent follows the listings: the sibling `root/a` is not below
      `root/b`, while `root/b/c` is, and is below `root` too. */
  lemma ExampleBelow()
    ensures Ranked(ExampleCatalog, ExampleRank)
    ensures !Below(ExampleCatalog, ExampleRank, "root/b", "root/a")
    ensures Below(ExampleCatalog, ExampleRank, "root/b", "root/b/c")
    ensures Below(ExampleCatalog, ExampleRank, "root", "root/b/c")
  {
    ExampleRanked();
    var cat, rank := ExampleCatalog, ExampleRank;
    var cKid, bKid := Child("root/b/c", Image), Child("root/b", Folder);
    assert !Below(cat, rank, "root/b/c", "root/a");
    assert !Listed(cat, rank, cKid, "root/a");
    assert cat["root/b"].listing.value == [cKid];
    assert Listed(cat, rank, cKid, "root/b/c");
    assert Listed(cat, rank, bKid, "root/b/c");
    assert bKid in cat["root"].listing.value;
  }

  /** The folder `root/b`: its image first, then itself. */
  lemma ExampleInnerFolder()
    ensures Ranked(ExampleCatalog, ExampleRank) && Walk(ExampleCatalog, ExampleRank, "root/b") ==
      Run([InfoCall("root/b"), ListCall("root/b"), DeleteCall("root/b/c"), DeleteCall("root/b")], false)
  {
    ExampleRanked();
    var cat, rank := ExampleCatalog, ExampleRank;
    var cKid := Child("root/b/c", Image);
    assert [cKid][..0] == [];
    assert WalkChildren(cat, rank, 2, []) == Run([], false);
    assert Visit(cat, rank, 2, cKid) == Run([DeleteCall("root/b/c")], false);
    assert WalkChildren(cat, rank, 2, [cKid]) == Run([DeleteCall("root/b/c")], false);
  }

  /** The folder `root`: its image, the walk of `root/b`, then itself. */
  lemma ExampleRootFolder()
    ensures Ranked(ExampleCatalog, ExampleRank) && Walk(ExampleCatalog, ExampleRank, "root") ==
      Run([InfoCall("root"), ListCall("root"), DeleteCall("root/a")] +
          Walk(ExampleCatalog, ExampleRank, "root/b").calls + [DeleteCall("root")], false)
  {
    ExampleRanked();
    ExampleInnerFolder();
    var cat, rank := ExampleCatalog, ExampleRank;
    var aKid, bKid := Child("root/a", Image), Child("root/b", Folder);
    var b := Walk(cat, rank, "root/b");
    assert [aKid, bKid][..1] == [aKid] && [aKid][..0] == [];
    assert WalkChildren(cat, rank, 3, []) == Run([], false);
    assert Visit(cat, rank, 3, aKid) == Run([DeleteCall("root/a")], false);
    assert Visit(cat, rank, 3, bKid) == b;
    assert WalkChildren(cat, rank, 3, [aKid]) == Run([DeleteCall("root/a")], false);
    assert WalkChildren(cat, rank, 3, [aKid, bKid]) == Run([DeleteCall("root/a")] + b.calls, false);
  }

  lemma ExampleDeletions()
    ensures Deletions([InfoCall("root"), ListCall("root"), DeleteCall("root/a")] +
      [InfoCall("root/b"), ListCall("root/b"), DeleteCall("root/b/c"), DeleteCall("root/b")] +
      [DeleteCall("root")]) == ["root/a", "root/b/c", "root/b", "root"]
  {
    var bCalls := [InfoCall("root/b"), ListCall("root/b"), DeleteCall("root/b/c"), DeleteCall("root/b")];
    var head := [InfoCall("root"), ListCall("root"), DeleteCall("root/a")];
    DeletionsJoin(head + bCalls, [DeleteCall("root")]);
    DeletionsJoin(head, bCalls);
    assert Deletions([DeleteCall("root")]) == ["root"];
    assert Deletions(head[2..]) == ["root/a"];
    assert Deletions(head[1..]) == ["root/a"];
    assert Deletions(head) == ["root/a"];
    assert Deletions(bCalls[3..]) == ["root/b"];
    assert Deletions(bCalls[2..]) == ["root/b/c", "root/b"];
    assert Deletions(bCalls[1..]) == ["root/b/c", "root/b"];
    assert Deletions(bCalls) == ["root/b/c", "root/b"];
  }

  /** The whole tree: children before parents, `root` last. */
  lemma ExampleTree()
    ensures Ranked(ExampleCatalog, ExampleRank) &&
      Deletions(Walk(ExampleCatalog, ExampleRank, "root").calls) == ["root/a", "root/b/c", "root/b", "root"]
  {
    ExampleRootFolder();
    ExampleInnerFolder();
    ExampleDeletions();
  }
}
