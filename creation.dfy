/** Creation of assets together with their parent folders (`createAssets`
    in geetools/batch/utils.py). */
module AssetCreation {
  import opened Catalogue
  import opened Paths
  import opened Sequences

  /** How `createAssets` ends: it returns what creating one asset returned,
      returns `None` after skipping every id, or raises `ValueError` for an
      id that exists with another type. */
  datatype Outcome = Created(kind: string, id: Id) | NoneCreated | ValueError(id: Id, existing: string)

  /** The calls a run issues and how it ends. */
  datatype Creation = Creation(calls: seq<Call>, outcome: Outcome)

  /** The parent folders considered for `id`, shallow to deep: the id cut
      after its third, fourth, ... segment, up to its own parent. The first
      two segments (`users/<name>`) are the root and never among them. */
  function Parents(id: Id): (ps: seq<Id>)
    ensures |ps| == if |Split(id)| > 3 then |Split(id)| - 3 else 0
  {
    var parts := Split(id);
    var n := if |parts| > 3 then |parts| - 3 else 0;
    seq(n, k requires 0 <= k < n => Join(parts[..k + 3]))
  }

  /** The calls issued for the parent folders `ps`, in order: a `getInfo`
      of each, and a `createAsset` of a `Folder` where it is absent. */
  function FolderCalls(cat: Catalog, ps: seq<Id>): (calls: seq<Call>)
    ensures |ps| <= |calls| <= 2 * |ps|
  {
    if ps == [] then []
    else
      var p := ps[|ps| - 1];
      FolderCalls(cat, ps[..|ps| - 1]) + [InfoCall(p)] + (if p in cat then [] else [CreateCall(Folder, p)])
  }

  /** The folder creations for the absent members of `ps`, in order. */
  function MissingFolders(cat: Catalog, ps: seq<Id>): (made: seq<Call>)
    ensures |made| <= |ps|
    ensures (forall p | p in ps :: p in cat) ==> made == []
  {
    if ps == [] then []
    else
      var p := ps[|ps| - 1];
      MissingFolders(cat, ps[..|ps| - 1]) + (if p in cat then [] else [CreateCall(Folder, p)])
  }

  /** `createAssets(ids, kind, mkParents)`: ids that exist with the right
      type are skipped, one with another type raises, and the first absent
      one is created, after its missing parents when `mkParents` holds; the
      function returns right after that creation. */
  function CreateAll(cat: Catalog, ids: seq<Id>, kind: string, mkParents: bool): (r: Creation)
    ensures ids == [] <==> r.calls == []
    ensures ids != [] ==> r.calls[0] == InfoCall(ids[0])
    ensures r.outcome.Created? ==>
      r.outcome.kind == kind && r.calls != [] && r.calls[|r.calls| - 1] == CreateCall(kind, r.outcome.id)
  {
    if ids == [] then Creation([], NoneCreated)
    else
      var id := ids[0];
      if id in cat then
        if cat[id].kind != kind then Creation([InfoCall(id)], ValueError(id, cat[id].kind))
        else
          var rest := CreateAll(cat, ids[1..], kind, mkParents);
          Creation([InfoCall(id)] + rest.calls, rest.outcome)
      else
        Creation([InfoCall(id)] + (if mkParents then FolderCalls(cat, Parents(id)) else []) +
                 [CreateCall(kind, id)], Created(kind, id))
  }

  /** `c` with the calls `pre` issued before it. */
  function After(pre: seq<Call>, c: Creation): Creation
  {
    Creation(pre + c.calls, c.outcome)
  }

  /** An id at index `i` that exists with another type ends the run. */
  lemma ErrorStep(cat: Catalog, ids: seq<Id>, kind: string, mkParents: bool, i: nat, done: seq<Call>)
    requires i < |ids| && ids[i] in cat && cat[ids[i]].kind != kind
    requires CreateAll(cat, ids, kind, mkParents) == After(done, CreateAll(cat, ids[i..], kind, mkParents))
    ensures CreateAll(cat, ids, kind, mkParents) ==
      Creation(done + [InfoCall(ids[i])], ValueError(ids[i], cat[ids[i]].kind))
  {
    assert ids[i..][0] == ids[i];
  }

  /** An id at index `i` that exists with the requested type is skipped. */
  lemma SkipStep(cat: Catalog, ids: seq<Id>, kind: string, mkParents: bool, i: nat, done: seq<Call>)
    requires i < |ids| && ids[i] in cat && cat[ids[i]].kind == kind
    requires CreateAll(cat, ids, kind, mkParents) == After(done, CreateAll(cat, ids[i..], kind, mkParents))
    ensures CreateAll(cat, ids, kind, mkParents) ==
      After(done + [InfoCall(ids[i])], CreateAll(cat, ids[i + 1..], kind, mkParents))
  {
    assert ids[i..][0] == ids[i] && ids[i..][1..] == ids[i + 1..];
    Assoc(done, [InfoCall(ids[i])], CreateAll(cat, ids[i + 1..], kind, mkParents).calls);
  }

  /** An absent id at index `i` is created, and the run ends. */
  lemma CreateStep(cat: Catalog, ids: seq<Id>, kind: string, mkParents: bool, i: nat, done: seq<Call>)
    requires i < |ids| && ids[i] !in cat
    requires CreateAll(cat, ids, kind, mkParents) == After(done, CreateAll(cat, ids[i..], kind, mkParents))
    ensures CreateAll(cat, ids, kind, mkParents) ==
      Creation(done + ([InfoCall(ids[i])] +
        ((if mkParents then FolderCalls(cat, Parents(ids[i])) else []) + [CreateCall(kind, ids[i])])),
        Created(kind, ids[i]))
  {
    var id := ids[i];
    assert ids[i..][0] == id;
    var folders := if mkParents then FolderCalls(cat, Parents(id)) else [];
    Assoc([InfoCall(id)], folders, [CreateCall(kind, id)]);
  }

  /** A `getInfo` of each id of `ids`, in order. */
  function InfoCalls(ids: seq<Id>): seq<Call>
  {
    seq(|ids|, m requires 0 <= m < |ids| => InfoCall(ids[m]))
  }

  /** After skipping the first `i` ids, the run is their `getInfo`s followed
      by the run on the rest. */
  lemma {:induction false} SkippedPrefix(cat: Catalog, ids: seq<Id>, kind: string, mkParents: bool, i: nat)
    requires i <= |ids| && AllPresent(cat, ids[..i], kind)
    ensures CreateAll(cat, ids, kind, mkParents) ==
      After(InfoCalls(ids[..i]), CreateAll(cat, ids[i..], kind, mkParents))
    decreases i
  {
    if i == 0 {
      assert ids[0..] == ids && InfoCalls(ids[..0]) == [];
    } else {
      SkipOne(cat, ids, kind, i - 1);
      SkippedPrefix(cat, ids, kind, mkParents, i - 1);
      SkipStep(cat, ids, kind, mkParents, i - 1, InfoCalls(ids[..i - 1]));
    }
  }

  /** Skipping the id at index `i` extends the skipped prefix. */
  lemma SkipOne(cat: Catalog, ids: seq<Id>, kind: string, i: nat)
    requires i < |ids|
    ensures AllPresent(cat, ids[..i + 1], kind) <==>
      AllPresent(cat, ids[..i], kind) && ids[i] in cat && cat[ids[i]].kind == kind
    ensures InfoCalls(ids[..i + 1]) == InfoCalls(ids[..i]) + [InfoCall(ids[i])]
  {
    var pre, pre' := ids[..i], ids[..i + 1];
    assert pre' == pre + [ids[i]];
    assert forall m :: 0 <= m < |pre| ==> pre[m] == pre'[m];
    assert InfoCalls(pre') == InfoCalls(pre) + [InfoCall(ids[i])];
  }

  /** The folder calls for one more parent. */
  lemma FolderCallsSnoc(cat: Catalog, ps: seq<Id>, k: nat)
    requires k < |ps|
    ensures FolderCalls(cat, ps[..k + 1]) ==
      FolderCalls(cat, ps[..k]) + [InfoCall(ps[k])] + (if ps[k] in cat then [] else [CreateCall(Folder, ps[k])])
  {
    assert ps[..k + 1][..k] == ps[..k];
  }

  /** The trace after the folder calls for parent `k`, issued after those
      for the parents before it. */
  lemma FolderCallsStep(start: seq<Call>, cat: Catalog, ps: seq<Id>, k: nat)
    requires k < |ps|
    ensures start + FolderCalls(cat, ps[..k]) + ([InfoCall(ps[k])] + (if ps[k] in cat then [] else [CreateCall(Folder, ps[k])])) ==
      start + FolderCalls(cat, ps[..k + 1])
  {
    var tail: seq<Call> := if ps[k] in cat then [] else [CreateCall(Folder, ps[k])];
    FolderCallsSnoc(cat, ps, k);
    Assoc(start, FolderCalls(cat, ps[..k]), [InfoCall(ps[k])] + tail);
    Assoc(FolderCalls(cat, ps[..k]), [InfoCall(ps[k])], tail);
    Assoc(start, FolderCalls(cat, ps[..k]) + [InfoCall(ps[k])], tail);
  }

  /** The parent at index `k` is what the walk's `root` holds after its
      `k + 3`-th segment. */
  lemma ParentAt(id: Id, k: nat)
    requires k < |Parents(id)|
    ensures Parents(id)[k] == Join(Split(id)[..k + 3])
  {
  }

  /** `createAssets(asset_ids, asset_type, mk_parents)` through `client`. */
  method CreateAssets(client: Client, assetIds: seq<Id>, assetType: string, mkParents: bool)
    returns (outcome: Outcome)
    modifies client
    ensures client.calls == old(client.calls) + CreateAll(client.catalogue, assetIds, assetType, mkParents).calls
    ensures outcome == CreateAll(client.catalogue, assetIds, assetType, mkParents).outcome
  {
    ghost var cat := client.catalogue;
    ghost var start := client.calls;
    assert assetIds[..0] == [];
    var i := 0;
    while i < |assetIds|
      invariant 0 <= i <= |assetIds|
      invariant AllPresent(cat, assetIds[..i], assetType)
      invariant client.calls == start + InfoCalls(assetIds[..i])
    {
      var assetId := assetIds[i];
      ghost var done := InfoCalls(assetIds[..i]);
      var already := client.GetInfo(assetId);
      if already.Some? {
        if already.value != assetType {
          SkippedPrefix(cat, assetIds, assetType, mkParents, i);
          ErrorStep(cat, assetIds, assetType, mkParents, i, done);
          return ValueError(assetId, already.value);
        }
        // "Asset ... already exists"
        SkipOne(cat, assetIds, assetType, i);
        ghost var k := i;
        i := i + 1;
        assert assetIds[..i] == assetIds[..k + 1];
        continue;
      }
      SkippedPrefix(cat, assetIds, assetType, mkParents, i);
      CreateStep(cat, assetIds, assetType, mkParents, i, done);
      CreateWithParents(client, assetId, assetType, mkParents);
      ghost var rest := (if mkParents then FolderCalls(cat, Parents(assetId)) else []) + [CreateCall(assetType, assetId)];
      Assoc(start, done, [InfoCall(assetId)]);
      Assoc(start + done, [InfoCall(assetId)], rest);
      Assoc(start, done, [InfoCall(assetId)] + rest);
      return Created(assetType, assetId);
    }
    SkippedPrefix(cat, assetIds, assetType, mkParents, i);
    assert assetIds[i..] == [] && assetIds[..i] == assetIds;
    return NoneCreated;
  }

  /** One turn of the `mk_parents` loop: adding segment `j` to `root` gives
      the next parent, and another separator the next `root`. */
  lemma RootStep(id: Id, j: nat, root: string)
    requires 2 <= j && j + 1 < |Split(id)|
    requires root == Join(Split(id)[..j]) + [Sep]
    ensures root + Split(id)[j] == Parents(id)[j - 2]
    ensures root + Split(id)[j] + [Sep] == Join(Split(id)[..j + 1]) + [Sep]
  {
    JoinSnoc(Split(id), j);
    ParentAt(id, j - 2);
  }

  /** The creation of one absent asset: its parents first when `mkParents`
      holds, then the asset itself. */
  method CreateWithParents(client: Client, assetId: Id, assetType: string, mkParents: bool)
    modifies client
    ensures client.calls == old(client.calls) +
      ((if mkParents then FolderCalls(client.catalogue, Parents(assetId)) else []) + [CreateCall(assetType, assetId)])
  {
    ghost var asked := client.calls;
    ghost var folders := if mkParents then FolderCalls(client.catalogue, Parents(assetId)) else [];
    if mkParents {
      MakeParents(client, assetId);
    } else {
      assert asked + folders == asked;
    }
    client.CreateAsset(assetType, assetId);
    Assoc(asked, folders, [CreateCall(assetType, assetId)]);
  }

  /** One parent folder: `getInfo`, and `createAsset` of a `Folder` when it
      finds nothing. */
  method EnsureFolder(client: Client, root: Id)
    modifies client
    ensures client.calls == old(client.calls) +
      ([InfoCall(root)] + (if root in client.catalogue then [] else [CreateCall(Folder, root)]))
  {
    var info := client.GetInfo(root);
    if info.None? {
      client.CreateAsset(Folder, root);
    }
  }

  /** The `mk_parents` loop of `createAssets`: `root` starts as the first two
      segments and a separator, and grows one segment at a time; each
      intermediate folder is created when `getInfo` does not find it. */
  method MakeParents(client: Client, assetId: Id)
    modifies client
    ensures client.calls == old(client.calls) + FolderCalls(client.catalogue, Parents(assetId))
  {
    ghost var cat := client.catalogue;
    ghost var ps := Parents(assetId);
    var parts := Split(assetId);
    var root := Join(parts[..if |parts| < 2 then |parts| else 2]);
    root := root + [Sep];
    var j := 2;
    while j + 1 < |parts|
      invariant 2 <= j && j - 2 <= |ps|
      invariant |parts| >= 3 ==> j <= |parts| - 1
      invariant |parts| >= 2 ==> root == Join(parts[..j]) + [Sep]
      invariant client.calls == old(client.calls) + FolderCalls(cat, ps[..j - 2])
    {
      ghost var k := j - 2;
      RootStep(assetId, j, root);
      root := root + parts[j];
      EnsureFolder(client, root);
      FolderCallsStep(old(client.calls), cat, ps, k);
      root := root + [Sep];
      j := j + 1;
      assert j - 2 == k + 1;
      assert root == Join(parts[..j]) + [Sep];
    }
    assert ps[..j - 2] == ps;
  }

  // Properties of the creation walk.

  /** Every id of `ids` exists with type `kind`. */
  predicate AllPresent(cat: Catalog, ids: seq<Id>, kind: string)
  {
    forall m :: 0 <= m < |ids| ==> ids[m] in cat && cat[ids[m]].kind == kind
  }

  /** Extending a skipped prefix by its first id. */
  lemma AllPresentCons(cat: Catalog, ids: seq<Id>, j: nat, kind: string)
    requires j < |ids| && ids[0] in cat && cat[ids[0]].kind == kind
    requires AllPresent(cat, ids[1..][..j], kind)
    ensures AllPresent(cat, ids[..j + 1], kind)
  {
    var pre := ids[..j + 1];
    forall m | 0 <= m < |pre| ensures pre[m] in cat && cat[pre[m]].kind == kind {
      if m > 0 { assert pre[m] == ids[1..][..j][m - 1]; }
    }
  }

  /** The creations among the folder calls are exactly the missing folders. */
  lemma {:induction false} FolderCreations(cat: Catalog, ps: seq<Id>)
    ensures Creations(FolderCalls(cat, ps)) == MissingFolders(cat, ps)
    decreases |ps|
  {
    if ps != [] {
      var p := ps[|ps| - 1];
      var tail: seq<Call> := if p in cat then [] else [CreateCall(Folder, p)];
      FolderCreations(cat, ps[..|ps| - 1]);
      CreationsJoin(FolderCalls(cat, ps[..|ps| - 1]) + [InfoCall(p)], tail);
      CreationsJoin(FolderCalls(cat, ps[..|ps| - 1]), [InfoCall(p)]);
      assert Creations([InfoCall(p)]) == [];
      if p !in cat {
        assert Creations(tail) == tail;
      }
    }
  }

  /** A folder is created exactly when it is among the parents and absent,
      and nothing but folders is created. */
  lemma {:induction false} MissingFoldersIff(cat: Catalog, ps: seq<Id>)
    ensures forall c :: c in MissingFolders(cat, ps) ==> c.CreateCall? && c.kind == Folder
    ensures forall p :: CreateCall(Folder, p) in MissingFolders(cat, ps) <==> p in ps && p !in cat
    decreases |ps|
  {
    if ps != [] {
      var init := ps[..|ps| - 1];
      MissingFoldersIff(cat, init);
      assert ps == init + [ps[|ps| - 1]];
    }
  }

  /** Parent `k` has the first `k + 3` segments of the id, and followed by
      a separator it is a prefix of the id. */
  lemma ParentShapeAt(id: Id, k: nat)
    requires k < |Parents(id)|
    ensures Split(Parents(id)[k]) == Split(id)[..k + 3] && Parents(id)[k] + [Sep] <= id
  {
    var parts := Split(id);
    ParentAt(id, k);
    SplitSegments(id);
    assert forall i :: 0 <= i < k + 3 ==> parts[..k + 3][i] == parts[i];
    SplitJoin(parts[..k + 3]);
    JoinPrefix(parts, k + 3);
    JoinSplit(id);
  }

  /** Parent `k` followed by a separator is a prefix of parent `k + 1`. */
  lemma ParentBeforeNext(id: Id, k: nat)
    requires k + 1 < |Parents(id)|
    ensures Parents(id)[k] + [Sep] <= Parents(id)[k + 1]
  {
    var parts := Split(id);
    ParentAt(id, k);
    ParentAt(id, k + 1);
    JoinSnoc(parts, k + 3);
  }

  /** `ps[k]` is the id cut after its `k + 3`-th segment: it keeps the first
      two segments, is a proper prefix of the id followed by a separator, and
      each parent is a prefix of the next one, so parents come shallow to
      deep. */
  lemma ParentsShape(id: Id)
    ensures forall k :: 0 <= k < |Parents(id)| ==>
      Split(Parents(id)[k]) == Split(id)[..k + 3] && Parents(id)[k] + [Sep] <= id
    ensures forall k :: 0 <= k < |Parents(id)| - 1 ==> Parents(id)[k] + [Sep] <= Parents(id)[k + 1]
  {
    forall k | 0 <= k < |Parents(id)|
      ensures Split(Parents(id)[k]) == Split(id)[..k + 3] && Parents(id)[k] + [Sep] <= id
    {
      ParentShapeAt(id, k);
    }
    forall k | 0 <= k < |Parents(id)| - 1
      ensures Parents(id)[k] + [Sep] <= Parents(id)[k + 1]
    {
      ParentBeforeNext(id, k);
    }
  }

  /** A run ends with `ValueError` for `x` exactly after skipping ids that
      exist with the right type and meeting `x` with another type; it
      creates nothing. */
  lemma {:induction false} ValueErrorCreatesNothing(cat: Catalog, ids: seq<Id>, kind: string, mkParents: bool)
    ensures var r := CreateAll(cat, ids, kind, mkParents);
      r.outcome.ValueError? ==>
        Creations(r.calls) == [] && r.outcome.id in cat && cat[r.outcome.id].kind == r.outcome.existing &&
        r.outcome.existing != kind &&
        exists j :: 0 <= j < |ids| && ids[j] == r.outcome.id && AllPresent(cat, ids[..j], kind)
  {
    if ids != [] {
      var id := ids[0];
      if id in cat && cat[id].kind != kind {
        assert ids[0] == id && AllPresent(cat, ids[..0], kind);
        assert Creations([InfoCall(id)]) == [];
      } else if id in cat {
        var rest := CreateAll(cat, ids[1..], kind, mkParents);
        ValueErrorCreatesNothing(cat, ids[1..], kind, mkParents);
        CreationsJoin([InfoCall(id)], rest.calls);
        assert Creations([InfoCall(id)]) == [];
        if rest.outcome.ValueError? {
          var j :| 0 <= j < |ids[1..]| && ids[1..][j] == rest.outcome.id && AllPresent(cat, ids[1..][..j], kind);
          assert ids[j + 1] == rest.outcome.id;
          AllPresentCons(cat, ids, j, kind);
        }
      }
    }
  }

  /** A run returns `None` exactly when every id already exists with the
      requested type; it then only asks, once per id, and creates nothing. */
  lemma {:induction false} NoneCreatedIff(cat: Catalog, ids: seq<Id>, kind: string, mkParents: bool)
    ensures var r := CreateAll(cat, ids, kind, mkParents);
      (r.outcome == NoneCreated <==> AllPresent(cat, ids, kind)) &&
      (r.outcome == NoneCreated ==> r.calls == InfoCalls(ids))
  {
    if ids != [] {
      var id := ids[0];
      var rest := CreateAll(cat, ids[1..], kind, mkParents);
      NoneCreatedIff(cat, ids[1..], kind, mkParents);
      assert AllPresent(cat, ids, kind) <==> id in cat && cat[id].kind == kind && AllPresent(cat, ids[1..], kind) by {
        if id in cat && cat[id].kind == kind && AllPresent(cat, ids[1..], kind) {
          forall m | 0 <= m < |ids| ensures ids[m] in cat && cat[ids[m]].kind == kind {
            if m > 0 { assert ids[m] == ids[1..][m - 1]; }
          }
        }
        if AllPresent(cat, ids, kind) {
          forall m | 0 <= m < |ids[1..]| ensures ids[1..][m] in cat && cat[ids[1..][m]].kind == kind {
            assert ids[1..][m] == ids[m + 1];
          }
        }
      }
    }
  }

  /** The creations of the run for an absent first id `x`: its missing
      parents, then `x`. */
  lemma CreatedHere(cat: Catalog, x: Id, kind: string, mkParents: bool)
    ensures var calls := [InfoCall(x)] + (if mkParents then FolderCalls(cat, Parents(x)) else []) + [CreateCall(kind, x)];
      Creations(calls) == (if mkParents then MissingFolders(cat, Parents(x)) else []) + [CreateCall(kind, x)]
  {
    var folders := if mkParents then FolderCalls(cat, Parents(x)) else [];
    CreationsJoin([InfoCall(x)] + folders, [CreateCall(kind, x)]);
    CreationsJoin([InfoCall(x)], folders);
    assert Creations([InfoCall(x)]) == [];
    assert Creations([CreateCall(kind, x)]) == [CreateCall(kind, x)];
    if mkParents {
      FolderCreations(cat, Parents(x));
    } else {
      assert Creations(folders) == [];
    }
  }

  /** What a run that creates `x` promises. */
  predicate CreatedAfterSkips(cat: Catalog, ids: seq<Id>, kind: string, mkParents: bool, r: Creation)
  {
    r.outcome.Created? &&
    r.outcome.kind == kind && r.outcome.id !in cat &&
    (exists j :: 0 <= j < |ids| && ids[j] == r.outcome.id && AllPresent(cat, ids[..j], kind)) &&
    Creations(r.calls) ==
      (if mkParents then MissingFolders(cat, Parents(r.outcome.id)) else []) + [CreateCall(kind, r.outcome.id)] &&
    |r.calls| > 0 && r.calls[|r.calls| - 1] == CreateCall(kind, r.outcome.id)
  }

  /** A skipped first id keeps what the rest of the run promises. */
  lemma CreatedAfterSkip(cat: Catalog, ids: seq<Id>, kind: string, mkParents: bool)
    requires ids != [] && ids[0] in cat && cat[ids[0]].kind == kind
    requires CreatedAfterSkips(cat, ids[1..], kind, mkParents, CreateAll(cat, ids[1..], kind, mkParents))
    ensures CreatedAfterSkips(cat, ids, kind, mkParents, CreateAll(cat, ids, kind, mkParents))
  {
    var id := ids[0];
    var rest := CreateAll(cat, ids[1..], kind, mkParents);
    var r := CreateAll(cat, ids, kind, mkParents);
    assert r == Creation([InfoCall(id)] + rest.calls, rest.outcome);
    CreationsJoin([InfoCall(id)], rest.calls);
    assert Creations([InfoCall(id)]) == [];
    assert Creations(r.calls) == Creations(rest.calls);
    assert r.calls[|r.calls| - 1] == rest.calls[|rest.calls| - 1];
    var j :| 0 <= j < |ids[1..]| && ids[1..][j] == rest.outcome.id && AllPresent(cat, ids[1..][..j], kind);
    assert ids[j + 1] == r.outcome.id;
    AllPresentCons(cat, ids, j, kind);
    assert 0 <= j + 1 < |ids| && ids[j + 1] == r.outcome.id && AllPresent(cat, ids[..j + 1], kind);
  }

  /** A run that creates `x` has skipped only ids that exist with the right
      type before it, `x` is absent, and its creations are the missing parent
      folders (when `mkParents`), shallow to deep, then `x` itself as the
      very last call. */
  lemma {:induction false} CreatedTrace(cat: Catalog, ids: seq<Id>, kind: string, mkParents: bool)
    ensures CreateAll(cat, ids, kind, mkParents).outcome.Created? ==>
      CreatedAfterSkips(cat, ids, kind, mkParents, CreateAll(cat, ids, kind, mkParents))
  {
    if ids != [] {
      var id := ids[0];
      if id !in cat {
        assert AllPresent(cat, ids[..0], kind);
        CreatedHere(cat, id, kind, mkParents);
      } else if cat[id].kind == kind {
        CreatedTrace(cat, ids[1..], kind, mkParents);
        if CreateAll(cat, ids[1..], kind, mkParents).outcome.Created? {
          CreatedAfterSkip(cat, ids, kind, mkParents);
        }
      }
    }
  }

  /** The loop stops at the first id that it creates or that raises: the ids
      after it are never looked at, and a run that skipped everything goes on
      with whatever follows. */
  lemma {:induction false} StopsEarly(cat: Catalog, ids: seq<Id>, more: seq<Id>, kind: string, mkParents: bool)
    ensures var r := CreateAll(cat, ids, kind, mkParents);
      CreateAll(cat, ids + more, kind, mkParents) ==
        if r.outcome == NoneCreated then After(r.calls, CreateAll(cat, more, kind, mkParents)) else r
  {
    if ids == [] {
      assert ids + more == more;
    } else {
      var id := ids[0];
      assert (ids + more)[0] == id && (ids + more)[1..] == ids[1..] + more;
      if id in cat && cat[id].kind == kind {
        StopsEarly(cat, ids[1..], more, kind, mkParents);
        var r := CreateAll(cat, ids[1..], kind, mkParents);
        if r.outcome == NoneCreated {
          Assoc([InfoCall(id)], r.calls, CreateAll(cat, more, kind, mkParents).calls);
        }
      }
    }
  }
}
