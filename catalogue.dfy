/** The remote asset catalogue as the batch utilities see it through the
    Earth Engine data client: a snapshot of the assets, and the trace of
    every call issued against it. */
module Catalogue {
  /** An asset id, a '/'-separated path such as `users/me/folder/image`. */
  type Id = string

  datatype Option<T> = None | Some(value: T)

  /** The asset types the utilities know by name. */
  const Image: string := "Image"
  const FeatureCollection: string := "FeatureCollection"
  const Folder: string := "Folder"
  const ImageCollection: string := "ImageCollection"

  /** Types deleted at once, without listing. */
  predicate IsLeafType(ty: string)
  {
    ty == Image || ty == FeatureCollection
  }

  /** Types listed and emptied before their own deletion. */
  predicate IsContainerType(ty: string)
  {
    ty == Folder || ty == ImageCollection
  }

  /** One entry of a listing, as `getList` reports it: an id and a type. */
  datatype Child = Child(id: Id, kind: string)

  /** What the catalogue holds for an id: its type (what `getInfo` reports)
      and the answer `getList` gives for it, `None` when that call fails. */
  datatype Asset = Asset(kind: string, listing: Option<seq<Child>>)

  type Catalog = map<Id, Asset>

  /** A call issued against the catalogue. */
  datatype Call =
    | InfoCall(id: Id)
    | ListCall(id: Id)
    | DeleteCall(id: Id)
    | CreateCall(kind: string, id: Id)

  /** The ids deleted by a trace, in order. */
  function Deletions(calls: seq<Call>): seq<Id>
  {
    if calls == [] then []
    else
      var rest := Deletions(calls[1..]);
      if calls[0].DeleteCall? then [calls[0].id] + rest else rest
  }

  /** The deleted ids are exactly those of the `deleteAsset` calls. */
  lemma {:induction false} DeletionsMembers(calls: seq<Call>)
    ensures forall x :: x in Deletions(calls) <==> DeleteCall(x) in calls
  {
    if calls != [] {
      DeletionsMembers(calls[1..]);
      assert forall c :: c in calls <==> c == calls[0] || c in calls[1..];
    }
  }

  lemma {:induction false} DeletionsJoin(a: seq<Call>, b: seq<Call>)
    ensures Deletions(a + b) == Deletions(a) + Deletions(b)
  {
    if a == [] {
      assert a + b == b;
    } else {
      assert (a + b)[0] == a[0] && (a + b)[1..] == a[1..] + b;
      DeletionsJoin(a[1..], b);
    }
  }

  /** The creations of a trace, in order. */
  function Creations(calls: seq<Call>): seq<Call>
  {
    if calls == [] then []
    else
      var rest := Creations(calls[1..]);
      if calls[0].CreateCall? then [calls[0]] + rest else rest
  }

  /** The creations are exactly the `createAsset` calls. */
  lemma {:induction false} CreationsMembers(calls: seq<Call>)
    ensures forall c :: c in Creations(calls) <==> c.CreateCall? && c in calls
  {
    if calls != [] {
      CreationsMembers(calls[1..]);
      assert forall c :: c in calls <==> c == calls[0] || c in calls[1..];
    }
  }

  lemma {:induction false} CreationsJoin(a: seq<Call>, b: seq<Call>)
    ensures Creations(a + b) == Creations(a) + Creations(b)
  {
    if a == [] {
      assert a + b == b;
    } else {
      assert (a + b)[0] == a[0] && (a + b)[1..] == a[1..] + b;
      CreationsJoin(a[1..], b);
    }
  }

  /** The data client of one session: `ee.data.getInfo`, `getList`,
      `deleteAsset` and `createAsset` against a catalogue that the session
      does not see change, each call appended to `calls`. */
  class Client {
    const catalogue: Catalog
    var calls: seq<Call>

    constructor (catalogue: Catalog)
      ensures this.catalogue == catalogue && calls == []
    {
      this.catalogue := catalogue;
      calls := [];
    }

    /** `getInfo(id)`: the asset's type, or `None` when there is no such asset. */
    method GetInfo(id: Id) returns (info: Option<string>)
      modifies this
      ensures calls == old(calls) + [InfoCall(id)]
      ensures info == if id in catalogue then Some(catalogue[id].kind) else None
    {
      calls := calls + [InfoCall(id)];
      info := if id in catalogue then Some(catalogue[id].kind) else None;
    }

    /** `getList({'id': id})`: the children, or `None` when the call raises. */
    method GetList(id: Id) returns (children: Option<seq<Child>>)
      modifies this
      ensures calls == old(calls) + [ListCall(id)]
      ensures children == if id in catalogue then catalogue[id].listing else None
    {
      calls := calls + [ListCall(id)];
      children := if id in catalogue then catalogue[id].listing else None;
    }

    /** `deleteAsset(id)`. */
    method DeleteAsset(id: Id)
      modifies this
      ensures calls == old(calls) + [DeleteCall(id)]
    {
      calls := calls + [DeleteCall(id)];
    }

    /** `createAsset({'type': kind}, id)`. */
    method CreateAsset(kind: string, id: Id)
      modifies this
      ensures calls == old(calls) + [CreateCall(kind, id)]
    {
      calls := calls + [CreateCall(kind, id)];
    }
  }
}
