/** GeoJSON-style coordinate lists and the removal of their Z values
    (`isPoint` and `removeZ` in geetools/batch/utils.py). */
module Coordinates {
  import opened Sequences

  /** A coordinate value: a number, or a list of coordinate values. No
      arithmetic is done on numbers, so their kind (int or float) is not
      distinguished. */
  datatype Coord = Num(value: real) | List(items: seq<Coord>)

  /** The state a walk leaves behind: the list after its in-place updates,
      and whether it stopped with a `TypeError`. */
  datatype Walked = Walked(coords: seq<Coord>, typeError: bool)

  /** `isPoint`: a list of two or three entries whose first two are numbers. */
  function IsPoint(p: seq<Coord>): (r: bool)
    ensures r <==> (|p| == 2 || |p| == 3) && p[0].Num? && p[1].Num?
  {
    if |p| in {2, 3} then
      if p[0].Num? && p[1].Num? then true else false
    else
      false
  }

  /** A point after `p.pop(2)` where its length is 3. */
  function DropZ(p: seq<Coord>): (q: seq<Coord>)
    ensures q <= p && |q| == if |p| == 3 then 2 else |p|
  {
    if |p| == 3 then p[..2] else p
  }

  /** `w` extended in front by the already-visited entries `pre`. */
  function Prepend(pre: seq<Coord>, w: Walked): Walked
  {
    Walked(pre + w.coords, w.typeError)
  }

  /** What the walk does at one entry `x`: the entry afterwards, and whether
      the walk stopped there with a `TypeError`. A number makes `isPoint`
      take the length of a number, hence the `TypeError`. */
  function VisitEntry(x: Coord): (v: Walked)
    ensures |v.coords| == 1
    decreases x
  {
    match x
    case Num(_) => Walked([x], true)
    case List(p) =>
      if IsPoint(p) then Walked([List(DropZ(p))], false)
      else
        var inner := StripZ(p);
        Walked([List(inner.coords)], inner.typeError)
  }

  /** What `removeZ(l)` leaves in `l`. The entries visited before a
      `TypeError` keep their updates; the later ones are untouched. */
  function StripZ(l: seq<Coord>): (w: Walked)
    ensures |w.coords| == |l|
    decreases l
  {
    if l == [] then Walked([], false)
    else
      var v := VisitEntry(l[0]);
      if v.typeError then Walked(v.coords + l[1..], true)
      else Prepend(v.coords, StripZ(l[1..]))
  }

  /** `StripZ` on a suffix of `l`, from the entry at index `i`. */
  lemma StripZFrom(l: seq<Coord>, i: nat)
    requires i < |l|
    ensures StripZ(l[i..]) ==
      var v := VisitEntry(l[i]);
      if v.typeError then Walked(v.coords + l[i + 1..], true)
      else Prepend(v.coords, StripZ(l[i + 1..]))
  {
    assert l[i..][0] == l[i] && l[i..][1..] == l[i + 1..];
  }

  /** One step of the walk at index `i`, in terms of the state before it. */
  lemma WalkStep(l: seq<Coord>, i: nat, done: seq<Coord>)
    requires i < |l| && StripZ(l) == Prepend(done, StripZ(l[i..]))
    ensures var v := VisitEntry(l[i]);
      StripZ(l) == if v.typeError then Walked(done + v.coords + l[i + 1..], true)
                   else Prepend(done + v.coords, StripZ(l[i + 1..]))
  {
    StripZFrom(l, i);
    var v := VisitEntry(l[i]);
    if v.typeError {
      Assoc(done, v.coords, l[i + 1..]);
    } else {
      Assoc(done, v.coords, StripZ(l[i + 1..]).coords);
    }
  }

  /** Writing index `|a|` of `a + b` replaces the head of `b`. */
  lemma WriteAt(a: seq<Coord>, b: seq<Coord>, x: Coord)
    requires b != []
    ensures (a + b)[|a| := x] == a + [x] + b[1..]
  {
    assert (a + b)[|a| := x] == a + b[0 := x];
    assert b[0 := x] == [x] + b[1..];
  }

  /** The loop state after entry `k` turned into `y`: without an error, the
      invariant at the next index `i` with `y` added to `done`; with an
      error, the final state. */
  lemma Advance(l: seq<Coord>, k: nat, done: seq<Coord>, r: seq<Coord>, y: Coord, err: bool,
                i: nat, done': seq<Coord>)
    requires k < |l| && |done| == k && r == done + l[k..]
    requires StripZ(l) == Prepend(done, StripZ(l[k..]))
    requires VisitEntry(l[k]) == Walked([y], err)
    requires i == k + 1 && done' == done + [y]
    ensures err ==> StripZ(l) == Walked(r[k := y], true)
    ensures !err ==> r[k := y] == done' + l[i..]
    ensures !err ==> StripZ(l) == Prepend(done', StripZ(l[i..]))
  {
    WalkStep(l, k, done);
    assert l[k..][0] == l[k] && l[k..][1..] == l[i..];
    WriteAt(done, l[k..], y);
  }

  /** One entry of `removeZ`'s loop: a point of length 3 is popped, another
      point is left alone, any other list is walked recursively, and a
      number raises `TypeError` inside `isPoint`. The entry after the visit
      is returned in `y`. */
  method RemoveZEntry(x: Coord) returns (y: Coord, typeError: bool)
    ensures Walked([y], typeError) == VisitEntry(x)
    decreases x
  {
    match x {
      case Num(_) =>
        return x, true;
      case List(p) =>
        if IsPoint(p) {
          y := x;
          if |p| == 3 {
            y := List(p[..2]);
          }
          return y, false;
        }
        var inner;
        inner, typeError := RemoveZ(p);
        return List(inner), typeError;
    }
  }

  /** `removeZ`: walks the list, pops index 2 of every point of length 3 and
      recurses into every other entry. The list is a value here: the list
      after the walk is returned in `r`. */
  method RemoveZ(l: seq<Coord>) returns (r: seq<Coord>, typeError: bool)
    ensures Walked(r, typeError) == StripZ(l)
    decreases l
  {
    r := l;
    var i := 0;
    ghost var done: seq<Coord> := [];
    assert l[0..] == l;
    while i < |l|
      invariant 0 <= i <= |l| && |done| == i
      invariant r == done + l[i..]
      invariant StripZ(l) == Prepend(done, StripZ(l[i..]))
    {
      assert l[i] in l;
      var y, err := RemoveZEntry(l[i]);
      Advance(l, i, done, r, y, err, i + 1, done + [y]);
      r := r[i := y];
      if err {
        return r, true;
      }
      done := done + [y];
      i := i + 1;
    }
    typeError := false;
  }

  /** The walk keeps each entry a number or a list as it was. */
  lemma {:induction false} StripZKeepsKinds(l: seq<Coord>)
    ensures forall i :: 0 <= i < |l| ==> StripZ(l).coords[i].Num? == l[i].Num?
    decreases l
  {
    if l != [] {
      var v := VisitEntry(l[0]);
      if !v.typeError {
        StripZKeepsKinds(l[1..]);
      }
      forall i | 0 <= i < |l| ensures StripZ(l).coords[i].Num? == l[i].Num? {
        if i > 0 {
          assert l[i] == l[1..][i - 1];
        }
      }
    }
  }

  /** Whether a list is a point is the same after a walk over it. */
  lemma IsPointKept(p: seq<Coord>)
    ensures IsPoint(StripZ(p).coords) == IsPoint(p)
  {
    StripZKeepsKinds(p);
  }

  /** Lists of at most two entries, none a bare number: every point reached
      by a walk has exactly two entries and the walk meets no number. */
  predicate FlatEntry(x: Coord)
    decreases x
  {
    match x
    case Num(_) => false
    case List(p) => if IsPoint(p) then |p| == 2 else Flat(p)
  }

  /** Every entry of `l` is flat. */
  predicate Flat(l: seq<Coord>)
    decreases l
  {
    forall i :: 0 <= i < |l| ==> FlatEntry(l[i])
  }

  /** The walk meets a bare number at entry `x`: `x` is one, or `x` is a list
      that is not a point and the walk into it meets one. */
  predicate MeetsNumberEntry(x: Coord)
    decreases x
  {
    match x
    case Num(_) => true
    case List(p) => !IsPoint(p) && MeetsNumber(p)
  }

  /** The walk of `l` meets a bare number at some entry. */
  predicate MeetsNumber(l: seq<Coord>)
    decreases l
  {
    exists i :: 0 <= i < |l| && MeetsNumberEntry(l[i])
  }

  /** The points a walk reaches at entry `x`, in visiting order. */
  function EntryPoints(x: Coord): seq<seq<Coord>>
    decreases x
  {
    match x
    case Num(_) => []
    case List(p) => if IsPoint(p) then [p] else Points(p)
  }

  /** The points of all entries of `l`, in visiting order. */
  function Points(l: seq<Coord>): seq<seq<Coord>>
    decreases l
  {
    if l == [] then [] else EntryPoints(l[0]) + Points(l[1..])
  }

  /** The nesting of a coordinate value that is not made of points: a point
      becomes a `Hole`, which no number and no list can equal. */
  datatype Shape = Hole | Number(value: real) | Node(items: seq<Shape>)

  /** Entry `x` with every point in it replaced by a `Hole`. */
  function EntrySkeleton(x: Coord): Shape
    decreases x
  {
    match x
    case Num(v) => Number(v)
    case List(p) => if IsPoint(p) then Hole else Node(Skeleton(p))
  }

  /** The skeleton of every entry of `l`. */
  function Skeleton(l: seq<Coord>): seq<Shape>
    decreases l
  {
    if l == [] then [] else [EntrySkeleton(l[0])] + Skeleton(l[1..])
  }

  /** The skeleton has a `Hole` exactly where the list has a point, so two
      lists with the same skeleton hold their points at the same places. */
  lemma {:induction false} SkeletonMarksPoints(l: seq<Coord>)
    ensures |Skeleton(l)| == |l|
    ensures forall i :: 0 <= i < |l| ==> (Skeleton(l)[i] == Hole <==> l[i].List? && IsPoint(l[i].items))
    decreases l
  {
    if l != [] {
      SkeletonMarksPoints(l[1..]);
      forall i | 1 <= i < |l| ensures Skeleton(l)[i] == Skeleton(l[1..])[i - 1] && l[i] == l[1..][i - 1] { }
    }
  }

  /** Each point of `before` appears in `after` either untouched or with its
      third entry popped. */
  predicate PartlyDropped(before: seq<seq<Coord>>, after: seq<seq<Coord>>)
  {
    |after| == |before| &&
    forall k :: 0 <= k < |before| ==> after[k] == before[k] || after[k] == DropZ(before[k])
  }

  /** Each point of `before` appears in `after` with its third entry popped. */
  predicate AllDropped(before: seq<seq<Coord>>, after: seq<seq<Coord>>)
  {
    |after| == |before| &&
    forall k :: 0 <= k < |before| ==> after[k] == DropZ(before[k])
  }

  lemma DroppedJoin(a1: seq<seq<Coord>>, b1: seq<seq<Coord>>, a2: seq<seq<Coord>>, b2: seq<seq<Coord>>)
    ensures PartlyDropped(a1, b1) && PartlyDropped(a2, b2) ==> PartlyDropped(a1 + a2, b1 + b2)
    ensures AllDropped(a1, b1) && AllDropped(a2, b2) ==> AllDropped(a1 + a2, b1 + b2)
  {
    if |b1| == |a1| && |b2| == |a2| {
      forall k | |a1| <= k < |a1| + |a2|
        ensures (a1 + a2)[k] == a2[k - |a1|] && (b1 + b2)[k] == b2[k - |a1|] { }
    }
  }

  /** How the walk's views of a list split at its first entry. */
  lemma ViewsOfCons(x: Coord, t: seq<Coord>)
    ensures Points([x] + t) == EntryPoints(x) + Points(t)
    ensures Skeleton([x] + t) == [EntrySkeleton(x)] + Skeleton(t)
  {
    assert ([x] + t)[0] == x && ([x] + t)[1..] == t;
  }

  /** The list after a walk, split at its first entry. */
  lemma StripZCons(l: seq<Coord>)
    requires l != []
    ensures var v := VisitEntry(l[0]); var w := StripZ(l);
      w.coords == [v.coords[0]] + (if v.typeError then l[1..] else StripZ(l[1..]).coords)
  {
    var v := VisitEntry(l[0]);
    assert v.coords == [v.coords[0]];
  }

  /** Every entry of `Points(l)` is a point. */
  lemma {:induction false} PointsArePoints(l: seq<Coord>)
    ensures forall k :: 0 <= k < |Points(l)| ==> IsPoint(Points(l)[k])
    decreases l
  {
    if l != [] {
      EntryPointsArePoints(l[0]);
      PointsArePoints(l[1..]);
    }
  }

  lemma {:induction false} EntryPointsArePoints(x: Coord)
    ensures forall k :: 0 <= k < |EntryPoints(x)| ==> IsPoint(EntryPoints(x)[k])
    decreases x
  {
    match x
    case Num(_) =>
    case List(p) => if !IsPoint(p) { PointsArePoints(p); }
  }

  /** The walk at one entry changes only points, and a point only by losing
      its third entry. */
  lemma {:induction false} EntryShape(x: Coord)
    ensures var y := VisitEntry(x).coords[0];
      EntrySkeleton(y) == EntrySkeleton(x) &&
      PartlyDropped(EntryPoints(x), EntryPoints(y)) &&
      (!VisitEntry(x).typeError ==> AllDropped(EntryPoints(x), EntryPoints(y)))
    decreases x
  {
    match x
    case Num(_) =>
    case List(p) =>
      if IsPoint(p) {
        assert IsPoint(DropZ(p));
      } else {
        IsPointKept(p);
        StripZShape(p);
      }
  }

  /** The walk changes only points, and a point of three entries only by
      losing its third: the non-point nesting is the same afterwards, every
      point is untouched or popped, and if the walk completes every point is
      popped. */
  lemma {:induction false} StripZShape(l: seq<Coord>)
    ensures Skeleton(StripZ(l).coords) == Skeleton(l)
    ensures PartlyDropped(Points(l), Points(StripZ(l).coords))
    ensures !StripZ(l).typeError ==> AllDropped(Points(l), Points(StripZ(l).coords))
    decreases l
  {
    if l != [] {
      var v := VisitEntry(l[0]);
      var y := v.coords[0];
      EntryShape(l[0]);
      StripZCons(l);
      ViewsOfCons(l[0], l[1..]);
      assert l == [l[0]] + l[1..];
      var tail := if v.typeError then l[1..] else StripZ(l[1..]).coords;
      ViewsOfCons(y, tail);
      if v.typeError {
        DroppedJoin(EntryPoints(l[0]), EntryPoints(y), Points(l[1..]), Points(l[1..]));
      } else {
        StripZShape(l[1..]);
        DroppedJoin(EntryPoints(l[0]), EntryPoints(y), Points(l[1..]), Points(tail));
      }
    }
  }

  /** The walk stops with a `TypeError` at entry `x` exactly when it meets a
      bare number there. */
  lemma {:induction false} EntryTypeErrorIff(x: Coord)
    ensures VisitEntry(x).typeError <==> MeetsNumberEntry(x)
    decreases x
  {
    match x
    case Num(_) =>
    case List(p) => if !IsPoint(p) { TypeErrorIff(p); }
  }

  /** The walk stops with a `TypeError` exactly when it meets a bare number. */
  lemma {:induction false} TypeErrorIff(l: seq<Coord>)
    ensures StripZ(l).typeError <==> MeetsNumber(l)
    decreases l
  {
    if l != [] {
      EntryTypeErrorIff(l[0]);
      TypeErrorIff(l[1..]);
      assert forall i :: 1 <= i < |l| ==> l[i] == l[1..][i - 1];
      if MeetsNumber(l[1..]) {
        var j :| 0 <= j < |l[1..]| && MeetsNumberEntry(l[1..][j]);
        assert MeetsNumberEntry(l[j + 1]);
      }
    }
  }

  /** Completing the walk at entry `x` leaves it flat. */
  lemma {:induction false} EntryFlattens(x: Coord)
    ensures !VisitEntry(x).typeError ==> FlatEntry(VisitEntry(x).coords[0])
    decreases x
  {
    match x
    case Num(_) =>
    case List(p) =>
      if !IsPoint(p) {
        IsPointKept(p);
        StripZFlattens(p);
      }
  }

  /** A walk that completes leaves no point with a third entry. */
  lemma {:induction false} StripZFlattens(l: seq<Coord>)
    ensures !StripZ(l).typeError ==> Flat(StripZ(l).coords)
    decreases l
  {
    var w := StripZ(l);
    if l != [] && !w.typeError {
      EntryFlattens(l[0]);
      StripZFlattens(l[1..]);
      StripZCons(l);
      var rest := StripZ(l[1..]).coords;
      forall i | 0 <= i < |w.coords| ensures FlatEntry(w.coords[i]) {
        if i > 0 { assert w.coords[i] == rest[i - 1]; }
      }
    }
  }

  /** A flat entry is left as it is. */
  lemma {:induction false} FlatEntryUnchanged(x: Coord)
    requires FlatEntry(x)
    ensures VisitEntry(x) == Walked([x], false)
    decreases x
  {
    match x
    case List(p) => if !IsPoint(p) { FlatUnchanged(p); }
  }

  /** On a list already flat the walk changes nothing: Z is removed only
      where present. */
  lemma {:induction false} FlatUnchanged(l: seq<Coord>)
    requires Flat(l)
    ensures StripZ(l) == Walked(l, false)
    decreases l
  {
    if l != [] {
      FlatEntryUnchanged(l[0]);
      assert Flat(l[1..]) by {
        forall i | 0 <= i < |l[1..]| ensures FlatEntry(l[1..][i]) {
          assert l[1..][i] == l[i + 1];
        }
      }
      FlatUnchanged(l[1..]);
      assert l == [l[0]] + l[1..];
    }
  }

  /** Visiting an entry a second time changes nothing and ends the same way. */
  lemma {:induction false} EntryIdempotent(x: Coord)
    ensures VisitEntry(VisitEntry(x).coords[0]) == VisitEntry(x)
    decreases x
  {
    match x
    case Num(_) =>
    case List(p) =>
      if IsPoint(p) {
        assert IsPoint(DropZ(p)) && DropZ(DropZ(p)) == DropZ(p);
      } else {
        IsPointKept(p);
        StripZIdempotent(p);
      }
  }

  /** `removeZ` is idempotent, whether or not the first walk completed: a
      second walk over what the first left behind changes nothing and ends
      the same way. */
  lemma {:induction false} StripZIdempotent(l: seq<Coord>)
    ensures StripZ(StripZ(l).coords) == StripZ(l)
    decreases l
  {
    if l != [] {
      var v := VisitEntry(l[0]);
      var w := StripZ(l);
      EntryIdempotent(l[0]);
      StripZCons(l);
      assert w.coords[0] == v.coords[0];
      if v.typeError {
        assert w.coords[1..] == l[1..];
      } else {
        StripZIdempotent(l[1..]);
        assert w.coords[1..] == StripZ(l[1..]).coords;
      }
    }
  }
}
