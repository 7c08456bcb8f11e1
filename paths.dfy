/** Asset ids are '/'-separated paths. This module gives Python's
    `id.split('/')` and `'/'.join(parts)` on them, and the facts about the
    two that the folder-creation walk relies on. */
module Paths {
  import opened Sequences

  const Sep: char := '/'

  /** `s.split(Sep)`: every separator ends a segment, empty segments are
      kept, and the result is never empty (`"".split('/') == [""]`). */
  function Split(s: string): (parts: seq<string>)
    ensures |parts| >= 1
  {
    if s == [] then [""]
    else
      var rest := Split(s[1..]);
      if s[0] == Sep then [""] + rest
      else [[s[0]] + rest[0]] + rest[1..]
  }

  /** No segment of a split contains a separator. */
  lemma {:induction false} SplitSegments(s: string)
    ensures forall i :: 0 <= i < |Split(s)| ==> Sep !in Split(s)[i]
  {
    if s != [] {
      var rest := Split(s[1..]);
      SplitSegments(s[1..]);
      if s[0] != Sep {
        assert Sep !in [s[0]] + rest[0];
        assert forall i :: 1 <= i < |Split(s)| ==> Split(s)[i] == rest[i];
      }
    }
  }

  /** `Sep.join(parts)`, built from the back. */
  function Join(parts: seq<string>): (s: string)
    ensures |s| >= |parts| - 1
  {
    if |parts| == 0 then ""
    else if |parts| == 1 then parts[0]
    else Join(parts[..|parts| - 1]) + [Sep] + parts[|parts| - 1]
  }

  /** Joining one more segment appends the separator and that segment. */
  lemma JoinSnoc(parts: seq<string>, k: nat)
    requires 1 <= k < |parts|
    ensures Join(parts[..k + 1]) == Join(parts[..k]) + [Sep] + parts[k]
  {
    assert parts[..k + 1][..k] == parts[..k];
  }

  /** Join seen from the front. */
  lemma {:induction false} JoinCons(a: string, t: seq<string>)
    ensures Join([a] + t) == if t == [] then a else a + [Sep] + Join(t)
    decreases |t|
  {
    if |t| == 1 {
      assert [a] + t == [a, t[0]];
      assert [a, t[0]][..1] == [a];
    } else if |t| > 1 {
      var u := [a] + t;
      assert u[..|u| - 1] == [a] + t[..|t| - 1];
      JoinCons(a, t[..|t| - 1]);
    }
  }

  /** A string without separators is a single segment. */
  lemma {:induction false} SplitAtom(a: string)
    requires Sep !in a
    ensures Split(a) == [a]
  {
    if a != [] {
      assert Sep !in a[1..] by {
        forall i | 0 <= i < |a[1..]| ensures a[1..][i] != Sep { assert a[1..][i] == a[i + 1]; }
      }
      SplitAtom(a[1..]);
      assert [a[0]] + a[1..] == a;
    }
  }

  /** A separator between two strings splits them apart. */
  lemma {:induction false} SplitAppend(x: string, y: string)
    ensures Split(x + [Sep] + y) == Split(x) + Split(y)
  {
    var s := x + [Sep] + y;
    if x == [] {
      assert s[1..] == y;
    } else {
      assert s[1..] == x[1..] + [Sep] + y;
      SplitAppend(x[1..], y);
    }
  }

  /** Extending the first segment by one character extends the join by it. */
  lemma JoinGrowFirst(c: char, parts: seq<string>)
    requires parts != []
    ensures Join([[c] + parts[0]] + parts[1..]) == [c] + Join(parts)
  {
    var a, t := parts[0], parts[1..];
    JoinCons([c] + a, t);
    JoinCons(a, t);
    assert parts == [a] + t;
    if t != [] {
      var tail := [Sep] + Join(t);
      Assoc([c] + a, [Sep], Join(t));
      Assoc(a, [Sep], Join(t));
      Assoc([c], a, tail);
    }
  }

  /** Round trip: joining the segments of a split restores the string. */
  lemma {:induction false} JoinSplit(s: string)
    ensures Join(Split(s)) == s
  {
    if s != [] {
      var c, t := s[0], s[1..];
      var rest := Split(t);
      assert s == [c] + t;
      JoinSplit(t);
      if c == Sep {
        assert Split(s) == [""] + rest;
        JoinCons("", rest);
      } else {
        assert Split(s) == [[c] + rest[0]] + rest[1..];
        JoinGrowFirst(c, rest);
      }
    }
  }

  /** Round trip the other way: segments free of separators are recovered
      by splitting their join. */
  lemma {:induction false} SplitJoin(parts: seq<string>)
    requires |parts| >= 1
    requires forall i :: 0 <= i < |parts| ==> Sep !in parts[i]
    ensures Split(Join(parts)) == parts
  {
    var n := |parts|;
    if n == 1 {
      SplitAtom(parts[0]);
    } else {
      SplitJoin(parts[..n - 1]);
      SplitAppend(Join(parts[..n - 1]), parts[n - 1]);
      SplitAtom(parts[n - 1]);
      assert parts[..n - 1] + [parts[n - 1]] == parts;
    }
  }

  /** Joining the first `k` segments, then a separator, is a prefix of the
      whole join as long as segments remain. */
  lemma {:induction false} JoinPrefix(parts: seq<string>, k: nat)
    requires 1 <= k < |parts|
    ensures Join(parts[..k]) + [Sep] <= Join(parts)
    decreases |parts|
  {
    var n := |parts|;
    assert parts[..n] == parts;
    JoinSnoc(parts, n - 1);
    if k < n - 1 {
      JoinPrefix(parts[..n - 1], k);
      assert parts[..n - 1][..k] == parts[..k];
    }
  }
}
