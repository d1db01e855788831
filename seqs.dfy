/**
 * Sequence operations the query-string code is built from: joining parts
 * with a separator (Array.prototype.join), splitting on a separator (the
 * URL Standard's "strictly split"), and finding the first occurrence.
 */
module Seqs {

  /** The position of the first `x` in `s`, or |s| when there is none. */
  function IndexOf<T(==)>(s: seq<T>, x: T): (i: nat)
    ensures i <= |s|
    ensures i < |s| ==> s[i] == x
    ensures forall j :: 0 <= j < i ==> s[j] != x
  {
    if s == [] then 0 else if s[0] == x then 0 else 1 + IndexOf(s[1..], x)
  }

  /** The parts, in order, with `sep` between every two neighbours. */
  function Join<T>(parts: seq<seq<T>>, sep: seq<T>): seq<T> {
    if |parts| == 0 then []
    else if |parts| == 1 then parts[0]
    else parts[0] + sep + Join(parts[1..], sep)
  }

  /** The pieces of `s` between occurrences of `x`; there is always at least one. */
  function SplitOn<T(==)>(s: seq<T>, x: T): (r: seq<seq<T>>)
    ensures |r| >= 1
    ensures forall i :: 0 <= i < |r| ==> x !in r[i]
    decreases |s|
  {
    var i := IndexOf(s, x);
    if i == |s| then [s] else [s[..i]] + SplitOn(s[i + 1..], x)
  }

  /** No part contains `x`. */
  predicate Separable<T(==)>(parts: seq<seq<T>>, x: T) {
    forall i :: 0 <= i < |parts| ==> x !in parts[i]
  }

  /** The first `x` after a prefix free of `x` is the one that follows the prefix. */
  lemma IndexOfAfter<T>(a: seq<T>, x: T, b: seq<T>)
    requires x !in a
    ensures IndexOf(a + [x] + b, x) == |a|
  {
    var s := a + [x] + b;
    assert forall j :: 0 <= j < |a| ==> s[j] == a[j];
    assert s[|a|] == x;
  }

  lemma IndexOfAbsent<T>(a: seq<T>, x: T)
    requires x !in a
    ensures IndexOf(a, x) == |a|
  {
  }

  /** Splitting a join on its separator gives back the parts. */
  lemma {:induction false} SplitOnJoin<T>(parts: seq<seq<T>>, x: T)
    requires |parts| >= 1 && Separable(parts, x)
    ensures SplitOn(Join(parts, [x]), x) == parts
    decreases |parts|
  {
    if |parts| == 1 {
      IndexOfAbsent(parts[0], x);
    } else {
      var s := Join(parts, [x]);
      var rest := Join(parts[1..], [x]);
      assert s == parts[0] + [x] + rest;
      IndexOfAfter(parts[0], x, rest);
      assert s[..|parts[0]|] == parts[0];
      assert s[|parts[0]| + 1..] == rest;
      SplitOnJoin(parts[1..], x);
    }
  }

  /**
   * Joining non-empty parts that do not contain the separator gives no
   * separator at either end and never two separators side by side.
   */
  lemma {:induction false} JoinNoStraySeparator<T>(parts: seq<seq<T>>, x: T)
    requires |parts| >= 1 && Separable(parts, x)
    requires forall i :: 0 <= i < |parts| ==> parts[i] != []
    ensures var s := Join(parts, [x]);
      && s != []
      && s[0] != x
      && s[|s| - 1] != x
      && forall i :: 0 <= i < |s| - 1 ==> !(s[i] == x && s[i + 1] == x)
    decreases |parts|
  {
    if |parts| > 1 {
      var a := parts[0];
      var rest := Join(parts[1..], [x]);
      JoinNoStraySeparator(parts[1..], x);
      var s := Join(parts, [x]);
      assert s == a + [x] + rest;
      assert s[0] == a[0];
      assert s[|s| - 1] == rest[|rest| - 1];
      forall i | 0 <= i < |s| - 1
        ensures !(s[i] == x && s[i + 1] == x)
      {
        if i < |a| {
          assert s[i] == a[i];
        } else if i == |a| {
          assert s[i + 1] == rest[0];
        } else {
          assert s[i] == rest[i - |a| - 1] && s[i + 1] == rest[i - |a|];
        }
      }
    }
  }

  /** A value found in no part and not in the separator is not in the join. */
  lemma {:induction false} JoinExcludes<T>(parts: seq<seq<T>>, sep: seq<T>, y: T)
    requires y !in sep && forall i :: 0 <= i < |parts| ==> y !in parts[i]
    ensures y !in Join(parts, sep)
    decreases |parts|
  {
    if |parts| > 1 {
      JoinExcludes(parts[1..], sep, y);
    }
  }
}
