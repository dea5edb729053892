/**
 * The two list-comprehension shapes the program uses:
 * `[x for x in s if p(x)]` (Filter) and a loop that appends a value computed
 * from some elements and skips the others (FilterMap). Both are defined by
 * the last element, the way a loop that appends builds them, and each comes
 * with an independent characterisation as an ordered selection of indices.
 */
module Seqs {
  import opened Wrappers

  /** `[x for x in s if p(x)]`. */
  function Filter<T>(p: T -> bool, s: seq<T>): (r: seq<T>)
    ensures |r| <= |s|
    ensures forall k {:trigger r[k] in s} :: 0 <= k < |r| ==> r[k] in s && p(r[k])
    ensures forall j {:trigger s[j] in r} :: 0 <= j < |s| && p(s[j]) ==> s[j] in r
    decreases |s|
  {
    if |s| == 0 then []
    else
      var r := Filter(p, s[..|s| - 1]) + (if p(s[|s| - 1]) then [s[|s| - 1]] else []);
      assert s == s[..|s| - 1] + [s[|s| - 1]];
      r
  }

  /**
   * The positions of `s` that Filter keeps: strictly increasing, each one
   * a position whose element satisfies `p`, and every such position present.
   */
  ghost function FilterIndices<T>(p: T -> bool, s: seq<T>): (idx: seq<nat>)
    ensures |idx| == |Filter(p, s)|
    ensures forall k :: 0 <= k < |idx| ==> idx[k] < |s| && s[idx[k]] == Filter(p, s)[k] && p(s[idx[k]])
    ensures forall k, l :: 0 <= k < l < |idx| ==> idx[k] < idx[l]
    ensures forall j {:trigger j in idx} :: 0 <= j < |s| && p(s[j]) ==> j in idx
    decreases |s|
  {
    if |s| == 0 then []
    else
      var n := |s| - 1;
      var pre := FilterIndices(p, s[..n]);
      assert Filter(p, s) == Filter(p, s[..n]) + (if p(s[n]) then [s[n]] else []);
      assert forall j :: 0 <= j < n ==> s[..n][j] == s[j];
      pre + (if p(s[n]) then [n] else [])
  }

  /** Filtering an already filtered sequence changes nothing. */
  lemma {:induction false} FilterIdempotent<T>(p: T -> bool, s: seq<T>)
    ensures Filter(p, Filter(p, s)) == Filter(p, s)
    decreases |s|
  {
    if |s| > 0 {
      var n := |s| - 1;
      var f := Filter(p, s[..n]);
      FilterIdempotent(p, s[..n]);
      assert Filter(p, f) == f;
      if p(s[n]) {
        var g := f + [s[n]];
        assert g[..|g| - 1] == f && g[|g| - 1] == s[n];
        assert Filter(p, s) == g;
        assert Filter(p, g) == Filter(p, f) + [s[n]];
      } else {
        assert Filter(p, s) == f;
      }
    }
  }

  /** A loop that appends `f(x).value` for each element `x` with `f(x) != None`. */
  function FilterMap<T, U>(f: T -> Option<U>, s: seq<T>): (r: seq<U>)
    ensures |r| <= |s|
    ensures forall k :: 0 <= k < |r| ==> exists j :: 0 <= j < |s| && f(s[j]) == Some(r[k])
    decreases |s|
  {
    if |s| == 0 then []
    else
      var n := |s| - 1;
      var r := FilterMap(f, s[..n]) + (match f(s[n]) case Some(y) => [y] case None => []);
      assert s == s[..n] + [s[n]];
      r
  }

  /**
   * The positions of `s` that contribute to FilterMap: strictly increasing,
   * each position's value is the output at that place, and every position
   * whose element yields a value is present.
   */
  ghost function FilterMapIndices<T, U>(f: T -> Option<U>, s: seq<T>): (idx: seq<nat>)
    ensures |idx| == |FilterMap(f, s)|
    ensures forall k :: 0 <= k < |idx| ==> idx[k] < |s| && f(s[idx[k]]) == Some(FilterMap(f, s)[k])
    ensures forall k, l :: 0 <= k < l < |idx| ==> idx[k] < idx[l]
    ensures forall j {:trigger j in idx} :: 0 <= j < |s| && f(s[j]).Some? ==> j in idx
    decreases |s|
  {
    if |s| == 0 then []
    else
      var n := |s| - 1;
      var pre := FilterMapIndices(f, s[..n]);
      assert FilterMap(f, s) == FilterMap(f, s[..n]) + (match f(s[n]) case Some(y) => [y] case None => []);
      assert forall j :: 0 <= j < n ==> s[..n][j] == s[j];
      pre + (if f(s[n]).Some? then [n] else [])
  }

  /** FilterMap works element by element: skipping one element never stops the rest. */
  lemma {:induction false} FilterMapConcat<T, U>(f: T -> Option<U>, a: seq<T>, b: seq<T>)
    ensures FilterMap(f, a + b) == FilterMap(f, a) + FilterMap(f, b)
    decreases |b|
  {
    if |b| == 0 {
      assert a + b == a;
    } else {
      var n := |b| - 1;
      assert (a + b)[..|a + b| - 1] == a + b[..n];
      assert (a + b)[|a + b| - 1] == b[n];
      FilterMapConcat(f, a, b[..n]);
    }
  }

  /** The value of the last element for which `f` yields one: the last write wins. */
  function LastSome<T, U>(f: T -> Option<U>, s: seq<T>): (r: Option<U>)
    ensures r.Some? ==> exists i :: 0 <= i < |s| && f(s[i]) == r && forall j :: i < j < |s| ==> f(s[j]).None?
    ensures r.None? <==> forall i :: 0 <= i < |s| ==> f(s[i]).None?
    decreases |s|
  {
    if |s| == 0 then None
    else
      var n := |s| - 1;
      var r := if f(s[n]).Some? then f(s[n]) else LastSome(f, s[..n]);
      assert forall j :: 0 <= j < n ==> s[..n][j] == s[j];
      r
  }
}
