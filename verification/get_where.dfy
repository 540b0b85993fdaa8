/**
 * The `GetWhere` extension of vectors: `prev` and `next` scan strictly
 * backward or forward from an index and return the nearest index whose
 * element satisfies a predicate.
 *
 * The vector is a `seq`: both searches take the vector by shared reference,
 * so they cannot change it.
 */
module GetWhere {
  import opened Wrappers

  /** The nearest index below `i` whose element satisfies `p`, if any. */
  function PrevMatch<T>(v: seq<T>, i: nat, p: T -> bool): (r: Option<nat>)
    requires i <= |v|
    ensures r.Some? ==> r.value < i && p(v[r.value])
    ensures r.Some? ==> forall k :: r.value < k < i ==> !p(v[k])
    ensures r.None? <==> forall k :: 0 <= k < i ==> !p(v[k])
    decreases i
  {
    if i == 0 then None
    else if p(v[i - 1]) then Some(i - 1)
    else PrevMatch(v, i - 1, p)
  }

  /** The first index at or above `k` whose element satisfies `p`, if any. */
  function FirstFrom<T>(v: seq<T>, k: nat, p: T -> bool): (r: Option<nat>)
    ensures r.Some? ==> k <= r.value < |v| && p(v[r.value])
    ensures r.Some? ==> forall m :: k <= m < r.value ==> !p(v[m])
    ensures r.None? <==> forall m :: k <= m < |v| ==> !p(v[m])
    decreases |v| - k
  {
    if k >= |v| then None
    else if p(v[k]) then Some(k)
    else FirstFrom(v, k + 1, p)
  }

  /** The nearest index above `i` whose element satisfies `p`, if any. */
  function NextMatch<T>(v: seq<T>, i: nat, p: T -> bool): (r: Option<nat>)
    ensures r.Some? ==> i < r.value < |v| && p(v[r.value])
    ensures r.Some? ==> forall k :: i < k < r.value ==> !p(v[k])
    ensures r.None? <==> forall k :: i < k < |v| ==> !p(v[k])
  {
    FirstFrom(v, i + 1, p)
  }

  /** The predicate that accepts every element. */
  predicate Always<T>(x: T) { true }

  /** `prev`: scan `v[i-1]`, `v[i-2]`, ..., `v[0]` and stop at the first match. */
  method Prev<T>(v: seq<T>, i: nat, p: T -> bool) returns (result: Option<nat>)
    requires i <= |v|
    ensures result == PrevMatch(v, i, p)
    ensures i == 0 ==> result == None
  {
    result := None;
    if i > 0 {
      var index := i;
      while index > 0
        invariant index <= i
        invariant result == None
        invariant PrevMatch(v, index, p) == PrevMatch(v, i, p)
      {
        index := index - 1;
        if p(v[index]) {
          result := Some(index);
          break;
        }
      }
    }
  }

  /** `next`: scan `v[i+1]`, `v[i+2]`, ..., `v[|v|-1]` and stop at the first match. */
  method Next<T>(v: seq<T>, i: nat, p: T -> bool) returns (result: Option<nat>)
    ensures result == NextMatch(v, i, p)
    ensures i + 1 >= |v| ==> result == None
    ensures result != Some(i)
  {
    var len := |v|;
    result := None;
    var start := i + 1;
    if start < len {
      var index := start;
      while index < len
        invariant start <= index <= len
        invariant result == None
        invariant FirstFrom(v, index, p) == FirstFrom(v, start, p)
      {
        if p(v[index]) {
          result := Some(index);
          break;
        }
        index := index + 1;
      }
    }
  }

  /** With the always-true predicate `prev` is the plain predecessor. */
  lemma PrevAlwaysIsPredecessor<T>(v: seq<T>, i: nat)
    requires i <= |v|
    ensures PrevMatch(v, i, Always) == if i > 0 then Some(i - 1) else None
  {
  }

  /** With the always-true predicate `next` is the plain successor. */
  lemma NextAlwaysIsSuccessor<T>(v: seq<T>, i: nat)
    ensures NextMatch(v, i, Always) == if i + 1 < |v| then Some(i + 1) else None
  {
  }

  /**
   * Moving to the next match and then back to the previous match with the
   * same predicate returns to the start, provided the start matches too.
   */
  lemma NextThenPrevReturns<T>(v: seq<T>, i: nat, p: T -> bool)
    requires i < |v| && p(v[i])
    requires NextMatch(v, i, p).Some?
    ensures PrevMatch(v, NextMatch(v, i, p).value, p) == Some(i)
  {
  }

  /** Symmetrically, previous then next returns to a matching start. */
  lemma PrevThenNextReturns<T>(v: seq<T>, i: nat, p: T -> bool)
    requires i < |v| && p(v[i])
    requires PrevMatch(v, i, p).Some?
    ensures NextMatch(v, PrevMatch(v, i, p).value, p) == Some(i)
  {
  }
}
