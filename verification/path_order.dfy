/**
 * The ordering `sort_unstable` puts a directory listing in: Rust's `Ord`
 * on `String`, which compares the UTF-8 bytes lexicographically. On
 * sequences of Unicode scalar values that is the lexicographic order on
 * code points, which is what `LessEq` below states.
 */
module PathOrder {

  /** `a` sorts no later than `b`: a prefix sorts first, otherwise the first differing character decides. */
  predicate LessEq(a: string, b: string)
    decreases |a|
  {
    a == [] || (b != [] && (a[0] < b[0] || (a[0] == b[0] && LessEq(a[1..], b[1..]))))
  }

  lemma {:induction false} LessEqTotal(a: string, b: string)
    ensures LessEq(a, b) || LessEq(b, a)
    decreases |a|
  {
    if a != [] && b != [] && a[0] == b[0] {
      LessEqTotal(a[1..], b[1..]);
    }
  }

  lemma {:induction false} LessEqAntisymmetric(a: string, b: string)
    requires LessEq(a, b) && LessEq(b, a)
    ensures a == b
    decreases |a|
  {
    if a != [] {
      LessEqAntisymmetric(a[1..], b[1..]);
      assert a == [a[0]] + a[1..] && b == [b[0]] + b[1..];
    }
  }

  lemma {:induction false} LessEqTransitive(a: string, b: string, c: string)
    requires LessEq(a, b) && LessEq(b, c)
    ensures LessEq(a, c)
    decreases |a|
  {
    if a != [] && a[0] == b[0] && b[0] == c[0] {
      LessEqTransitive(a[1..], b[1..], c[1..]);
    }
  }

  /** Each path sorts no later than the one after it. */
  predicate Sorted(s: seq<string>) {
    forall k :: 0 < k < |s| ==> LessEq(s[k - 1], s[k])
  }

  /** Sortedness of neighbours gives sortedness of every pair. */
  lemma {:induction false} SortedPairwise(s: seq<string>, i: nat, j: nat)
    requires Sorted(s)
    requires i <= j < |s|
    ensures LessEq(s[i], s[j])
    decreases j - i
  {
    if i == j {
      LessEqReflexive(s[i]);
    } else {
      SortedPairwise(s, i, j - 1);
      LessEqTransitive(s[i], s[j - 1], s[j]);
    }
  }

  lemma {:induction false} LessEqReflexive(a: string)
    ensures LessEq(a, a)
    decreases |a|
  {
    if a != [] {
      LessEqReflexive(a[1..]);
    }
  }

  /** `x` inserted into the sorted `s` before the first element it sorts no later than. */
  function Insert(x: string, s: seq<string>): (r: seq<string>)
    requires Sorted(s)
    ensures Sorted(r)
    ensures multiset(r) == multiset(s) + multiset{x}
    ensures forall p :: p in r <==> p in s || p == x
    ensures |r| == |s| + 1 && (r[0] == x || (s != [] && r[0] == s[0]))
    decreases |s|
  {
    if s == [] then [x]
    else if LessEq(x, s[0]) then [x] + s
    else
      var tail := Insert(x, s[1..]);
      LessEqTotal(x, s[0]);
      assert s == [s[0]] + s[1..];
      [s[0]] + tail
  }

  /** The paths in ascending order: the model of `Vec::sort_unstable`. */
  function SortUnstable(s: seq<string>): (r: seq<string>)
    ensures Sorted(r)
    ensures |r| == |s| && multiset(r) == multiset(s)
    ensures forall p :: p in r <==> p in s
    decreases |s|
  {
    if s == [] then []
    else
      assert s == [s[0]] + s[1..];
      Insert(s[0], SortUnstable(s[1..]))
  }

  /** Sorted permutations are unique, so an unstable sort of strings is deterministic. */
  lemma {:induction false} SortedPermutationUnique(r: seq<string>, t: seq<string>)
    requires Sorted(r) && Sorted(t) && multiset(r) == multiset(t)
    ensures r == t
    decreases |r|
  {
    assert |r| == |multiset(r)| == |t|;
    if r != [] {
      HeadsAgree(r, t);
      TailSortedPermutation(r, t);
      SortedPermutationUnique(r[1..], t[1..]);
      assert r == [r[0]] + r[1..] && t == [t[0]] + t[1..];
    }
  }

  /** Dropping equal heads from two sorted permutations leaves two sorted permutations. */
  lemma TailSortedPermutation(r: seq<string>, t: seq<string>)
    requires Sorted(r) && Sorted(t) && multiset(r) == multiset(t)
    requires r != [] && t != [] && r[0] == t[0]
    ensures Sorted(r[1..]) && Sorted(t[1..]) && multiset(r[1..]) == multiset(t[1..])
  {
    SortedTail(r);
    SortedTail(t);
    assert r == [r[0]] + r[1..] && t == [t[0]] + t[1..];
    assert multiset(r[1..]) == multiset(r) - multiset{r[0]};
    assert multiset(t[1..]) == multiset(t) - multiset{t[0]};
  }

  /** The tail of a sorted listing is sorted. */
  lemma SortedTail(r: seq<string>)
    requires Sorted(r) && r != []
    ensures Sorted(r[1..])
  {
    var r' := r[1..];
    forall k | 0 < k < |r'| ensures LessEq(r'[k - 1], r'[k]) {
      assert r'[k - 1] == r[k] && r'[k] == r[k + 1];
    }
  }

  /** Two non-empty sorted permutations of each other start with the same path. */
  lemma HeadsAgree(r: seq<string>, t: seq<string>)
    requires Sorted(r) && Sorted(t) && multiset(r) == multiset(t)
    requires r != [] && t != []
    ensures r[0] == t[0]
  {
    assert r[0] in multiset(t) && t[0] in multiset(r);
    var i :| 0 <= i < |t| && t[i] == r[0];
    var j :| 0 <= j < |r| && r[j] == t[0];
    SortedPairwise(t, 0, i);
    SortedPairwise(r, 0, j);
    LessEqAntisymmetric(r[0], t[0]);
  }
}
