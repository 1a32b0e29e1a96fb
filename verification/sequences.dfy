/**
  Generic sequence tools the pipeline is built from: a stable insertion sort
  over a caller-supplied total preorder, filtering, and facts about how both
  interact with permutations (equal multisets).
 */
module Sequences {

  /** `le` is total and transitive, hence also reflexive. */
  ghost predicate TotalPreorder<T(!new)>(le: (T, T) -> bool) {
    && (forall a, b :: le(a, b) || le(b, a))
    && (forall a, b, c :: le(a, b) && le(b, c) ==> le(a, c))
  }

  /** Every earlier element is `le` every later one. */
  predicate SortedBy<T>(s: seq<T>, le: (T, T) -> bool) {
    forall i, j :: 0 <= i < j < |s| ==> le(s[i], s[j])
  }

  /** No two positions of `s` agree on the projection `f`. */
  predicate DistinctUnder<T, K(==)>(s: seq<T>, f: T -> K) {
    forall i, j :: 0 <= i < j < |s| ==> f(s[i]) != f(s[j])
  }

  /** Inserts `x` in front of the first element it is `le`, so that among
      equivalent elements the inserted one comes first. */
  function InsertBy<T(!new)>(x: T, s: seq<T>, le: (T, T) -> bool): (r: seq<T>)
    requires TotalPreorder(le)
    requires SortedBy(s, le)
    ensures SortedBy(r, le)
    ensures multiset(r) == multiset(s) + multiset{x}
  {
    if |s| == 0 then [x]
    else if le(x, s[0]) then [x] + s
    else
      var tail := InsertBy(x, s[1..], le);
      assert s == [s[0]] + s[1..];
      HeadStaysFirst(x, s, tail, le);
      [s[0]] + tail
  }

  /** When `x` does not go before the head of `s`, that head is `le` every
      element of the insertion into the rest of `s`. */
  lemma HeadStaysFirst<T(!new)>(x: T, s: seq<T>, tail: seq<T>, le: (T, T) -> bool)
    requires TotalPreorder(le)
    requires SortedBy(s, le)
    requires |s| > 0 && !le(x, s[0])
    requires SortedBy(tail, le)
    requires multiset(tail) == multiset(s[1..]) + multiset{x}
    ensures SortedBy([s[0]] + tail, le)
  {
    forall k | 0 <= k < |tail|
      ensures le(s[0], tail[k])
    {
      assert tail[k] in multiset(tail);
      if tail[k] != x {
        assert tail[k] in s[1..];
      }
    }
  }

  /** Stable insertion sort: the result is ordered by `le` and is a
      permutation of the input. */
  function SortBy<T(!new)>(s: seq<T>, le: (T, T) -> bool): (r: seq<T>)
    requires TotalPreorder(le)
    ensures SortedBy(r, le)
    ensures multiset(r) == multiset(s)
  {
    if |s| == 0 then []
    else
      assert s == [s[0]] + s[1..];
      InsertBy(s[0], SortBy(s[1..], le), le)
  }

  lemma SortedByTail<T>(s: seq<T>, le: (T, T) -> bool)
    requires |s| > 0 && SortedBy(s, le)
    ensures SortedBy(s[1..], le)
  {
    forall i, j | 0 <= i < j < |s| - 1
      ensures le(s[1..][i], s[1..][j])
    {
      assert s[1..][i] == s[i + 1] && s[1..][j] == s[j + 1];
    }
  }

  lemma DistinctUnderTail<T, K>(s: seq<T>, f: T -> K)
    requires |s| > 0 && DistinctUnder(s, f)
    ensures DistinctUnder(s[1..], f)
  {
    forall i, j | 0 <= i < j < |s| - 1
      ensures f(s[1..][i]) != f(s[1..][j])
    {
      assert s[1..][i] == s[i + 1] && s[1..][j] == s[j + 1];
    }
  }

  /** Permutations with the same head have permutations as tails. */
  lemma TailsPermutation<T>(a: seq<T>, b: seq<T>)
    requires |a| > 0 && |b| > 0 && a[0] == b[0] && multiset(a) == multiset(b)
    ensures multiset(a[1..]) == multiset(b[1..])
  {
    assert a == [a[0]] + a[1..] && b == [b[0]] + b[1..];
    assert multiset(a) == multiset{a[0]} + multiset(a[1..]);
    assert multiset(b) == multiset{b[0]} + multiset(b[1..]);
    assert multiset(a[1..]) == multiset(a) - multiset{a[0]};
    assert multiset(b[1..]) == multiset(b) - multiset{b[0]};
  }

  /** Removing position `i` removes one occurrence of `s[i]`. */
  lemma MultisetRemove<T>(s: seq<T>, i: nat)
    requires i < |s|
    ensures multiset(s[..i] + s[i + 1..]) == multiset(s) - multiset{s[i]}
  {
    assert s == s[..i] + [s[i]] + s[i + 1..];
    assert multiset(s) == multiset(s[..i]) + multiset{s[i]} + multiset(s[i + 1..]);
  }

  /** Two orderings by `le` of the same elements are equal when no two
      elements share a key and `le` ranks elements with different keys
      strictly. */
  lemma {:induction false} SortedUnique<T(!new), K>(a: seq<T>, b: seq<T>, le: (T, T) -> bool, f: T -> K)
    requires forall x, y :: le(x, y) && le(y, x) ==> f(x) == f(y)
    requires multiset(a) == multiset(b)
    requires SortedBy(a, le) && SortedBy(b, le)
    requires DistinctUnder(a, f)
    ensures a == b
  {
    assert |multiset(a)| == |multiset(b)|;
    if |a| > 0 {
      SortedHeadsAgree(a, b, le, f);
      SortedTails(a, b, le, f);
      SortedUnique(a[1..], b[1..], le, f);
      assert a == [a[0]] + a[1..] && b == [b[0]] + b[1..];
    }
  }

  /** Dropping an equal head from both keeps the premises of `SortedUnique`. */
  lemma SortedTails<T, K>(a: seq<T>, b: seq<T>, le: (T, T) -> bool, f: T -> K)
    requires |a| > 0 && |b| > 0 && a[0] == b[0] && multiset(a) == multiset(b)
    requires SortedBy(a, le) && SortedBy(b, le)
    requires DistinctUnder(a, f)
    ensures multiset(a[1..]) == multiset(b[1..])
    ensures SortedBy(a[1..], le) && SortedBy(b[1..], le)
    ensures DistinctUnder(a[1..], f)
  {
    TailsPermutation(a, b);
    SortedByTail(a, le);
    SortedByTail(b, le);
    DistinctUnderTail(a, f);
  }

  lemma SortedHeadsAgree<T(!new), K>(a: seq<T>, b: seq<T>, le: (T, T) -> bool, f: T -> K)
    requires forall x, y :: le(x, y) && le(y, x) ==> f(x) == f(y)
    requires |a| > 0 && multiset(a) == multiset(b)
    requires SortedBy(a, le) && SortedBy(b, le)
    requires DistinctUnder(a, f)
    ensures |b| > 0 && a[0] == b[0]
  {
    assert |multiset(a)| == |multiset(b)|;
    assert a[0] in multiset(b) && b[0] in multiset(a);
    var i :| 0 <= i < |a| && a[i] == b[0];
    var j :| 0 <= j < |b| && b[j] == a[0];
  }

  /** The elements of `s` satisfying `p`, in their original order. */
  function Filter<T>(s: seq<T>, p: T -> bool): (r: seq<T>)
    ensures |r| <= |s|
    ensures forall i :: 0 <= i < |r| ==> r[i] in s && p(r[i])
    ensures forall i :: 0 <= i < |s| && p(s[i]) ==> s[i] in r
  {
    if |s| == 0 then []
    else if p(s[0]) then [s[0]] + Filter(s[1..], p)
    else Filter(s[1..], p)
  }

  /** Filtering keeps every multiplicity of a kept value and drops the rest. */
  lemma {:induction false} FilterMultiplicity<T>(s: seq<T>, p: T -> bool, x: T)
    ensures multiset(Filter(s, p))[x] == if p(x) then multiset(s)[x] else 0
  {
    if |s| > 0 {
      assert s == [s[0]] + s[1..];
      FilterMultiplicity(s[1..], p, x);
    }
  }

  /** Filtering two permutations of each other gives permutations of each other. */
  lemma FilterPermutation<T>(a: seq<T>, b: seq<T>, p: T -> bool)
    requires multiset(a) == multiset(b)
    ensures multiset(Filter(a, p)) == multiset(Filter(b, p))
    ensures |Filter(a, p)| == |Filter(b, p)|
  {
    forall x
      ensures multiset(Filter(a, p))[x] == multiset(Filter(b, p))[x]
    {
      FilterMultiplicity(a, p, x);
      FilterMultiplicity(b, p, x);
    }
    assert multiset(Filter(a, p)) == multiset(Filter(b, p));
    assert |multiset(Filter(a, p))| == |Filter(a, p)|;
    assert |multiset(Filter(b, p))| == |Filter(b, p)|;
  }

  /** A value occurring at least twice sits at two distinct positions. */
  lemma {:induction false} TwoOccurrences<T>(s: seq<T>, x: T) returns (i: nat, j: nat)
    requires multiset(s)[x] >= 2
    ensures i < j < |s| && s[i] == x && s[j] == x
  {
    assert s == [s[0]] + s[1..];
    if s[0] == x {
      assert x in multiset(s[1..]);
      var k :| 0 <= k < |s[1..]| && s[1..][k] == x;
      i, j := 0, k + 1;
    } else {
      var i', j' := TwoOccurrences(s[1..], x);
      i, j := i' + 1, j' + 1;
    }
  }

  /** Two distinct positions of a permutation `b` of `a` come from two
      distinct positions of `a`. */
  lemma PermutationPositions<T>(a: seq<T>, b: seq<T>, i: nat, j: nat) returns (i': nat, j': nat)
    requires multiset(a) == multiset(b)
    requires i < j < |b|
    ensures i' < |a| && j' < |a| && i' != j'
    ensures a[i'] == b[i] && a[j'] == b[j]
  {
    assert b[i] in multiset(a) && b[j] in multiset(a);
    if b[i] == b[j] {
      assert b == b[..j] + b[j..];
      assert b[i] in b[..j] && b[j] in b[j..];
      assert multiset(b)[b[i]] == multiset(b[..j])[b[i]] + multiset(b[j..])[b[i]];
      i', j' := TwoOccurrences(a, b[i]);
    } else {
      i' :| 0 <= i' < |a| && a[i'] == b[i];
      j' :| 0 <= j' < |a| && a[j'] == b[j];
    }
  }

  /** Distinctness under a projection survives permutation. */
  lemma DistinctUnderPermutation<T, K>(a: seq<T>, b: seq<T>, f: T -> K)
    requires multiset(a) == multiset(b)
    requires DistinctUnder(a, f)
    ensures DistinctUnder(b, f)
  {
    forall i, j | 0 <= i < j < |b|
      ensures f(b[i]) != f(b[j])
    {
      var i', j' := PermutationPositions(a, b, i, j);
      if i' > j' {
        assert f(a[j']) != f(a[i']);
      }
    }
  }

  /** The elements `le` cannot tell apart from `y`. */
  function EquivalentTo<T>(le: (T, T) -> bool, y: T): T -> bool {
    z => le(z, y) && le(y, z)
  }

  /** Filtering by `p` distributes over prepending one element. */
  lemma FilterCons<T>(x: T, s: seq<T>, p: T -> bool)
    ensures Filter([x] + s, p) == (if p(x) then [x] else []) + Filter(s, p)
  {
    assert ([x] + s)[1..] == s;
  }

  /** Inserting `x` puts it after no element equivalent to it: among the
      elements equivalent to any `y`, `x` comes first and the others keep
      their order. */
  lemma {:induction false} InsertByKeepsEquivalents<T(!new)>(x: T, s: seq<T>, le: (T, T) -> bool, y: T)
    requires TotalPreorder(le)
    requires SortedBy(s, le)
    ensures Filter(InsertBy(x, s, le), EquivalentTo(le, y))
            == (if EquivalentTo(le, y)(x) then [x] else []) + Filter(s, EquivalentTo(le, y))
  {
    var e := EquivalentTo(le, y);
    if |s| == 0 {
      FilterCons(x, [], e);
    } else if le(x, s[0]) {
      FilterCons(x, s, e);
    } else {
      var t := InsertBy(x, s[1..], le);
      SortedByTail(s, le);
      InsertByKeepsEquivalents(x, s[1..], le, y);
      assert InsertBy(x, s, le) == [s[0]] + t;
      NotBothEquivalent(x, s[0], le, y);
      PassHeadEquivalents(x, s, t, EquivalentTo(le, y));
    }
  }

  /** The step of `InsertByKeepsEquivalents` where `x` goes past the head of
      `s`: when `x` and that head are not both kept by `e`, they may swap
      places without changing the filtered result. */
  lemma PassHeadEquivalents<T>(x: T, s: seq<T>, t: seq<T>, e: T -> bool)
    requires |s| > 0 && !(e(x) && e(s[0]))
    requires Filter(t, e) == (if e(x) then [x] else []) + Filter(s[1..], e)
    ensures Filter([s[0]] + t, e) == (if e(x) then [x] else []) + Filter(s, e)
  {
    assert s == [s[0]] + s[1..];
    FilterCons(s[0], t, e);
    FilterCons(s[0], s[1..], e);
  }

  /** An element `x` not `le` some `z` cannot share an equivalence class with it. */
  lemma NotBothEquivalent<T(!new)>(x: T, z: T, le: (T, T) -> bool, y: T)
    requires TotalPreorder(le)
    requires !le(x, z)
    ensures !(EquivalentTo(le, y)(x) && EquivalentTo(le, y)(z))
  {
  }

  /** `SortBy` is stable: the elements equivalent to any `y` appear in the
      sorted result in the order they had in the input. */
  lemma {:induction false} SortByIsStable<T(!new)>(s: seq<T>, le: (T, T) -> bool, y: T)
    requires TotalPreorder(le)
    ensures Filter(SortBy(s, le), EquivalentTo(le, y)) == Filter(s, EquivalentTo(le, y))
  {
    if |s| > 0 {
      var e := EquivalentTo(le, y);
      SortByIsStable(s[1..], le, y);
      InsertByKeepsEquivalents(s[0], SortBy(s[1..], le), le, y);
      assert s == [s[0]] + s[1..];
      FilterCons(s[0], s[1..], e);
    }
  }
}
