/**
 * Sequence facts shared by the models: directory listings without repeats,
 * permutations given as index sequences, and multiset reasoning.
 */
module Seqs {

  datatype Option<T> = None | Some(value: T)

  /** `sep.join(parts)`. */
  function Join(parts: seq<string>, sep: string): string
    decreases |parts|
  {
    if |parts| == 0 then ""
    else if |parts| == 1 then parts[0]
    else parts[0] + (sep + Join(parts[1..], sep))
  }

  predicate Distinct<T(==)>(s: seq<T>) { forall i, j :: 0 <= i < j < |s| ==> s[i] != s[j] }

  /** s names every member of keys exactly once, in some order: what a directory listing returns. */
  predicate IsListing<T(==)>(s: seq<T>, keys: set<T>)
  {
    && Distinct(s)
    && (forall i :: 0 <= i < |s| ==> s[i] in keys)
    && (forall x :: x in keys ==> x in s)
  }

  /** p is a rearrangement of the indices 0 .. n-1. */
  predicate IsPermutation(p: seq<nat>, n: nat)
  {
    && |p| == n
    && (forall i :: 0 <= i < n ==> p[i] < n)
    && (forall i, j :: 0 <= i < j < n ==> p[i] != p[j])
    && (forall k :: 0 <= k < n ==> k in p)
  }

  /** Every index is hit by a permutation. */
  lemma PermutationHits(p: seq<nat>, n: nat, k: nat)
    requires IsPermutation(p, n) && k < n
    ensures exists i :: 0 <= i < n && p[i] == k
  {
    assert k in p;
  }

  /** The members of s at the indices p, in the order of p. */
  function Pick<T>(s: seq<T>, p: seq<nat>): (r: seq<T>)
    requires forall i :: 0 <= i < |p| ==> p[i] < |s|
    ensures |r| == |p| && forall i :: 0 <= i < |p| ==> r[i] == s[p[i]]
  {
    seq(|p|, i requires 0 <= i < |p| => s[p[i]])
  }

  /**
   * The list s rearranged so that position i holds s[p[i]]: the effect of
   * shuffling s in place, with the random choice made explicit as p.
   */
  function Permuted<T>(s: seq<T>, p: seq<nat>): (r: seq<T>)
    requires IsPermutation(p, |s|)
    ensures |r| == |s|
    ensures forall i :: 0 <= i < |r| ==> r[i] == s[p[i]]
    ensures multiset(r) == multiset(s)
    ensures Distinct(s) ==> Distinct(r)
  {
    PickPermutationMultiset(s, p);
    Pick(s, p)
  }

  lemma PickSplit<T>(s: seq<T>, a: seq<nat>, b: seq<nat>)
    requires forall i :: 0 <= i < |a| ==> a[i] < |s|
    requires forall i :: 0 <= i < |b| ==> b[i] < |s|
    ensures Pick(s, a + b) == Pick(s, a) + Pick(s, b)
  {
  }

  lemma PickPrefix<T>(s: seq<T>, k: nat, a: seq<nat>)
    requires k <= |s|
    requires forall i :: 0 <= i < |a| ==> a[i] < k
    ensures Pick(s[..k], a) == Pick(s, a)
  {
  }

  /** Removing the entry at j from a permutation of 0 .. n-1 that holds n-1 there leaves a permutation of 0 .. n-2. */
  lemma RemoveLast(p: seq<nat>, n: nat, j: nat)
    requires n > 0 && IsPermutation(p, n) && j < n && p[j] == n - 1
    ensures IsPermutation(p[..j] + p[j + 1..], n - 1)
  {
    var q := p[..j] + p[j + 1..];
    assert forall i :: 0 <= i < n - 1 ==> q[i] == (if i < j then p[i] else p[i + 1]);
    forall k | 0 <= k < n - 1
      ensures k in q
    {
      assert k in p;
      var i :| 0 <= i < n && p[i] == k;
      if i < j {
        assert q[i] == k;
      } else {
        assert q[i - 1] == k;
      }
    }
  }

  lemma PickOne<T>(s: seq<T>, k: nat)
    requires k < |s|
    ensures Pick(s, [k]) == [s[k]]
  {
  }

  lemma {:induction false} PickPermutationMultiset<T>(s: seq<T>, p: seq<nat>)
    requires IsPermutation(p, |s|)
    ensures multiset(Pick(s, p)) == multiset(s)
    decreases |s|
  {
    var n := |s|;
    if n > 0 {
      assert n - 1 in p;
      var j :| 0 <= j < n && p[j] == n - 1;
      RemoveLast(p, n, j);
      PickPermutationMultiset(s[..n - 1], p[..j] + p[j + 1..]);
      PickWithoutLast(s, p, j);
    }
  }

  /** The step of the proof above: the entry that picks the last member, taken out, leaves a picking of the rest. */
  lemma PickWithoutLast<T>(s: seq<T>, p: seq<nat>, j: nat)
    requires |s| > 0 && j < |p| && p[j] == |s| - 1
    requires forall i :: 0 <= i < |p| ==> p[i] < |s|
    requires forall i :: 0 <= i < |p| && i != j ==> p[i] < |s| - 1
    requires multiset(Pick(s[..|s| - 1], p[..j] + p[j + 1..])) == multiset(s[..|s| - 1])
    ensures multiset(Pick(s, p)) == multiset(s)
  {
    var n := |s|;
    PickDecompose(s, p, j);
    var A, B := Pick(s, p[..j]), Pick(s, p[j + 1..]);
    assert s == s[..n - 1] + [s[n - 1]];
    calc {
      multiset(Pick(s, p));
      multiset(A) + multiset{s[n - 1]} + multiset(B);
      multiset(A + B) + multiset{s[n - 1]};
      multiset(s);
    }
  }

  lemma PickDecompose<T>(s: seq<T>, p: seq<nat>, j: nat)
    requires |s| > 0 && j < |p| && p[j] == |s| - 1
    requires forall i :: 0 <= i < |p| ==> p[i] < |s|
    requires forall i :: 0 <= i < |p| && i != j ==> p[i] < |s| - 1
    ensures Pick(s, p) == Pick(s, p[..j]) + [s[|s| - 1]] + Pick(s, p[j + 1..])
    ensures Pick(s[..|s| - 1], p[..j] + p[j + 1..]) == Pick(s, p[..j]) + Pick(s, p[j + 1..])
  {
    var n := |s|;
    var a, b := p[..j], p[j + 1..];
    PickPrefix(s, n - 1, a + b);
    PickSplit(s, a, b);
    assert p == a + ([n - 1] + b);
    PickSplit(s, a, [n - 1] + b);
    PickSplit(s, [n - 1], b);
    PickOne(s, n - 1);
  }

  /** In a list without repeats every member occurs exactly once. */
  lemma {:induction false} DistinctCounts<T>(s: seq<T>)
    requires Distinct(s)
    ensures forall x :: multiset(s)[x] == if x in s then 1 else 0
  {
    if s != [] {
      var t := s[..|s| - 1];
      DistinctCounts(t);
      assert s == t + [s[|s| - 1]];
      assert s[|s| - 1] !in t;
    }
  }

  /** Two lists without repeats that hold the same members are rearrangements of each other. */
  lemma SameMembersSameMultiset<T(!new)>(a: seq<T>, b: seq<T>)
    requires Distinct(a) && Distinct(b)
    requires forall x :: x in a <==> x in b
    ensures multiset(a) == multiset(b)
  {
    DistinctCounts(a);
    DistinctCounts(b);
    assert forall x :: multiset(a)[x] == multiset(b)[x];
  }
}
