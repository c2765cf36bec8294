/** Permutations of `0..n` as sequences, and what repeating or undoing them does. */
module Permutation {

  ghost predicate IsPerm(p: seq<nat>) {
    && (forall i :: 0 <= i < |p| ==> p[i] < |p|)
    && (forall i, j :: 0 <= i < j < |p| ==> p[i] != p[j])
  }

  /** `p` without position `k`. */
  function Without<T>(s: seq<T>, k: nat): (t: seq<T>)
    requires k < |s|
    ensures |t| == |s| - 1
    ensures forall i :: 0 <= i < |t| ==> t[i] == s[if i < k then i else i + 1]
  {
    s[..k] + s[k + 1..]
  }

  function Upto(n: nat): (s: set<nat>)
    ensures |s| == n && forall x :: x in s <==> 0 <= x < n
  {
    if n == 0 then {} else Upto(n - 1) + {n - 1}
  }

  function Elements(p: seq<nat>): set<nat> {
    set x <- p
  }

  lemma {:induction false} DistinctSize(p: seq<nat>)
    requires forall i, j :: 0 <= i < j < |p| ==> p[i] != p[j]
    ensures |Elements(p)| == |p|
  {
    if p != [] {
      var q, last := p[..|p| - 1], p[|p| - 1];
      DistinctSize(q);
      assert last !in q;
      assert p == q + [last];
      assert Elements(p) == Elements(q) + {last};
    }
  }

  /** An injection of `0..n` into itself reaches everything. */
  lemma Surjective(p: seq<nat>, k: nat)
    requires IsPerm(p) && k < |p|
    ensures k in p
  {
    DistinctSize(p);
    var s := Elements(p);
    SubsetOfSameSize(s, Upto(|p|));
    assert k in s;
  }

  lemma SubsetOfSameSize<T>(a: set<T>, b: set<T>)
    requires a <= b && |a| == |b|
    ensures a == b
  {
    assert |b - a| == |b| - |a|;
  }

  ghost function Inverse(p: seq<nat>): (q: seq<nat>)
    requires IsPerm(p)
    ensures |q| == |p| && IsPerm(q)
    ensures forall i {:trigger p[i]} :: 0 <= i < |p| ==> q[p[i]] == i
    ensures forall k {:trigger q[k]} :: 0 <= k < |p| ==> p[q[k]] == k
  {
    var q := seq(|p|, k requires 0 <= k < |p| => Surjective(p, k); var i: nat :| i < |p| && p[i] == k; i);
    assert forall k :: 0 <= k < |p| ==> p[q[k]] == k;
    q
  }

  /** Rearranging a sequence does not change its multiset. */
  lemma {:induction false} PermMultiset<T>(a: seq<T>, b: seq<T>, p: seq<nat>)
    requires |a| == |b| == |p| && IsPerm(p)
    requires forall i {:trigger p[i]} :: 0 <= i < |p| ==> b[p[i]] == a[i]
    ensures multiset(a) == multiset(b)
    decreases |p|
  {
    var n := |p|;
    if n > 0 {
      hide IsPerm, Without;
      Surjective(p, n - 1);
      var k :| 0 <= k < n && p[k] == n - 1;
      assert b[p[k]] == a[k];
      WithoutRelated(a, b, p, k);
      PermMultiset(Without(a, k), Without(b, n - 1), Without(p, k));
      OneMore(a, k, b, n - 1);
    }
  }

  lemma OneMore<T>(a: seq<T>, k: nat, b: seq<T>, j: nat)
    requires k < |a| && j < |b| && a[k] == b[j] && multiset(Without(a, k)) == multiset(Without(b, j))
    ensures multiset(a) == multiset(b)
  {
    MultisetWithout(a, k);
    MultisetWithout(b, j);
  }

  lemma WithoutRelated<T>(a: seq<T>, b: seq<T>, p: seq<nat>, k: nat)
    requires |a| == |b| == |p| && IsPerm(p) && k < |p| && p[k] == |p| - 1
    requires forall i {:trigger p[i]} :: 0 <= i < |p| ==> b[p[i]] == a[i]
    ensures var a', b', p' := Without(a, k), Without(b, |p| - 1), Without(p, k);
            IsPerm(p') && forall i {:trigger p'[i]} :: 0 <= i < |p'| ==> b'[p'[i]] == a'[i]
  {
    PermWithout(p, k);
  }

  lemma PermWithout(p: seq<nat>, k: nat)
    requires IsPerm(p) && k < |p| && p[k] == |p| - 1
    ensures IsPerm(Without(p, k))
  {
  }

  lemma MultisetWithout<T>(s: seq<T>, k: nat)
    requires k < |s|
    ensures multiset(s) == multiset(Without(s, k)) + multiset{s[k]}
  {
    assert s == s[..k] + [s[k]] + s[k + 1..];
  }

  /** `p` applied `k` times to `x`. */
  function Iterate(p: seq<nat>, x: nat, k: nat): (y: nat)
    requires x < |p| && forall i :: 0 <= i < |p| ==> p[i] < |p|
    ensures y < |p|
    decreases k
  {
    if k == 0 then x else Iterate(p, p[x], k - 1)
  }

  lemma {:induction false} IterateAdd(p: seq<nat>, x: nat, a: nat, b: nat)
    requires x < |p| && forall i :: 0 <= i < |p| ==> p[i] < |p|
    ensures Iterate(p, x, a + b) == Iterate(p, Iterate(p, x, a), b)
    decreases a
  {
    if a > 0 {
      IterateAdd(p, p[x], a - 1, b);
    }
  }

  lemma IterateUnfold(p: seq<nat>, x: nat, k: nat)
    requires x < |p| && forall i :: 0 <= i < |p| ==> p[i] < |p|
    ensures Iterate(p, x, k) == if k == 0 then x else Iterate(p, p[x], k - 1)
  {
  }

  lemma IterateOnce(p: seq<nat>, x: nat)
    requires x < |p| && forall i :: 0 <= i < |p| ==> p[i] < |p|
    ensures Iterate(p, x, 1) == p[x]
  {
    assert Iterate(p, p[x], 0) == p[x];
  }

  lemma IterateNext(p: seq<nat>, x: nat, k: nat)
    requires x < |p| && forall i :: 0 <= i < |p| ==> p[i] < |p|
    ensures Iterate(p, x, k + 1) == p[Iterate(p, x, k)]
  {
    IterateAdd(p, x, k, 1);
    IterateOnce(p, Iterate(p, x, k));
  }

  lemma IterateSplit(p: seq<nat>, x: nat, n: nat, m: nat)
    requires x < |p| && m <= n && forall i :: 0 <= i < |p| ==> p[i] < |p|
    ensures Iterate(p, x, n) == Iterate(p, Iterate(p, x, m), n - m)
  {
    IterateAdd(p, x, m, n - m);
  }

  lemma {:induction false} IterateUndo(p: seq<nat>, q: seq<nat>, x: nat, a: nat, b: nat)
    requires |p| == |q| && x < |p| && b <= a
    requires forall i :: 0 <= i < |p| ==> p[i] < |p|
    requires forall i :: 0 <= i < |q| ==> q[i] < |q|
    requires forall i {:trigger p[i]} :: 0 <= i < |p| ==> q[p[i]] == i
    ensures Iterate(q, Iterate(p, x, a), b) == Iterate(p, x, a - b)
    decreases b
  {
    if b > 0 {
      var y := Iterate(p, x, a - 1);
      IterateNext(p, x, a - 1);
      IterateUndo(p, q, x, a - 1, b - 1);
      assert Iterate(q, p[y], b) == Iterate(q, q[p[y]], b - 1);
    }
  }

  /** Walking the inverse undoes walking the permutation. */
  lemma IterateBack(p: seq<nat>, x: nat, a: nat, b: nat)
    requires IsPerm(p) && x < |p| && b <= a
    ensures Iterate(Inverse(p), Iterate(p, x, a), b) == Iterate(p, x, a - b)
  {
    IterateUndo(p, Inverse(p), x, a, b);
  }
}
