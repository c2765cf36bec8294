/**
 The Fenwick (binary indexed) trees behind every integer frequency model: `order0.rs` keeps one of
 256 entries, `rle_predictor.rs` and `neural_ssm.rs` keep trees of 254. Node `j` (counted from 1,
 stored at `j - 1`) holds the sum of the `LowBit(j)` counts that end at position `j`.
 */
module Fenwick {

  /** The lowest set bit: `n & n.wrapping_neg()`. */
  function LowBit(n: nat): (b: nat)
    requires n > 0
    ensures 0 < b <= n
  {
    if n % 2 == 1 then 1 else 2 * LowBit(n / 2)
  }

  function OddPart(n: nat): (m: nat)
    requires n > 0
    ensures m % 2 == 1
  {
    if n % 2 == 1 then n else OddPart(n / 2)
  }

  predicate IsPowerOfTwo(n: nat) {
    n == 1 || (n > 0 && n % 2 == 0 && IsPowerOfTwo(n / 2))
  }

  /** It is a single bit, and the lowest one: dividing it out leaves an odd number. */
  lemma {:induction false} LowBitIsLowest(n: nat)
    requires n > 0
    ensures IsPowerOfTwo(LowBit(n))
    ensures n == LowBit(n) * OddPart(n)
  {
    if n % 2 == 0 {
      LowBitIsLowest(n / 2);
      Doubled(n / 2, LowBit(n / 2), OddPart(n / 2));
    }
  }

  lemma Doubled(h: nat, a: nat, b: nat)
    requires h == a * b
    ensures 2 * h == 2 * a * b
  {
  }

  /** The node that also covers everything node `j` covers: `j + (j & -j)`. */
  function Parent(j: nat): (p: nat)
    requires j > 0
    ensures p > j
  {
    j + LowBit(j)
  }

  /** The node a prefix sum visits next: `j & (j - 1)`. */
  function Before(j: nat): (p: nat)
    requires j > 0
    ensures p < j
  {
    j - LowBit(j)
  }

  /** The parent covers what the node covers. */
  lemma {:induction false} ParentCovers(j: nat)
    requires j > 0
    ensures Before(Parent(j)) <= Before(j)
  {
    if j % 2 == 0 {
      ParentCovers(j / 2);
      assert Parent(j) == 2 * Parent(j / 2);
    }
  }

  /** Nodes strictly between a node and its parent cover nothing at or before the node. */
  lemma {:induction false} BetweenNodes(j: nat, k: nat)
    requires 0 < j < k < Parent(j)
    ensures Before(k) >= j
  {
    if j % 2 == 0 && k % 2 == 0 {
      BetweenNodes(j / 2, k / 2);
    }
  }

  /** Nodes strictly between `Before(j)` and `j` have their parents at or before `j`. */
  lemma {:induction false} InnerParents(j: nat, k: nat)
    requires 0 < j && Before(j) < k < j
    ensures Parent(k) <= j
  {
    if j % 2 == 0 && k % 2 == 0 {
      InnerParents(j / 2, k / 2);
    }
  }

  lemma LowBitOdd(q: nat)
    ensures LowBit(q * 2 + 1) == 1
  {
    assert (q * 2 + 1) % 2 == 1;
  }

  lemma LowBitDouble(n: nat)
    requires n > 0
    ensures LowBit(2 * n) == 2 * LowBit(n)
  {
  }

  lemma DoubleStep(q: nat, h: nat, step: nat)
    requires step == 2 * h
    ensures q * (2 * step) + step == 2 * (q * (2 * h) + h)
  {
  }

  /** A multiple of `2 * step` plus `step`, a power of two, has `step` as lowest bit. */
  lemma {:induction false} LowBitOfStep(q: nat, step: nat)
    requires step in {1, 2, 4, 8, 16, 32, 64, 128}
    ensures LowBit(q * (2 * step) + step) == step
    decreases step
  {
    if step == 1 {
      LowBitOdd(q);
    } else {
      hide LowBit;
      var h := step / 2;
      DoubleStep(q, h, step);
      LowBitOfStep(q, h);
      LowBitDouble(q * (2 * h) + h);
    }
  }

  /** `c[i] + ... + c[j - 1]`. */
  function Sum(c: seq<nat>, i: nat, j: nat): nat
    requires i <= j <= |c|
  {
    if i == j then 0 else Sum(c, i, j - 1) + c[j - 1]
  }

  lemma {:induction false} SumSplit(c: seq<nat>, i: nat, m: nat, j: nat)
    requires i <= m <= j <= |c|
    ensures Sum(c, i, j) == Sum(c, i, m) + Sum(c, m, j)
    decreases j
  {
    if m < j {
      SumSplit(c, i, m, j - 1);
    }
  }

  lemma {:induction false} SumIncrement(c: seq<nat>, x: nat, d: nat, i: nat, j: nat)
    requires i <= j <= |c| && x < |c|
    ensures Sum(c[x := c[x] + d], i, j) == Sum(c, i, j) + if i <= x < j then d else 0
    decreases j
  {
    if i < j {
      SumIncrement(c, x, d, i, j - 1);
    }
  }

  lemma {:induction false} SumBounds(c: seq<nat>, lo: nat, hi: nat, i: nat, j: nat)
    requires i <= j <= |c|
    requires forall x :: i <= x < j ==> lo <= c[x] <= hi
    ensures (j - i) * lo <= Sum(c, i, j) <= (j - i) * hi
    decreases j
  {
    if i < j {
      SumBounds(c, lo, hi, i, j - 1);
      assert (j - i) * lo == (j - 1 - i) * lo + lo;
      assert (j - i) * hi == (j - 1 - i) * hi + hi;
    }
  }

  /** `tree` is the Fenwick tree of the counts `c`. */
  ghost predicate IsTree(tree: seq<nat>, c: seq<nat>) {
    |tree| == |c| && forall j :: 1 <= j <= |c| ==> tree[j - 1] == Sum(c, Before(j), j)
  }

  /** Zeros are their own tree. */
  lemma ZeroTree(tree: seq<nat>, c: seq<nat>)
    requires |tree| == |c| && (forall i :: 0 <= i < |c| ==> tree[i] == c[i] == 0)
    ensures IsTree(tree, c) && Sum(c, 0, |c|) == 0
  {
    forall j | 1 <= j <= |c|
      ensures Sum(c, Before(j), j) == 0
    {
      SumBounds(c, 0, 0, Before(j), j);
    }
    SumBounds(c, 0, 0, 0, |c|);
  }

  /** The node a lifting step of width `step` looks at sums exactly that step. */
  lemma StepNode(tree: seq<nat>, c: seq<nat>, q: nat, step: nat)
    requires IsTree(tree, c) && step in {1, 2, 4, 8, 16, 32, 64, 128}
    requires q * (2 * step) + step <= |c|
    ensures Sum(c, 0, q * (2 * step)) + tree[q * (2 * step) + step - 1] == Sum(c, 0, q * (2 * step) + step)
  {
    var lo := q * (2 * step);
    LowBitOfStep(q, step);
    assert Before(lo + step) == lo;
    SumSplit(c, 0, lo, lo + step);
  }

  // A lifting step of width `step` starts at a multiple of `Width(step)`.

  function Width(step: nat): nat {
    if step == 0 then 1 else 2 * step
  }

  lemma HalveStep(q: nat, step: nat)
    requires step in {1, 2, 4, 8, 16, 32, 64, 128}
    ensures q * Width(step) == 2 * q * Width(step / 2)
    ensures q * Width(step) + step == (2 * q + 1) * Width(step / 2)
  {
    assert Width(step / 2) == step;
  }

  /** `fenwick_prefix` / `fenwick254_prefix`. */
  method Prefix(tree: array<nat>, ghost c: seq<nat>, len: nat) returns (sum: nat)
    requires IsTree(tree[..], c) && len <= |c|
    ensures sum == Sum(c, 0, len)
  {
    sum := 0;
    var idx: nat := len;
    while idx > 0
      invariant idx <= len
      invariant sum + Sum(c, 0, idx) == Sum(c, 0, len)
    {
      assert tree[..][idx - 1] == Sum(c, Before(idx), idx);
      SumSplit(c, 0, Before(idx), idx);
      sum := sum + tree[idx - 1];
      idx := Before(idx);
    }
  }

  /** `fenwick_add` / `fenwick254_add`: afterwards the tree is the tree of the incremented counts. */
  method Add(tree: array<nat>, ghost c: seq<nat>, i: nat, delta: nat)
    requires IsTree(tree[..], c) && i < |c|
    modifies tree
    ensures IsTree(tree[..], c[i := c[i] + delta])
  {
    hide LowBit, Sum, Before, Parent;
    ghost var c' := c[i := c[i] + delta];
    var idx := i + 1;
    assert Before(idx) <= i;
    forall j | 1 <= j < idx
      ensures tree[j - 1] == Sum(c', Before(j), j)
    {
      SumIncrement(c, i, delta, Before(j), j);
      assert tree[..][j - 1] == Sum(c, Before(j), j);
    }
    while idx <= tree.Length
      invariant Before(idx) <= i < idx
      invariant forall j :: 1 <= j < idx && j <= |c| ==> tree[j - 1] == Sum(c', Before(j), j)
      invariant forall j :: idx <= j <= |c| ==> tree[j - 1] == Sum(c, Before(j), j)
      decreases tree.Length + 1 - idx
    {
      SumIncrement(c, i, delta, Before(idx), idx);
      tree[idx - 1] := tree[idx - 1] + delta;
      ParentCovers(idx);
      forall j | idx < j < Parent(idx) && j <= |c|
        ensures Sum(c', Before(j), j) == Sum(c, Before(j), j)
      {
        BetweenNodes(idx, j);
        SumIncrement(c, i, delta, Before(j), j);
      }
      idx := Parent(idx);
    }
    forall j | 1 <= j <= |c|
      ensures tree[..][j - 1] == Sum(c', Before(j), j)
    {
    }
  }

  /** How far node `j` has been filled once the nodes up to `k < j` have been pushed to their parents. */
  ghost function Covered(j: nat, k: nat): (m: nat)
    requires k < j
    ensures m <= k || m == Before(j)
    ensures Before(j) <= m < j
    decreases k
  {
    if k <= Before(j) then Before(j)
    else if Parent(k) == j then k
    else Covered(j, k - 1)
  }

  /** An odd node covers its own count alone. */
  lemma OddNode(j: nat)
    requires j % 2 == 1
    ensures Before(j) == j - 1 && Parent(j) == j + 1
  {
  }

  lemma CoveredNothing(j: nat, k: nat)
    requires k < j && k <= Before(j)
    ensures Covered(j, k) == Before(j)
  {
  }

  lemma CoveredByChild(j: nat, k: nat)
    requires 0 < k < j && Parent(k) == j
    ensures Covered(j, k) == k
  {
    ParentCovers(k);
    hide LowBit, Before, Parent;
  }

  /** When all its children have been pushed, a node lacks only its own last count. */
  lemma CoveredAll(j: nat)
    requires j > 0
    ensures Covered(j, j - 1) == j - 1
  {
    hide LowBit, Before, Parent, Covered;
    if j % 2 == 0 {
      OddNode(j - 1);
      CoveredByChild(j, j - 1);
    } else {
      OddNode(j);
      CoveredNothing(j, j - 1);
    }
  }

  /** A node's children tile it: the children before `k` reach exactly to where `k` begins. */
  lemma CoveredBefore(j: nat, k: nat)
    requires 0 < k < j && Parent(k) == j
    ensures Covered(j, k - 1) == Before(k)
  {
    ParentCovers(k);
    var b := Before(k);
    SkipInner(j, k, k - 1);
    if b > Before(j) {
      ChildChain(j, k);
    }
  }

  lemma {:induction false} ChildChain(j: nat, k: nat)
    requires 0 < k < j && Parent(k) == j && Before(k) > Before(j)
    ensures Parent(Before(k)) == j
  {
    if k % 2 == 0 {
      assert j == 2 * Parent(k / 2);
      ChildChain(j / 2, k / 2);
    } else {
      ChildOfOdd(j);
    }
  }

  lemma {:induction false} ChildOfOdd(j: nat)
    requires j % 2 == 0 && j >= 4 && Before(j) < j - 2
    ensures Parent(j - 2) == j
  {
    assert LowBit(j) == 2 * LowBit(j / 2);
    assert j / 2 % 2 == 0;
    assert LowBit((j - 2) / 2) == 1;
  }

  lemma {:induction false} SkipInner(j: nat, k: nat, x: nat)
    requires 0 < k < j && Parent(k) == j && Before(k) <= x < k && Before(j) <= Before(k)
    ensures Covered(j, x) == Covered(j, Before(k))
    decreases x
  {
    if x > Before(k) {
      InnerParents(k, x);
      SkipInner(j, k, x - 1);
    }
  }

  /** What node `j` holds once the nodes below `idx` were pushed: its final sum, or what its pushed children
      and its own count give. */
  ghost function Held(c: seq<nat>, j: nat, idx: nat): nat
    requires 1 <= j <= |c| && idx > 0
  {
    if j < idx then Sum(c, Before(j), j) else Sum(c, Before(j), Covered(j, idx - 1)) + c[j - 1]
  }

  ghost predicate Filled(tree: seq<nat>, c: seq<nat>, idx: nat)
    requires idx > 0
  {
    |tree| == |c| && forall j :: 1 <= j <= |c| ==> tree[j - 1] == Held(c, j, idx)
  }

  /** Pushing a node completes it and changes no node but its parent. */
  lemma HeldElsewhere(c: seq<nat>, j: nat, idx: nat)
    requires 1 <= j <= |c| && idx > 0 && j != Parent(idx)
    ensures Held(c, j, idx + 1) == Held(c, j, idx)
  {
    if j == idx {
      CoveredAll(idx);
    }
  }

  lemma HeldByParent(c: seq<nat>, idx: nat)
    requires idx > 0 && Parent(idx) <= |c|
    ensures var p := Parent(idx); Held(c, p, idx + 1) == Held(c, p, idx) + Held(c, idx, idx)
  {
    var p := Parent(idx);
    CoveredAll(idx);
    CoveredBefore(p, idx);
    ParentCovers(idx);
    SumSplit(c, Before(p), Before(idx), idx);
    CoveredByChild(p, idx);
  }

  lemma PushNode(tree: seq<nat>, c: seq<nat>, idx: nat)
    requires 1 <= idx <= |c| && Filled(tree, c, idx)
    ensures var p := Parent(idx);
            Filled(if p <= |c| then tree[p - 1 := tree[p - 1] + tree[idx - 1]] else tree, c, idx + 1)
  {
    hide Held, Parent;
    var p, next := Parent(idx), idx + 1;
    if p <= |c| {
      HeldByParent(c, idx);
    }
    var t := if p <= |c| then tree[p - 1 := tree[p - 1] + tree[idx - 1]] else tree;
    forall j | 1 <= j <= |c|
      ensures t[j - 1] == Held(c, j, next)
    {
      assert tree[j - 1] == Held(c, j, idx);
      if j == p {
        assert tree[idx - 1] == Held(c, idx, idx);
      } else {
        HeldElsewhere(c, j, idx);
      }
    }
  }

  lemma FilledStart(tree: seq<nat>, c: seq<nat>)
    requires tree == c
    ensures Filled(tree, c, 1)
  {
  }

  lemma FilledEnd(tree: seq<nat>, c: seq<nat>)
    requires Filled(tree, c, |c| + 1)
    ensures IsTree(tree, c)
  {
    forall j | 1 <= j <= |c|
      ensures tree[j - 1] == Sum(c, Before(j), j)
    {
      assert tree[j - 1] == Held(c, j, |c| + 1);
    }
  }

  /** `rebuild_fenwick` / `fenwick254_rebuild`: copy the counts, then push every node to its parent. */
  method Rebuild(tree: array<nat>, counts: array<nat>)
    requires tree != counts && tree.Length == counts.Length
    modifies tree
    ensures IsTree(tree[..], counts[..])
  {
    ghost var c := counts[..];
    forall x | 0 <= x < tree.Length {
      tree[x] := counts[x];
    }
    FilledStart(tree[..], c);
    hide Filled, IsTree;
    for idx := 1 to tree.Length + 1
      invariant counts[..] == c
      invariant Filled(tree[..], c, idx)
    {
      PushToParent(tree, c, idx);
    }
    FilledEnd(tree[..], c);
  }

  method PushToParent(tree: array<nat>, ghost c: seq<nat>, idx: nat)
    requires 1 <= idx <= |c| == tree.Length && Filled(tree[..], c, idx)
    modifies tree
    ensures Filled(tree[..], c, idx + 1)
  {
    hide Filled, LowBit;
    PushNode(tree[..], c, idx);
    var parent := Parent(idx);
    if parent <= tree.Length {
      tree[parent - 1] := tree[parent - 1] + tree[idx - 1];
    }
  }
}
