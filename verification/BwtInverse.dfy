/**
 Inverse Burrows-Wheeler transform (`coding/bwt_preprocess.rs`): following the LF mapping back from
 the primary row restores the text, ties between rotations or not.
 */
module BwtInverse {
  import opened Bytes
  import opened Permutation
  import opened Bwt

  // ---------------------------------------------------------------------------------------------
  // Rotating a sorted row right by one follows the LF mapping
  // ---------------------------------------------------------------------------------------------

  lemma RotateRightOrder(x: seq<byte>, y: seq<byte>)
    requires |x| == |y| > 0
    requires x[|x| - 1] < y[|y| - 1] || (x[|x| - 1] == y[|y| - 1] && Leq(x, y))
    ensures Leq(RotateRight(x), RotateRight(y))
  {
    var n := |x|;
    if x[n - 1] == y[n - 1] {
      LeqTake(x, y, n - 1);
      assert RotateRight(x)[1..] == x[..n - 1];
      assert RotateRight(y)[1..] == y[..n - 1];
    }
  }

  ghost function Rotated(m: seq<seq<byte>>): (r: seq<seq<byte>>)
    requires forall i :: 0 <= i < |m| ==> |m[i]| > 0
    ensures |r| == |m| && forall i :: 0 <= i < |m| ==> r[i] == RotateRight(m[i])
  {
    seq(|m|, i requires 0 <= i < |m| => RotateRight(m[i]))
  }

  /** `m` rearranged so that its row `i` stands at `p[i]`. */
  ghost function Rearranged<T>(m: seq<T>, p: seq<nat>): (r: seq<T>)
    requires |m| == |p| && IsPerm(p)
    ensures |r| == |m| && forall i :: 0 <= i < |m| ==> r[p[i]] == m[i]
  {
    var q := Inverse(p);
    seq(|m|, k requires 0 <= k < |m| => m[q[k]])
  }

  /** Rotating a sorted matrix of rows right and sorting stably by first byte leaves it sorted. */
  lemma RearrangedSorted(m: seq<seq<byte>>, last: seq<byte>, n: nat)
    requires n > 0 && |m| == |last| && Sorted(m)
    requires forall i :: 0 <= i < |m| ==> |m[i]| == n && m[i][n - 1] == last[i]
    ensures Sorted(Rearranged(Rotated(m), LfMap(last)))
  {
    var lf := LfMap(last);
    var q := Inverse(lf);
    var r := Rearranged(Rotated(m), lf);
    forall a, b | 0 <= a < b < |r|
      ensures Leq(r[a], r[b])
    {
      assert lf[q[a]] == a && lf[q[b]] == b;
      RankedRows(m, last, n, q[a], q[b]);
    }
  }

  lemma RankedRows(m: seq<seq<byte>>, last: seq<byte>, n: nat, i: nat, j: nat)
    requires n > 0 && |m| == |last| && Sorted(m) && i < |m| && j < |m|
    requires forall i :: 0 <= i < |m| ==> |m[i]| == n && m[i][n - 1] == last[i]
    requires Rank(last, i) < Rank(last, j)
    ensures Leq(RotateRight(m[i]), RotateRight(m[j]))
  {
    if last[j] < last[i] || (last[i] == last[j] && j < i) {
      RankOrder(last, j, i);
    } else {
      RotateRightOrder(m[i], m[j]);
    }
  }

  lemma PreviousRotation(t: seq<byte>, i: nat)
    requires i < |t|
    ensures RotateRight(Rotation(t, i)) == Rotation(t, Previous(i, |t|))
    ensures Rotation(t, i)[|t| - 1] == t[Previous(i, |t|)]
  {
    if i == 0 {
      RotationStep(t, |t|);
    } else {
      RotationStep(t, i);
    }
  }

  ghost function AllRotations(t: seq<byte>): (m: seq<seq<byte>>)
    ensures |m| == |t| && forall i :: 0 <= i < |t| ==> m[i] == Rotation(t, i)
  {
    seq(|t|, i requires 0 <= i < |t| => Rotation(t, i))
  }

  function PreviousMap(p: seq<nat>): (q: seq<nat>)
    requires IsPerm(p)
    ensures |q| == |p| && IsPerm(q)
    ensures forall i :: 0 <= i < |p| ==> q[i] == Previous(p[i], |p|)
  {
    seq(|p|, i requires 0 <= i < |p| => Previous(p[i], |p|))
  }

  /** Rotating every row right only permutes the rows. */
  lemma RotatedSameRows(t: seq<byte>, p: seq<nat>)
    requires IsRotationOrder(t, p) && |t| > 0
    ensures multiset(Rotated(Rows(t, p))) == multiset(Rows(t, p))
  {
    var m := Rows(t, p);
    PermMultiset(m, AllRotations(t), p);
    var q := PreviousMap(p);
    forall i | 0 <= i < |p|
      ensures AllRotations(t)[q[i]] == Rotated(m)[i]
    {
      PreviousRotation(t, p[i]);
    }
    PermMultiset(Rotated(m), AllRotations(t), q);
  }

  /** The heart of the inverse: row `LF(j)` is row `j` rotated right, ties or no ties. */
  lemma LfRotatesRight(t: seq<byte>, p: seq<nat>, j: nat)
    requires IsRotationOrder(t, p) && j < |t|
    ensures Rotation(t, p[LfMap(LastColumn(t, p))[j]]) == RotateRight(Rotation(t, p[j]))
  {
    hide Leq, Rank, RotateRight, Rotation, LfMap;
    var m := Rows(t, p);
    var last := LastColumn(t, p);
    var lf := LfMap(last);
    forall i | 0 <= i < |p|
      ensures m[i][|t| - 1] == last[i]
    {
      PreviousRotation(t, p[i]);
    }
    RearrangedSorted(m, last, |t|);
    var r := Rearranged(Rotated(m), lf);
    PermMultiset(Rotated(m), r, lf);
    RotatedSameRows(t, p);
    SortedUnique(r, m);
    assert r[lf[j]] == RotateRight(m[j]);
  }

  // ---------------------------------------------------------------------------------------------
  // The backward walk
  // ---------------------------------------------------------------------------------------------

  /** The last `k` bytes of the text, read by following `LF` from row `idx`. */
  function Walk(bwt: seq<byte>, idx: nat, k: nat): (out: seq<byte>)
    requires idx < |bwt|
    ensures |out| == k
    decreases k
  {
    if k == 0 then [] else
    assert LfMap(bwt)[idx] == Rank(bwt, idx);
    Walk(bwt, Rank(bwt, idx), k - 1) + [bwt[idx]]
  }

  lemma {:induction false} WalkRestores(t: seq<byte>, p: seq<nat>, idx: nat, m: nat)
    requires IsRotationOrder(t, p) && idx < |t| && m <= |t|
    requires Rotation(t, p[idx]) == Rotation(t, m)
    ensures Walk(LastColumn(t, p), idx, m) == t[..m]
    decreases m
  {
    hide Rotation, Leq;
    if m > 0 {
      var last := LastColumn(t, p);
      WalkStep(t, p, idx, m);
      WalkRestores(t, p, Rank(last, idx), m - 1);
      assert t[..m] == t[..m - 1] + [t[m - 1]];
    }
  }

  lemma WalkStep(t: seq<byte>, p: seq<nat>, idx: nat, m: nat)
    requires IsRotationOrder(t, p) && idx < |t| && 0 < m <= |t|
    requires Rotation(t, p[idx]) == Rotation(t, m)
    ensures var last := LastColumn(t, p);
            && last[idx] == t[m - 1]
            && Rank(last, idx) < |t|
            && Rotation(t, p[Rank(last, idx)]) == Rotation(t, m - 1)
  {
    LfRotatesRight(t, p, idx);
    RotationStep(t, m);
    PreviousRotation(t, p[idx]);
    assert LfMap(LastColumn(t, p))[idx] == Rank(LastColumn(t, p), idx);
  }

  /** The walk from the primary row spells the text, for periodic texts too. */
  lemma InverseOfTransform(t: seq<byte>, p: seq<nat>, primary: nat)
    requires IsRotationOrder(t, p) && primary < |t| && p[primary] == 0
    ensures Walk(LastColumn(t, p), primary, |t|) == t
  {
    RotationStep(t, |t|);
    WalkRestores(t, p, primary, |t|);
  }
}
