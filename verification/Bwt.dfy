/**
 Burrows-Wheeler transform (`coding/bwt_preprocess.rs`). The suffix-array library is replaced by its
 specification: a permutation of the positions of the doubled text, sorted by suffix. Nothing is
 assumed about ties, so periodic texts, whose rotations coincide, are covered.
 */
module Bwt {
  import opened Bytes
  import opened Permutation

  const MAX_BWT_INPUT_SIZE: nat := 8 * 1024 * 1024
  const MAX_PACKED_LF: nat := 0x100_0000
  const TWO_CHAIN_MIN: nat := 0x10_0000

  // ---------------------------------------------------------------------------------------------
  // Lexicographic order
  // ---------------------------------------------------------------------------------------------

  predicate Leq(a: seq<byte>, b: seq<byte>) {
    a == [] || (b != [] && (a[0] < b[0] || (a[0] == b[0] && Leq(a[1..], b[1..]))))
  }

  lemma {:induction false} LeqReflexive(a: seq<byte>)
    ensures Leq(a, a)
  {
    if a != [] {
      LeqReflexive(a[1..]);
    }
  }

  lemma {:induction false} LeqAntisymmetric(a: seq<byte>, b: seq<byte>)
    requires Leq(a, b) && Leq(b, a)
    ensures a == b
  {
    if a != [] {
      LeqAntisymmetric(a[1..], b[1..]);
      assert a == [a[0]] + a[1..];
      assert b == [b[0]] + b[1..];
    }
  }

  /** Cutting both sequences at the same length keeps their order. */
  lemma {:induction false} LeqTake(a: seq<byte>, b: seq<byte>, k: nat)
    requires Leq(a, b) && k <= |a| && k <= |b|
    ensures Leq(a[..k], b[..k])
    decreases k
  {
    if k > 0 && a[0] == b[0] {
      LeqTake(a[1..], b[1..], k - 1);
      assert a[..k][1..] == a[1..][..k - 1];
      assert b[..k][1..] == b[1..][..k - 1];
    }
  }

  ghost predicate Sorted(rows: seq<seq<byte>>) {
    forall i, j :: 0 <= i < j < |rows| ==> Leq(rows[i], rows[j])
  }

  /** A sorted arrangement is unique, whatever ties there are. */
  lemma {:induction false} SortedUnique(a: seq<seq<byte>>, b: seq<seq<byte>>)
    requires Sorted(a) && Sorted(b) && multiset(a) == multiset(b)
    ensures a == b
    decreases |a|
  {
    if |a| == 0 {
      assert |multiset(b)| == 0;
    } else {
      hide Leq, Sorted;
      assert |multiset(b)| == |a|;
      HeadBelow(a, b);
      HeadBelow(b, a);
      LeqAntisymmetric(a[0], b[0]);
      TailSorted(a);
      TailSorted(b);
      SortedUnique(a[1..], b[1..]);
    }
  }

  lemma TailSorted(a: seq<seq<byte>>)
    requires |a| > 0 && Sorted(a)
    ensures Sorted(a[1..]) && multiset(a[1..]) == multiset(a) - multiset{a[0]} && a == [a[0]] + a[1..]
  {
    assert a == [a[0]] + a[1..];
  }

  lemma HeadBelow(a: seq<seq<byte>>, b: seq<seq<byte>>)
    requires |a| > 0 && |b| > 0 && Sorted(a) && multiset(a) == multiset(b)
    ensures Leq(a[0], b[0])
  {
    assert b[0] in multiset(b);
    assert b[0] in a;
    var k :| 0 <= k < |a| && a[k] == b[0];
    LeqReflexive(a[0]);
  }

  // ---------------------------------------------------------------------------------------------
  // Rotations and the transform
  // ---------------------------------------------------------------------------------------------

  function Rotation(t: seq<byte>, i: nat): (r: seq<byte>)
    requires i <= |t|
    ensures |r| == |t|
  {
    t[i..] + t[..i]
  }

  /** Rotate right by one: the last byte comes to the front. */
  function RotateRight(r: seq<byte>): seq<byte>
    requires |r| > 0
  {
    [r[|r| - 1]] + r[..|r| - 1]
  }

  lemma RotationStep(t: seq<byte>, i: nat)
    requires 0 < i <= |t|
    ensures RotateRight(Rotation(t, i)) == Rotation(t, i - 1)
    ensures Rotation(t, i)[|t| - 1] == t[i - 1]
    ensures Rotation(t, |t|) == Rotation(t, 0) == t
  {
  }

  lemma CyclicallyBefore(i: nat, n: nat)
    requires i < n
    ensures (i + n - 1) % n == if i == 0 then n - 1 else i - 1
  {
    if i > 0 {
      ModOnce(i - 1, n);
    }
  }

  lemma ModOnce(k: nat, n: nat)
    requires k < n
    ensures (k + n) % n == k
  {
    assert (k + n) / n == 1;
  }

  /** The position cyclically before `i`: `(i + n - 1) % n`. */
  function Previous(i: nat, n: nat): (k: nat)
    requires i < n
    ensures k < n && k == if i == 0 then n - 1 else i - 1
  {
    CyclicallyBefore(i, n);
    (i + n - 1) % n
  }

  /** Specification of the suffix-array library. */
  ghost predicate IsSuffixArray(t: seq<byte>, sa: seq<nat>) {
    && |sa| == |t|
    && IsPerm(sa)
    && forall a, b :: 0 <= a < b < |sa| ==> Leq(t[sa[a]..], t[sa[b]..])
  }

  /** The positions below `n`, in suffix-array order. */
  function Kept(sa: seq<nat>, n: nat): (p: seq<nat>)
    ensures forall x :: x in p <==> x in sa && x < n
    ensures forall i :: 0 <= i < |p| ==> p[i] < n
  {
    if sa == [] then [] else
    var last := sa[|sa| - 1];
    assert sa == sa[..|sa| - 1] + [last];
    Kept(sa[..|sa| - 1], n) + if last < n then [last] else []
  }

  lemma {:induction false} KeptDistinct(sa: seq<nat>, n: nat)
    requires forall i, j :: 0 <= i < j < |sa| ==> sa[i] != sa[j]
    ensures forall i, j :: 0 <= i < j < |Kept(sa, n)| ==> Kept(sa, n)[i] != Kept(sa, n)[j]
  {
    if sa != [] {
      var init := sa[..|sa| - 1];
      KeptDistinct(init, n);
      var k := Kept(init, n);
      assert sa[|sa| - 1] !in init;
      assert forall i :: 0 <= i < |k| ==> k[i] in k;
    }
  }

  lemma {:induction false} KeptSorted(t: seq<byte>, sa: seq<nat>, n: nat)
    requires forall i :: 0 <= i < |sa| ==> sa[i] <= |t|
    requires forall i, j :: 0 <= i < j < |sa| ==> Leq(t[sa[i]..], t[sa[j]..])
    requires n <= |t|
    ensures forall i, j :: 0 <= i < j < |Kept(sa, n)| ==> Leq(t[Kept(sa, n)[i]..], t[Kept(sa, n)[j]..])
    decreases |sa|
  {
    if sa != [] {
      var init := sa[..|sa| - 1];
      KeptSorted(t, init, n);
      var k := Kept(init, n);
      var last := sa[|sa| - 1];
      forall x | x in k
        ensures Leq(t[x..], t[last..])
      {
        assert x in init;
        var i :| 0 <= i < |init| && init[i] == x;
        assert sa[i] == x;
      }
      assert forall i :: 0 <= i < |k| ==> k[i] in k;
    }
  }

  lemma {:induction false} KeptPrefix(sa: seq<nat>, n: nat, k: nat)
    requires k <= |sa|
    ensures Kept(sa[..k], n) <= Kept(sa, n)
    decreases |sa|
  {
    if k < |sa| {
      var init := sa[..|sa| - 1];
      assert init[..k] == sa[..k];
      KeptPrefix(init, n, k);
    } else {
      assert sa[..k] == sa;
    }
  }

  /** The kept positions list every rotation of the text once, in sorted order. */
  ghost predicate IsRotationOrder(t: seq<byte>, p: seq<nat>) {
    && |p| == |t|
    && IsPerm(p)
    && forall a, b :: 0 <= a < b < |p| ==> Leq(Rotation(t, p[a]), Rotation(t, p[b]))
  }

  lemma KeptIsPerm(sa: seq<nat>, n: nat)
    requires IsPerm(sa) && n <= |sa|
    ensures IsPerm(Kept(sa, n)) && |Kept(sa, n)| == n
  {
    var p := Kept(sa, n);
    KeptDistinct(sa, n);
    DistinctSize(p);
    forall v | 0 <= v < n
      ensures v in p
    {
      Surjective(sa, v);
    }
    assert Elements(p) == Upto(n);
  }

  /** Sorting the suffixes of the doubled text sorts the rotations, ties included. */
  lemma KeptIsRotationOrder(t: seq<byte>, sa: seq<nat>)
    requires IsSuffixArray(t + t, sa)
    ensures IsRotationOrder(t, Kept(sa, |t|))
  {
    var n := |t|;
    var d := t + t;
    var p := Kept(sa, n);
    KeptIsPerm(sa, n);
    KeptSorted(d, sa, n);
    forall a, b | 0 <= a < b < n
      ensures Leq(Rotation(t, p[a]), Rotation(t, p[b]))
    {
      DoubledStart(t, p[a]);
      DoubledStart(t, p[b]);
      LeqTake(d[p[a]..], d[p[b]..], n);
    }
  }

  lemma DoubledStart(t: seq<byte>, i: nat)
    requires i <= |t|
    ensures (t + t)[i..][..|t|] == Rotation(t, i)
  {
  }

  /** Last column of the sorted rotations. */
  function LastColumn(t: seq<byte>, p: seq<nat>): (b: seq<byte>)
    requires forall i :: 0 <= i < |p| ==> p[i] < |t|
    ensures |b| == |p|
    ensures forall i :: 0 <= i < |p| ==> b[i] == t[Previous(p[i], |t|)]
  {
    seq(|p|, i requires 0 <= i < |p| => t[Previous(p[i], |t|)])
  }

  /**
   `bwt_encode`. `sa` is what the library wrote, `None` when it failed; only texts of two bytes up to
   the size limit reach it. The result is the last column of the sorted rotations and the row of the
   text itself.
   */
  method Encode(data: seq<byte>, sa: Option<seq<nat>>) returns (r: Result<(seq<byte>, nat)>)
    requires sa.Some? ==> IsSuffixArray(data + data, sa.value)
    ensures r.Ok? <==> |data| < 2 || (|data| <= 8 * 1024 * 1024 && sa.Some?)
    ensures r.Ok? && |data| < 2 ==> r.value == (data, 0)
    ensures r.Ok? && |data| >= 2 ==>
              && IsRotationOrder(data, Kept(sa.value, |data|))
              && r.value.0 == LastColumn(data, Kept(sa.value, |data|))
              && r.value.1 < |data|
              && Kept(sa.value, |data|)[r.value.1] == 0
  {
    var n := |data|;
    if n == 0 {
      return Ok(([], 0));
    }
    if n == 1 {
      return Ok((data, 0));
    }
    if n > MAX_BWT_INPUT_SIZE {
      return Err(ResourceLimit);
    }
    if sa == None {
      return Err(ResourceLimit);
    }
    var bwt, primary := Scan(data, sa.value);
    return Ok((bwt, primary));
  }

  method Scan(data: seq<byte>, sa: seq<nat>) returns (bwt: seq<byte>, primary: nat)
    requires |data| > 0 && IsSuffixArray(data + data, sa)
    ensures IsRotationOrder(data, Kept(sa, |data|))
    ensures bwt == LastColumn(data, Kept(sa, |data|))
    ensures primary < |data| && Kept(sa, |data|)[primary] == 0
  {
    hide Collected, LastColumn, IsRotationOrder, Kept;
    var n := |data|;
    KeptIsRotationOrder(data, sa);
    bwt, primary := [], 0;
    var i := 0;
    CollectNone(data, sa);
    while i < |sa| && |bwt| < n
      invariant i <= |sa|
      invariant Collected(data, sa, i, bwt, primary)
      decreases |sa| - i
    {
      var pos := sa[i];
      CollectStep(data, sa, i, bwt, primary);
      if pos < n {
        if pos == 0 {
          primary := |bwt|;
        }
        bwt := bwt + [data[Previous(pos, n)]];
      }
      i := i + 1;
    }
    CollectedAll(data, sa, i, bwt, primary);
  }

  lemma CollectNone(t: seq<byte>, sa: seq<nat>)
    ensures Collected(t, sa, 0, [], 0)
  {
  }

  lemma CollectedAll(t: seq<byte>, sa: seq<nat>, i: nat, bwt: seq<byte>, primary: nat)
    requires i <= |sa| && IsPerm(sa) && 0 < |t| <= |sa| && Collected(t, sa, i, bwt, primary)
    requires i == |sa| || |bwt| >= |t|
    ensures |bwt| == |t| && bwt == LastColumn(t, Kept(sa, |t|))
    ensures primary < |t| && Kept(sa, |t|)[primary] == 0
  {
    var p := Kept(sa, |t|);
    KeptIsPerm(sa, |t|);
    KeptPrefix(sa, |t|, i);
    Surjective(p, 0);
    assert sa[..|sa|] == sa;
    assert Kept(sa[..i], |t|) == p;
  }

  /** The scan has seen the first `i` suffixes. */
  ghost predicate Collected(t: seq<byte>, sa: seq<nat>, i: nat, bwt: seq<byte>, primary: nat)
    requires i <= |sa|
  {
    var k := Kept(sa[..i], |t|);
    bwt == LastColumn(t, k) && (0 in k ==> primary < |k| && k[primary] == 0)
  }

  lemma CollectStep(t: seq<byte>, sa: seq<nat>, i: nat, bwt: seq<byte>, primary: nat)
    requires i < |sa| && IsPerm(sa) && Collected(t, sa, i, bwt, primary)
    ensures sa[i] >= |t| ==> Collected(t, sa, i + 1, bwt, primary)
    ensures sa[i] < |t| ==>
              Collected(t, sa, i + 1, bwt + [t[Previous(sa[i], |t|)]], if sa[i] == 0 then |bwt| else primary)
  {
    assert sa[..i + 1][..i] == sa[..i];
    var k := Kept(sa[..i], |t|);
    assert Kept(sa[..i + 1], |t|) == k + if sa[i] < |t| then [sa[i]] else [];
    if sa[i] == 0 {
      assert 0 !in sa[..i];
    }
  }

  // ---------------------------------------------------------------------------------------------
  // LF mapping
  // ---------------------------------------------------------------------------------------------

  function CountLess(s: seq<byte>, c: nat): (k: nat)
    ensures k <= |s|
  {
    if s == [] then 0 else CountLess(s[..|s| - 1], c) + if s[|s| - 1] < c then 1 else 0
  }

  function CountEqual(s: seq<byte>, c: nat): (k: nat)
    ensures k <= |s|
  {
    if s == [] then 0 else CountEqual(s[..|s| - 1], c) + if s[|s| - 1] == c then 1 else 0
  }

  lemma {:induction false} CountLessNext(s: seq<byte>, c: nat)
    ensures CountLess(s, c + 1) == CountLess(s, c) + CountEqual(s, c)
  {
    if s != [] {
      CountLessNext(s[..|s| - 1], c);
    }
  }

  lemma {:induction false} CountLessMonotone(s: seq<byte>, c: nat, d: nat)
    requires c <= d
    ensures CountLess(s, c) <= CountLess(s, d)
  {
    if s != [] {
      CountLessMonotone(s[..|s| - 1], c, d);
    }
  }

  /** The occurrences before position `j` and the one at `j` are among all occurrences. */
  lemma {:induction false} CountEqualBefore(s: seq<byte>, j: nat, k: nat)
    requires j < k <= |s|
    ensures CountEqual(s[..j], s[j]) < CountEqual(s[..k], s[j])
    decreases k
  {
    assert s[..k][..k - 1] == s[..k - 1];
    if j < k - 1 {
      CountEqualBefore(s, j, k - 1);
    }
  }

  /** `LF(j) = cumul[c] + occ[c]`: where row `j` goes when rotated right. */
  function Rank(s: seq<byte>, j: nat): nat
    requires j < |s|
  {
    CountLess(s, s[j]) + CountEqual(s[..j], s[j])
  }

  /** The mapping sorts by byte and keeps the order of equal bytes. */
  lemma RankOrder(s: seq<byte>, i: nat, j: nat)
    requires i < |s| && j < |s| && (s[i] < s[j] || (s[i] == s[j] && i < j))
    ensures Rank(s, i) < Rank(s, j)
  {
    if s[i] == s[j] {
      CountEqualBefore(s, i, j);
    } else {
      assert s[..|s|] == s;
      CountEqualBefore(s, i, |s|);
      CountLessNext(s, s[i]);
      CountLessMonotone(s, s[i] as int + 1, s[j]);
    }
  }

  lemma RankBound(s: seq<byte>, j: nat)
    requires j < |s|
    ensures Rank(s, j) < |s|
  {
    assert s[..|s|] == s;
    CountEqualBefore(s, j, |s|);
    CountLessNext(s, s[j]);
  }

  /** `LF` is a permutation with every value in range. */
  function LfMap(s: seq<byte>): (lf: seq<nat>)
    ensures |lf| == |s| && IsPerm(lf)
    ensures forall j :: 0 <= j < |s| ==> lf[j] == Rank(s, j)
  {
    var lf := seq(|s|, j requires 0 <= j < |s| => Rank(s, j));
    assert IsPerm(lf) by {
      forall j | 0 <= j < |s| ensures lf[j] < |s| { RankBound(s, j); }
      forall i, j | 0 <= i < j < |s| ensures lf[i] != lf[j] {
        if s[j] < s[i] { RankOrder(s, j, i); } else { RankOrder(s, i, j); }
      }
    }
    lf
  }

  ghost function Rows(t: seq<byte>, p: seq<nat>): (m: seq<seq<byte>>)
    requires forall i :: 0 <= i < |p| ==> p[i] <= |t|
    ensures |m| == |p| && forall i :: 0 <= i < |p| ==> m[i] == Rotation(t, p[i])
  {
    seq(|p|, i requires 0 <= i < |p| => Rotation(t, p[i]))
  }
}
