/**
 The tables and the three walks of `bwt_decode_with`: what each computes on every input, and when
 they agree.
 */
module BwtWalks {
  import opened Bytes
  import opened Permutation
  import opened Bwt
  import opened BwtInverse

  /**
   The two-chain walk: the first half read forwards through the inverse of `LF`, the second half
   (with the middle byte) backwards through `LF`.
   */
  function TwoChain(bwt: seq<byte>, primary: nat, lf: seq<nat>, q: seq<nat>): (out: seq<byte>)
    requires primary < |bwt| == |lf| == |q|
    requires forall j :: 0 <= j < |bwt| ==> lf[j] < |bwt| && q[j] < |bwt|
    ensures |out| == |bwt|
  {
    var n := |bwt|;
    seq(n, i requires 0 <= i < n =>
      if i < n / 2 then bwt[Iterate(q, primary, i + 1)] else bwt[Iterate(lf, primary, n - 1 - i)])
  }

  ghost function TwoChainWalk(bwt: seq<byte>, primary: nat): (out: seq<byte>)
    requires primary < |bwt|
    ensures |out| == |bwt|
  {
    TwoChain(bwt, primary, LfMap(bwt), Inverse(LfMap(bwt)))
  }

  lemma {:induction false} WalkAt(bwt: seq<byte>, idx: nat, k: nat, i: nat)
    requires idx < |bwt| && i < k
    ensures Walk(bwt, idx, k)[i] == bwt[Iterate(LfMap(bwt), idx, k - 1 - i)]
    decreases k
  {
    if i < k - 1 {
      assert LfMap(bwt)[idx] == Rank(bwt, idx);
      WalkAt(bwt, Rank(bwt, idx), k - 1, i);
    }
  }

  /** Both walk shapes agree whenever `n` steps of `LF` lead back to the start. */
  lemma WalksAgree(bwt: seq<byte>, primary: nat)
    requires primary < |bwt| && Iterate(LfMap(bwt), primary, |bwt|) == primary
    ensures TwoChainWalk(bwt, primary) == Walk(bwt, primary, |bwt|)
  {
    hide Iterate, Walk, IsPerm;
    var lf, n := LfMap(bwt), |bwt|;
    forall i | 0 <= i < n
      ensures TwoChainWalk(bwt, primary)[i] == Walk(bwt, primary, n)[i]
    {
      WalkAt(bwt, primary, n, i);
      if i < n / 2 {
        IterateBack(lf, primary, n, i + 1);
      }
    }
  }

  /**
   The exact condition: the chain through the inverse reads the rows the backward walk reads if and
   only if `n` steps of `LF` lead back to the start. Without it the bytes may still coincide
   (`AgreeByAccident`).
   */
  lemma SameRowsExactly(bwt: seq<byte>, primary: nat)
    requires primary < |bwt| && |bwt| >= 2
    ensures Iterate(LfMap(bwt), primary, |bwt|) == primary
            <==> forall k :: 1 <= k <= |bwt| / 2 ==>
                   Iterate(Inverse(LfMap(bwt)), primary, k) == Iterate(LfMap(bwt), primary, |bwt| - k)
  {
    hide Iterate;
    var lf, n := LfMap(bwt), |bwt|;
    var q := Inverse(lf);
    if Iterate(lf, primary, n) == primary {
      forall k | 1 <= k <= n / 2
        ensures Iterate(q, primary, k) == Iterate(lf, primary, n - k)
      {
        IterateBack(lf, primary, n, k);
      }
    } else {
      var y := Iterate(lf, primary, n - 1);
      IterateNext(lf, primary, n - 1);
      IterateOnce(q, primary);
      assert lf[q[primary]] == primary;
      assert Iterate(q, primary, 1) != Iterate(lf, primary, n - 1);
    }
  }

  // ---------------------------------------------------------------------------------------------
  // On transformed texts LF returns to its start after n steps, even when it is not one cycle
  // ---------------------------------------------------------------------------------------------

  /** `lf` rotates rows right ... */
  ghost predicate Rotates(t: seq<byte>, p: seq<nat>, lf: seq<nat>) {
    && |t| == |p| == |lf|
    && (forall j :: 0 <= j < |lf| ==> lf[j] < |t|)
    && (forall j :: 0 <= j < |p| ==> p[j] < |t|)
    && (forall j {:trigger lf[j]} :: 0 <= j < |lf| ==> Rotation(t, p[lf[j]]) == RotateRight(Rotation(t, p[j])))
  }

  /** ... and never reorders equal rows. Nothing else is needed about it. */
  ghost predicate KeepsTies(t: seq<byte>, p: seq<nat>, lf: seq<nat>)
    requires Rotates(t, p, lf)
  {
    forall a, b {:trigger lf[a], lf[b]} :: 0 <= a < b < |lf| && Rotation(t, p[a]) == Rotation(t, p[b]) ==> lf[a] < lf[b]
  }

  lemma TransformRotates(t: seq<byte>, p: seq<nat>)
    requires IsRotationOrder(t, p)
    ensures Rotates(t, p, LfMap(LastColumn(t, p)))
    ensures KeepsTies(t, p, LfMap(LastColumn(t, p)))
  {
    hide Rotation, RotateRight, Rank, Previous;
    var lf := LfMap(LastColumn(t, p));
    forall j | 0 <= j < |t|
      ensures Rotation(t, p[lf[j]]) == RotateRight(Rotation(t, p[j]))
    {
      LfRotatesRight(t, p, j);
    }
    forall a, b | 0 <= a < b < |t| && Rotation(t, p[a]) == Rotation(t, p[b])
      ensures lf[a] < lf[b]
    {
      PreviousRotation(t, p[a]);
      PreviousRotation(t, p[b]);
      RankOrder(LastColumn(t, p), a, b);
    }
  }

  lemma {:induction false} RowAfter(t: seq<byte>, p: seq<nat>, lf: seq<nat>, idx: nat, m: nat, k: nat)
    requires Rotates(t, p, lf) && idx < |t| && k <= m <= |t|
    requires Rotation(t, p[idx]) == Rotation(t, m)
    ensures Rotation(t, p[Iterate(lf, idx, k)]) == Rotation(t, m - k)
    decreases k
  {
    hide Rotates, Rotation, Iterate;
    InRange(t, p, lf);
    IterateUnfold(lf, idx, k);
    if k > 0 {
      RowStep(t, p, lf, idx, m);
      RowAfter(t, p, lf, lf[idx], m - 1, k - 1);
    }
  }

  lemma RowStep(t: seq<byte>, p: seq<nat>, lf: seq<nat>, idx: nat, m: nat)
    requires Rotates(t, p, lf) && idx < |t| && 0 < m <= |t|
    requires Rotation(t, p[idx]) == Rotation(t, m)
    ensures Rotation(t, p[lf[idx]]) == Rotation(t, m - 1)
  {
    RotationStep(t, m);
  }

  lemma RowHome(t: seq<byte>, p: seq<nat>, lf: seq<nat>, idx: nat)
    requires Rotates(t, p, lf) && idx < |t|
    ensures Rotation(t, p[Iterate(lf, idx, p[idx])]) == Rotation(t, |t|)
  {
    RowAfter(t, p, lf, idx, p[idx], p[idx]);
    assert Rotation(t, |t|) == Rotation(t, 0);
  }

  lemma RowAfterAll(t: seq<byte>, p: seq<nat>, lf: seq<nat>, idx: nat)
    requires Rotates(t, p, lf) && idx < |t|
    ensures Rotation(t, p[Iterate(lf, idx, |t|)]) == Rotation(t, p[idx])
  {
    RowHome(t, p, lf, idx);
    IterateSplit(lf, idx, |t|, p[idx]);
    RowFromHome(t, p, lf, Iterate(lf, idx, p[idx]), p[idx]);
  }

  lemma RowFromHome(t: seq<byte>, p: seq<nat>, lf: seq<nat>, home: nat, m: nat)
    requires Rotates(t, p, lf) && home < |t| && m < |t| && Rotation(t, p[home]) == Rotation(t, |t|)
    ensures Rotation(t, p[Iterate(lf, home, |t| - m)]) == Rotation(t, m)
  {
    RowAfter(t, p, lf, home, |t|, |t| - m);
  }

  /** Equal rows keep their order under `LF`. */
  lemma {:induction false} EqualRowsKeepOrder(t: seq<byte>, p: seq<nat>, lf: seq<nat>, a: nat, b: nat, k: nat)
    requires Rotates(t, p, lf) && KeepsTies(t, p, lf) && a < b < |t| && Rotation(t, p[a]) == Rotation(t, p[b])
    ensures Iterate(lf, a, k) < Iterate(lf, b, k)
    decreases k
  {
    hide Rotates, KeepsTies, Rotation, Iterate;
    InRange(t, p, lf);
    IterateUnfold(lf, a, k);
    IterateUnfold(lf, b, k);
    if k > 0 {
      TieStep(t, p, lf, a, b);
      EqualRowsKeepOrder(t, p, lf, lf[a], lf[b], k - 1);
    }
  }

  lemma InRange(t: seq<byte>, p: seq<nat>, lf: seq<nat>)
    requires Rotates(t, p, lf)
    ensures |t| == |p| == |lf| && (forall j :: 0 <= j < |lf| ==> lf[j] < |t|)
            && (forall j :: 0 <= j < |p| ==> p[j] < |t|)
  {
  }

  lemma TieStep(t: seq<byte>, p: seq<nat>, lf: seq<nat>, a: nat, b: nat)
    requires Rotates(t, p, lf) && KeepsTies(t, p, lf) && a < b < |t| && Rotation(t, p[a]) == Rotation(t, p[b])
    ensures lf[a] < lf[b] && Rotation(t, p[lf[a]]) == Rotation(t, p[lf[b]])
  {
    hide Rotation, RotateRight;
    assert Rotation(t, p[lf[a]]) == RotateRight(Rotation(t, p[a]));
    assert Rotation(t, p[lf[b]]) == RotateRight(Rotation(t, p[b]));
  }

  lemma {:induction false} NeverAbove(t: seq<byte>, p: seq<nat>, lf: seq<nat>, x: nat)
    requires Rotates(t, p, lf) && KeepsTies(t, p, lf) && x < |t|
    ensures Iterate(lf, x, |t|) <= x
    decreases |t| - x
  {
    var y := Iterate(lf, x, |t|);
    if y > x {
      RowAfterAll(t, p, lf, x);
      EqualRowsKeepOrder(t, p, lf, x, y, |t|);
      NeverAbove(t, p, lf, y);
    }
  }

  lemma {:induction false} NeverBelow(t: seq<byte>, p: seq<nat>, lf: seq<nat>, x: nat)
    requires Rotates(t, p, lf) && KeepsTies(t, p, lf) && x < |t|
    ensures Iterate(lf, x, |t|) >= x
    decreases x
  {
    var y := Iterate(lf, x, |t|);
    if y < x {
      RowAfterAll(t, p, lf, x);
      EqualRowsKeepOrder(t, p, lf, y, x, |t|);
      NeverBelow(t, p, lf, y);
    }
  }

  /** `LF^n` is the identity on every transformed text, though `LF` need not be a single cycle. */
  lemma LfCloses(t: seq<byte>, p: seq<nat>, x: nat)
    requires IsRotationOrder(t, p) && x < |t|
    ensures Iterate(LfMap(LastColumn(t, p)), x, |t|) == x
  {
    var lf := LfMap(LastColumn(t, p));
    TransformRotates(t, p);
    NeverAbove(t, p, lf, x);
    NeverBelow(t, p, lf, x);
  }

  // ---------------------------------------------------------------------------------------------
  // The methods
  // ---------------------------------------------------------------------------------------------

  lemma CountEqualStep(s: seq<byte>, i: nat)
    requires i < |s|
    ensures forall c: nat :: CountEqual(s[..i + 1], c) == CountEqual(s[..i], c) + if c == s[i] then 1 else 0
  {
    assert s[..i + 1][..i] == s[..i];
  }

  /** `occ[c]` is how often `c` occurs among the first `i` bytes. */
  ghost predicate Occurrences(occ: seq<nat>, bwt: seq<byte>, i: nat) {
    |occ| == 256 && i <= |bwt| && forall c :: 0 <= c < 256 ==> occ[c] == CountEqual(bwt[..i], c)
  }

  /** `cumul[c]` is how many bytes are below `c`. */
  ghost predicate IsCumulative(cumul: seq<nat>, bwt: seq<byte>) {
    |cumul| == 256 && forall c :: 0 <= c < 256 ==> cumul[c] == CountLess(bwt, c)
  }

  method CountByte(occ: array<nat>, bwt: seq<byte>, i: nat)
    requires i < |bwt| && Occurrences(occ[..], bwt, i)
    modifies occ
    ensures Occurrences(occ[..], bwt, i + 1)
  {
    CountEqualStep(bwt, i);
    occ[bwt[i]] := occ[bwt[i]] + 1;
  }

  /** `cumul[c] + occ[c]` for the byte at `i`. */
  method RankOf(cumul: array<nat>, occ: array<nat>, bwt: seq<byte>, i: nat) returns (rank: nat)
    requires i < |bwt| && Occurrences(occ[..], bwt, i) && IsCumulative(cumul[..], bwt)
    ensures rank == Rank(bwt, i) < |bwt|
  {
    var c := bwt[i];
    RankBound(bwt, i);
    assert cumul[..][c] == cumul[c] && occ[..][c] == occ[c];
    rank := cumul[c] + occ[c];
  }

  /** Counts per byte, then their running sums. */
  method Cumulative(bwt: seq<byte>) returns (cumul: array<nat>)
    ensures fresh(cumul) && IsCumulative(cumul[..], bwt)
  {
    var count := new nat[256](_ => 0);
    for i := 0 to |bwt|
      invariant Occurrences(count[..], bwt, i)
    {
      CountByte(count, bwt, i);
    }
    assert bwt[..|bwt|] == bwt;
    assert forall d :: 0 <= d < 256 ==> count[..][d] == count[d];
    cumul := new nat[256](_ => 0);
    var sum := 0;
    CountLessZero(bwt);
    for c := 0 to 256
      invariant sum == CountLess(bwt, c)
      invariant forall d :: 0 <= d < 256 ==> count[d] == CountEqual(bwt, d)
      invariant forall d :: 0 <= d < c ==> cumul[d] == CountLess(bwt, d)
    {
      CountLessNext(bwt, c);
      cumul[c] := sum;
      sum := sum + count[c];
    }
  }

  lemma {:induction false} CountLessZero(s: seq<byte>)
    ensures CountLess(s, 0) == 0
  {
    if s != [] {
      CountLessZero(s[..|s| - 1]);
    }
  }

  /** The `LF` table. */
  method BuildLf(bwt: seq<byte>, cumul: array<nat>) returns (lf: array<nat>)
    requires IsCumulative(cumul[..], bwt)
    ensures fresh(lf) && lf[..] == LfMap(bwt)
  {
    lf := new nat[|bwt|](_ => 0);
    var occ := new nat[256](_ => 0);
    for i := 0 to |bwt|
      invariant Occurrences(occ[..], bwt, i) && IsCumulative(cumul[..], bwt)
      invariant forall k :: 0 <= k < i ==> lf[k] == Rank(bwt, k)
    {
      lf[i] := RankOf(cumul, occ, bwt, i);
      CountByte(occ, bwt, i);
    }
  }

  /** An index and a byte as one number. */
  function PackedAt(index: nat, b: byte): nat {
    index * 256 + b
  }

  /** `(index << 8) | b` in 32 bits loses nothing while indices stay below 2^24. */
  method Pack(index: nat, b: byte) returns (v: nat)
    requires index < MAX_PACKED_LF
    ensures v == PackedAt(index, b) < TWO32
  {
    v := index * 256 % TWO32 + b;
  }

  /** Entry `k` packs `index[k]` and `bytes[k]`. */
  ghost predicate IsPacked(table: seq<nat>, index: seq<nat>, bytes: seq<byte>) {
    && |table| == |index| == |bytes|
    && forall k :: 0 <= k < |table| ==> table[k] == PackedAt(index[k], bytes[k])
  }

  /** `forward[i] = (LF[i] << 8) | bwt[i]`. */
  method BuildForward(bwt: seq<byte>, cumul: array<nat>) returns (forward: array<nat>)
    requires |bwt| <= MAX_PACKED_LF && IsCumulative(cumul[..], bwt)
    ensures fresh(forward) && IsPacked(forward[..], LfMap(bwt), bwt)
  {
    hide Rank, PackedAt, CountLess;
    forward := new nat[|bwt|](_ => 0);
    var occ := new nat[256](_ => 0);
    for i := 0 to |bwt|
      invariant Occurrences(occ[..], bwt, i) && IsCumulative(cumul[..], bwt)
      invariant forall k :: 0 <= k < i ==> forward[k] == PackedAt(Rank(bwt, k), bwt[k])
    {
      var rank := RankOf(cumul, occ, bwt, i);
      forward[i] := Pack(rank, bwt[i]);
      CountByte(occ, bwt, i);
    }
  }

  /** The two halves of a packed entry. */
  function IndexOf(v: nat): nat {
    v / 256
  }

  function ByteOf(v: nat): byte {
    v % 256
  }

  lemma UnpackAt(table: seq<nat>, index: seq<nat>, bytes: seq<byte>, k: nat)
    requires IsPacked(table, index, bytes) && k < |table|
    ensures IndexOf(table[k]) == index[k] && ByteOf(table[k]) == bytes[k]
  {
  }

  ghost function Permuted(s: seq<byte>, q: seq<nat>): (r: seq<byte>)
    requires forall k :: 0 <= k < |q| ==> q[k] < |s|
    ensures |r| == |q| && forall k :: 0 <= k < |q| ==> r[k] == s[q[k]]
  {
    seq(|q|, k requires 0 <= k < |q| => s[q[k]])
  }

  /** `inverse[LF[i]] = (i << 8) | bwt[i]`. */
  method BuildInverse(bwt: seq<byte>, forward: array<nat>, ghost lf: seq<nat>, ghost q: seq<nat>)
    returns (inverse: array<nat>)
    requires |bwt| == |lf| == |q| <= MAX_PACKED_LF && IsPacked(forward[..], lf, bwt)
    requires forall i {:trigger lf[i]} :: 0 <= i < |lf| ==> lf[i] < |lf| && q[lf[i]] == i
    requires forall k {:trigger q[k]} :: 0 <= k < |q| ==> q[k] < |q| && lf[q[k]] == k
    ensures fresh(inverse) && IsPacked(inverse[..], q, Permuted(bwt, q))
  {
    ghost var want := seq(|q|, k requires 0 <= k < |q| => PackedAt(q[k], bwt[q[k]]));
    inverse := FillInverse(bwt, forward, lf, want);
    forall k | 0 <= k < |q|
      ensures inverse[..][k] == want[k]
    {
      assert lf[q[k]] == k;
    }
  }

  /** Writing a wanted value keeps every wanted value. */
  method StoreOne(table: array<nat>, j: nat, v: nat, ghost want: seq<nat>)
    requires j < table.Length == |want| && v == want[j]
    modifies table
    ensures table[j] == v
    ensures forall x :: 0 <= x < table.Length ==> table[x] == old(table[x]) || (x == j && table[x] == want[x])
  {
    table[j] := v;
  }

  method FillInverse(bwt: seq<byte>, forward: array<nat>, ghost lf: seq<nat>, ghost want: seq<nat>)
    returns (inverse: array<nat>)
    requires |bwt| == |lf| == |want| <= MAX_PACKED_LF && IsPacked(forward[..], lf, bwt)
    requires forall i {:trigger lf[i]} :: 0 <= i < |lf| ==> lf[i] < |lf| && want[lf[i]] == PackedAt(i, bwt[i])
    ensures fresh(inverse) && inverse.Length == |bwt|
    ensures forall i {:trigger lf[i]} :: 0 <= i < |lf| ==> inverse[lf[i]] == want[lf[i]]
  {
    ghost var fw := forward[..];
    inverse := new nat[|bwt|](_ => 0);
    for i := 0 to |bwt|
      invariant forward[..] == fw
      invariant forall k {:trigger lf[k]} :: 0 <= k < i ==> inverse[lf[k]] == want[lf[k]]
    {
      UnpackAt(fw, lf, bwt, i);
      var packed := forward[i];
      assert packed == fw[i] && IndexOf(packed) == lf[i];
      var v := Pack(i, ByteOf(packed));
      assert v == want[lf[i]];
      StoreOne(inverse, IndexOf(packed), v, want);
    }
  }

  method WalkArrays(bwt: seq<byte>, lf: array<nat>, primary: nat) returns (output: array<byte>)
    requires primary < |bwt| && lf[..] == LfMap(bwt)
    ensures output[..] == Walk(bwt, primary, |bwt|)
  {
    output := new byte[|bwt|](_ => 0);
    var idx: nat, slot: nat := primary, |bwt|;
    ghost var goal := Walk(bwt, primary, |bwt|);
    while slot > 0
      invariant slot <= |bwt| && idx < |bwt| && lf[..] == LfMap(bwt)
      invariant Walk(bwt, idx, slot) + output[slot..] == goal
    {
      slot := slot - 1;
      output[slot] := bwt[idx];
      WalkUnfold(bwt, idx, slot, output[slot + 1..]);
      assert output[slot..] == [output[slot]] + output[slot + 1..];
      assert lf[idx] == lf[..][idx];
      idx := lf[idx];
    }
  }

  lemma WalkUnfold(bwt: seq<byte>, idx: nat, slot: nat, done: seq<byte>)
    requires idx < |bwt|
    ensures Rank(bwt, idx) < |bwt|
    ensures Walk(bwt, idx, slot + 1) + done == Walk(bwt, Rank(bwt, idx), slot) + ([bwt[idx]] + done)
  {
    RankBound(bwt, idx);
  }

  method WalkPacked(bwt: seq<byte>, forward: array<nat>, primary: nat, ghost lf: seq<nat>) returns (output: array<byte>)
    requires primary < |bwt| && IsPacked(forward[..], lf, bwt)
    requires forall j :: 0 <= j < |bwt| ==> lf[j] == Rank(bwt, j) < |bwt|
    ensures output[..] == Walk(bwt, primary, |bwt|)
  {
    hide Walk, PackedAt, IndexOf, ByteOf;
    ghost var fw := forward[..];
    output := new byte[|bwt|](_ => 0);
    var idx: nat, slot: nat := primary, |bwt|;
    ghost var goal := Walk(bwt, primary, |bwt|);
    while slot > 0
      invariant slot <= |bwt| && idx < |bwt| && forward[..] == fw
      invariant Walk(bwt, idx, slot) + output[slot..] == goal
    {
      slot := slot - 1;
      var packed := forward[idx];
      UnpackAt(fw, lf, bwt, idx);
      WalkUnfold(bwt, idx, slot, output[slot + 1..]);
      output[slot] := ByteOf(packed);
      assert output[slot..] == [output[slot]] + output[slot + 1..];
      idx := IndexOf(packed);
    }
  }

  method WalkTwoChains(bwt: seq<byte>, forward: array<nat>, inverse: array<nat>, primary: nat, ghost lf: seq<nat>,
                       ghost q: seq<nat>)
      returns (output: array<byte>)
    requires primary < |bwt| == |lf| == |q|
    requires forall j :: 0 <= j < |bwt| ==> lf[j] < |bwt| && q[j] < |bwt|
    requires IsPacked(forward[..], lf, bwt) && IsPacked(inverse[..], q, Permuted(bwt, q))
    ensures output[..] == TwoChain(bwt, primary, lf, q)
  {
    hide TwoChain, Iterate, Permuted, Matches, PackedAt, ByteOf, IndexOf;
    output := new byte[|bwt|](_ => 0);
    var half := |bwt| / 2;
    var back := ChainLoop(bwt, forward, inverse, primary, output, lf, q);
    if |bwt| % 2 == 1 {
      TwoChainAt(bwt, primary, lf, q, half);
      UnpackAt(forward[..], lf, bwt, back);
      StoreMiddle(output, ByteOf(forward[back]), TwoChain(bwt, primary, lf, q));
    } else {
      MatchesAll(output[..], TwoChain(bwt, primary, lf, q));
    }
  }

  method StoreMiddle(output: array<byte>, b: byte, ghost goal: seq<byte>)
    requires Matches(output[..], goal, |goal| / 2) && |goal| % 2 == 1 && b == goal[|goal| / 2]
    modifies output
    ensures output[..] == goal
  {
    output[output.Length / 2] := b;
    MatchesAll(output[..], goal);
  }

  lemma MatchesAll(out: seq<byte>, goal: seq<byte>)
    requires Matches(out, goal, |goal| / 2)
    requires |goal| % 2 == 1 ==> out[|goal| / 2] == goal[|goal| / 2]
    ensures out == goal
  {
  }

  /** Both chains, `n / 2` steps each. */
  method ChainLoop(bwt: seq<byte>, forward: array<nat>, inverse: array<nat>, primary: nat, output: array<byte>,
                   ghost lf: seq<nat>, ghost q: seq<nat>)
      returns (back: nat)
    requires primary < |bwt| == |lf| == |q| == output.Length
    requires forall j :: 0 <= j < |bwt| ==> lf[j] < |bwt| && q[j] < |bwt|
    requires IsPacked(forward[..], lf, bwt) && IsPacked(inverse[..], q, Permuted(bwt, q))
    modifies output
    ensures back == Iterate(lf, primary, |bwt| / 2)
    ensures Matches(output[..], TwoChain(bwt, primary, lf, q), |bwt| / 2)
  {
    ghost var fw, inv := forward[..], inverse[..];
    ghost var goal := TwoChain(bwt, primary, lf, q);
    back := primary;
    var fwd: nat := primary;
    for k := 0 to |bwt| / 2
      invariant back == Iterate(lf, primary, k) && fwd == Iterate(q, primary, k)
      invariant Matches(output[..], goal, k)
      invariant forward[..] == fw && inverse[..] == inv
    {
      back, fwd := ChainStepBoth(bwt, forward, inverse, primary, k, back, fwd, output, lf, q);
    }
  }

  method ChainStepBoth(bwt: seq<byte>, forward: array<nat>, inverse: array<nat>, ghost primary: nat, k: nat, back: nat,
                       fwd: nat, output: array<byte>, ghost lf: seq<nat>, ghost q: seq<nat>)
      returns (back': nat, fwd': nat)
    requires primary < |bwt| == |lf| == |q| && k < |bwt| / 2
    requires forall j :: 0 <= j < |bwt| ==> lf[j] < |bwt| && q[j] < |bwt|
    requires IsPacked(forward[..], lf, bwt) && IsPacked(inverse[..], q, Permuted(bwt, q))
    requires back == Iterate(lf, primary, k) && fwd == Iterate(q, primary, k)
    requires Matches(output[..], TwoChain(bwt, primary, lf, q), k)
    modifies output
    ensures back' == Iterate(lf, primary, k + 1) && fwd' == Iterate(q, primary, k + 1)
    ensures Matches(output[..], TwoChain(bwt, primary, lf, q), k + 1)
  {
    hide TwoChain, Iterate, Matches, PackedAt, ByteOf, IndexOf;
    TwoChainAt(bwt, primary, lf, q, k);
    UnpackAt(forward[..], lf, bwt, back);
    UnpackAt(inverse[..], q, Permuted(bwt, q), fwd);
    var b, f := forward[back], inverse[fwd];
    StoreEnds(output, k, ByteOf(b), ByteOf(f), TwoChain(bwt, primary, lf, q));
    back', fwd' := IndexOf(b), IndexOf(f);
  }

  /** The outermost `k` bytes on both sides are those of `goal`. */
  ghost predicate Matches(out: seq<byte>, goal: seq<byte>, k: nat) {
    && |out| == |goal| && 2 * k <= |goal|
    && (forall i :: 0 <= i < k ==> out[i] == goal[i])
    && (forall i :: |goal| - k <= i < |goal| ==> out[i] == goal[i])
  }

  method StoreEnds(output: array<byte>, k: nat, b: byte, f: byte, ghost goal: seq<byte>)
    requires Matches(output[..], goal, k) && 2 * k + 2 <= |goal|
    requires b == goal[|goal| - 1 - k] && f == goal[k]
    modifies output
    ensures Matches(output[..], goal, k + 1)
  {
    output[output.Length - 1 - k] := b;
    output[k] := f;
  }

  lemma TwoChainAt(bwt: seq<byte>, primary: nat, lf: seq<nat>, q: seq<nat>, k: nat)
    requires primary < |bwt| == |lf| == |q| && 2 * k < |bwt|
    requires forall j :: 0 <= j < |bwt| ==> lf[j] < |bwt| && q[j] < |bwt|
    ensures Iterate(lf, primary, k + 1) == lf[Iterate(lf, primary, k)]
    ensures Iterate(q, primary, k + 1) == q[Iterate(q, primary, k)]
    ensures TwoChain(bwt, primary, lf, q)[|bwt| - 1 - k] == bwt[Iterate(lf, primary, k)]
    ensures k < |bwt| / 2 ==> TwoChain(bwt, primary, lf, q)[k] == bwt[Iterate(q, primary, k + 1)]
  {
    IterateNext(lf, primary, k);
    IterateNext(q, primary, k);
  }

  /** What `bwt_decode_with` returns under any thresholds. */
  ghost function DecodedWith(bwt: seq<byte>, primary: nat, twoChainMin: nat, maxPackedLf: nat): Result<seq<byte>> {
    if bwt == [] then Ok([])
    else if primary >= |bwt| then Err(Decompression)
    else if |bwt| > maxPackedLf || |bwt| <= twoChainMin then Ok(Walk(bwt, primary, |bwt|))
    else Ok(TwoChainWalk(bwt, primary))
  }

  /** `bwt_decode_with`; `n > max_packed_lf` or indices that fit 24 bits, as the source's packing needs. */
  method DecodeWith(bwt: seq<byte>, primary: nat, twoChainMin: nat, maxPackedLf: nat) returns (r: Result<seq<byte>>)
    requires |bwt| > maxPackedLf || |bwt| <= MAX_PACKED_LF
    ensures r == DecodedWith(bwt, primary, twoChainMin, maxPackedLf)
  {
    var n := |bwt|;
    if n == 0 {
      return Ok([]);
    }
    if primary >= n {
      return Err(Decompression);
    }
    var cumul := Cumulative(bwt);
    var output;
    if n > maxPackedLf {
      var lf := BuildLf(bwt, cumul);
      output := WalkArrays(bwt, lf, primary);
      return Ok(output[..]);
    }
    var forward := BuildForward(bwt, cumul);
    if n <= twoChainMin {
      output := WalkPacked(bwt, forward, primary, LfMap(bwt));
    } else {
      var inverse := BuildInverse(bwt, forward, LfMap(bwt), Inverse(LfMap(bwt)));
      output := WalkTwoChains(bwt, forward, inverse, primary, LfMap(bwt), Inverse(LfMap(bwt)));
    }
    return Ok(output[..]);
  }

  /** What `bwt_decode` returns. */
  ghost function Decoded(bwt: seq<byte>, primary: nat): Result<seq<byte>> {
    DecodedWith(bwt, primary, TWO_CHAIN_MIN, MAX_PACKED_LF)
  }

  method Decode(bwt: seq<byte>, primary: nat) returns (r: Result<seq<byte>>)
    ensures r == Decoded(bwt, primary)
  {
    r := DecodeWith(bwt, primary, TWO_CHAIN_MIN, MAX_PACKED_LF);
  }

  /** Only an index outside the string is refused. */
  lemma RefusedExactly(bwt: seq<byte>, primary: nat, twoChainMin: nat, maxPackedLf: nat)
    ensures var r := DecodedWith(bwt, primary, twoChainMin, maxPackedLf);
            && (r == Err(Decompression) <==> 0 < |bwt| <= primary)
            && (!(0 < |bwt| <= primary) ==> r.Ok? && |r.value| == |bwt|)
  {
  }

  // ---------------------------------------------------------------------------------------------
  // Crafted inputs
  // ---------------------------------------------------------------------------------------------

  /** "bab", then as many more 'b' as wanted: with row 0 no transform. */
  function Crafted(n: nat): (b: seq<byte>)
    requires n >= 3
    ensures |b| == n
  {
    [98, 97] + Repeat<byte>(98, n - 2)
  }

  lemma {:induction false} CraftedCounts(n: nat)
    requires n >= 3
    ensures CountLess(Crafted(n), 97) == 0 && CountLess(Crafted(n), 98) == 1
    decreases n
  {
    var b := Crafted(n);
    if n == 3 {
      var two: seq<byte> := [98, 97];
      var one: seq<byte> := [98];
      assert b[..2] == two && two[..1] == one && one[..0] == [];
      assert CountLess(one, 97) == 0 && CountLess(one, 98) == 0;
      assert CountLess(two, 97) == 0 && CountLess(two, 98) == 1;
    } else {
      assert b[..n - 1] == Crafted(n - 1);
      CraftedCounts(n - 1);
    }
  }

  /** `LF` swaps the first two rows. */
  lemma CraftedSwaps(n: nat)
    requires n >= 3
    ensures LfMap(Crafted(n))[0] == 1 && LfMap(Crafted(n))[1] == 0
  {
    var b := Crafted(n);
    CraftedCounts(n);
    assert b[..0] == [] && b[..1] == [98] && [98][..0] == [];
  }

  lemma {:induction false} SwapEvenly(p: seq<nat>, k: nat)
    requires |p| >= 2 && (forall i :: 0 <= i < |p| ==> p[i] < |p|) && p[0] == 1 && p[1] == 0 && k % 2 == 0
    ensures Iterate(p, 0, k) == 0
    decreases k
  {
    if k > 0 {
      assert Iterate(p, 0, k) == Iterate(p, 1, k - 1) == Iterate(p, 0, k - 2);
      SwapEvenly(p, k - 2);
    }
  }

  /**
   The walks do not agree on every input. For every odd length, under any thresholds that send it to
   the two-chain walk, the crafted string read from row 0 decodes to other bytes than the single walk
   gives; beyond 2^20 bytes `bwt_decode` itself takes that branch.
   */
  lemma WalksCanDisagree(n: nat, twoChainMin: nat, maxPackedLf: nat)
    requires n >= 3 && n % 2 == 1 && twoChainMin < n <= maxPackedLf
    ensures DecodedWith(Crafted(n), 0, twoChainMin, maxPackedLf) != DecodedWith(Crafted(n), 0, n, maxPackedLf)
    ensures DecodedWith(Crafted(n), 0, n, maxPackedLf) == Ok(Walk(Crafted(n), 0, n))
    ensures 0x10_0000 < n <= 0x100_0000 ==> Decoded(Crafted(n), 0) != Ok(Walk(Crafted(n), 0, n))
  {
    var b := Crafted(n);
    var lf := LfMap(b);
    var q := Inverse(lf);
    CraftedSwaps(n);
    WalkAt(b, 0, n, 0);
    SwapEvenly(lf, n - 1);
    assert q[lf[1]] == 1;
    IterateOnce(q, 0);
    assert Walk(b, 0, n)[0] == 98 && TwoChainWalk(b, 0)[0] == 97;
  }

  /** Agreement may be an accident: "abaaa" from row 2 never closes, yet both walks give "aaaba". */
  lemma AgreeByAccident()
    ensures var b: seq<byte> := [97, 98, 97, 97, 97];
            Iterate(LfMap(b), 2, 5) != 2 && TwoChainWalk(b, 2) == Walk(b, 2, 5)
  {
    hide Iterate, Walk, Rank, CountLess, CountEqual;
    var b: seq<byte> := [97, 98, 97, 97, 97];
    var lf := LfMap(b);
    AccidentRanks();
    assert lf == [0, 4, 1, 2, 3];
    AccidentWalk(lf);
    AccidentInverse(lf);
    forall i | 0 <= i < 5
      ensures TwoChainWalk(b, 2)[i] == Walk(b, 2, 5)[i]
    {
      WalkAt(b, 2, 5, i);
    }
  }

  lemma AccidentInverse(lf: seq<nat>)
    requires lf == [0, 4, 1, 2, 3] && IsPerm(lf)
    ensures Iterate(Inverse(lf), 2, 1) == 3 && Iterate(Inverse(lf), 2, 2) == 4
  {
    var q := Inverse(lf);
    assert q[lf[3]] == 3 && q[lf[4]] == 4;
    IterateOnce(q, 2);
    assert Iterate(q, 2, 2) == Iterate(q, 3, 1);
    IterateOnce(q, 3);
  }

  lemma AccidentRanks()
    ensures var b: seq<byte> := [97, 98, 97, 97, 97];
            Rank(b, 0) == 0 && Rank(b, 1) == 4 && Rank(b, 2) == 1 && Rank(b, 3) == 2 && Rank(b, 4) == 3
  {
    var b: seq<byte> := [97, 98, 97, 97, 97];
    assert b[..4] == [97, 98, 97, 97] && b[..3] == [97, 98, 97] && b[..2] == [97, 98] && b[..1] == [97] && b[..0] == [];
    assert b[..4][..3] == b[..3] && b[..3][..2] == b[..2] && b[..2][..1] == b[..1] && b[..1][..0] == [];
    assert CountLess(b[..2], 97) == CountLess(b[..1], 97) == 0 && CountLess(b[..2], 98) == CountLess(b[..1], 98) == 1;
    assert CountLess(b, 97) == CountLess(b[..4], 97) == CountLess(b[..3], 97) == CountLess(b[..2], 97);
    assert CountLess(b[..4], 98) == CountLess(b[..3], 98) + 1 && CountLess(b[..3], 98) == CountLess(b[..2], 98) + 1;
    assert CountEqual(b[..1], 97) == 1 && CountEqual(b[..2], 97) == 1;
    assert CountEqual(b[..3], 97) == 2 && CountEqual(b[..4], 97) == 3;
    assert CountEqual(b[..1], 98) == 0;
  }

  lemma AccidentWalk(lf: seq<nat>)
    requires lf == [0, 4, 1, 2, 3]
    ensures forall i :: 0 <= i < |lf| ==> lf[i] < |lf|
    ensures Iterate(lf, 2, 1) == 1 && Iterate(lf, 2, 2) == 4 && Iterate(lf, 2, 3) == 3 && Iterate(lf, 2, 4) == 2
    ensures Iterate(lf, 2, 5) == 1
  {
    assert Iterate(lf, 2, 0) == 2;
    IterateNext(lf, 2, 0);
    IterateNext(lf, 2, 1);
    IterateNext(lf, 2, 2);
    IterateNext(lf, 2, 3);
    IterateNext(lf, 2, 4);
  }

  /** What `bwt_encode` returns on success, for some order of the tied rotations. */
  ghost predicate IsTransform(t: seq<byte>, p: seq<nat>, bwt: seq<byte>, primary: nat) {
    if |t| < 2 then bwt == t && primary == 0
    else IsRotationOrder(t, p) && bwt == LastColumn(t, p) && primary < |t| && p[primary] == 0
  }

  /** Decoding a transformed text restores it, whichever walk its length selects. */
  lemma RoundTrip(t: seq<byte>, p: seq<nat>, bwt: seq<byte>, primary: nat)
    requires IsTransform(t, p, bwt, primary)
    ensures Decoded(bwt, primary) == Ok(t)
  {
    if |t| == 1 {
      assert Walk(bwt, 0, 1) == t;
    } else if |t| > 1 {
      InverseOfTransform(t, p, primary);
      LfCloses(t, p, primary);
      WalksAgree(bwt, primary);
    }
  }
}
