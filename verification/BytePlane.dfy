/** Byte planes: splitting elements by byte position, and wrapping delta coding (`coding/byteplane_preprocess.rs`). */
module BytePlanes {
  import opened Bytes

  datatype Width = Two | Four

  function Planes(width: Width): (w: nat)
    ensures w == 2 || w == 4
  {
    if width.Two? then 2 else 4
  }

  function FromU8(v: byte): Option<Width> {
    if v == 2 then Some(Two) else if v == 4 then Some(Four) else None
  }

  // ---------------------------------------------------------------------------------------------
  // Splitting
  // ---------------------------------------------------------------------------------------------

  lemma PlaneAt(d: seq<byte>, n: nat, w: nat, j: nat, i: nat)
    requires n * w <= |d| && j < w && i < n
    ensures i * w + j < |d| && Plane(d, n, w, j)[i] == d[i * w + j]
  {
    ElementInside(i, n, w);
  }

  lemma ElementInside(i: nat, n: nat, w: nat)
    requires i < n
    ensures i * w + w <= n * w
  {
    MulLe(i + 1, n, w);
  }

  /** Byte `j` of each of the first `n` elements of width `w`. */
  function Plane(d: seq<byte>, n: nat, w: nat, j: nat): (s: seq<byte>)
    requires n * w <= |d| && j < w
    ensures |s| == n
  {
    seq(n, i requires 0 <= i < n => ElementInside(i, n, w); d[i * w + j])
  }

  function Split(d: seq<byte>, n: nat, w: nat): (planes: seq<seq<byte>>)
    requires n * w <= |d|
    ensures IsPlanes(planes, n) && |planes| == w
  {
    seq(w, j requires 0 <= j < w => Plane(d, n, w, j))
  }

  ghost predicate IsPlanes(planes: seq<seq<byte>>, n: nat) {
    forall j :: 0 <= j < |planes| ==> |planes[j]| == n
  }

  function Row(planes: seq<seq<byte>>, i: nat): (s: seq<byte>)
    requires forall j :: 0 <= j < |planes| ==> i < |planes[j]|
    ensures |s| == |planes|
  {
    seq(|planes|, j requires 0 <= j < |planes| => planes[j][i])
  }

  /** The first `n` elements, bytes interleaved again. */
  function Rows(planes: seq<seq<byte>>, n: nat): (s: seq<byte>)
    requires forall j :: 0 <= j < |planes| ==> n <= |planes[j]|
    ensures |s| == n * |planes|
  {
    if n == 0 then [] else Rows(planes, n - 1) + Row(planes, n - 1)
  }

  /** Merging what was split restores every whole element. */
  lemma {:induction false} MergeSplit(d: seq<byte>, n: nat, w: nat, m: nat)
    requires n * w <= |d| && m <= n
    ensures m * w <= n * w
    ensures Rows(Split(d, n, w), m) == d[..m * w]
    decreases m
  {
    MulLe(m, n, w);
    if m > 0 {
      ElementInside(m - 1, n, w);
      MergeSplit(d, n, w, m - 1);
      var at := (m - 1) * w;
      assert m * w == at + w;
      assert Row(Split(d, n, w), m - 1) == d[at..at + w];
    }
  }

  lemma {:induction false} RowsAt(planes: seq<seq<byte>>, n: nat, i: nat, j: nat)
    requires forall k :: 0 <= k < |planes| ==> n <= |planes[k]|
    requires i < n && j < |planes|
    ensures i * |planes| + j < |Rows(planes, n)|
    ensures Rows(planes, n)[i * |planes| + j] == planes[j][i]
    decreases n
  {
    ElementInside(i, n, |planes|);
    if i == n - 1 {
    } else {
      RowsAt(planes, n - 1, i, j);
    }
  }

  /** And splitting what was merged gives the planes back. */
  lemma SplitMerge(planes: seq<seq<byte>>, n: nat, tail: seq<byte>)
    requires IsPlanes(planes, n)
    ensures Split(Rows(planes, n) + tail, n, |planes|) == planes
  {
    var d := Rows(planes, n) + tail;
    var w := |planes|;
    var s := Split(d, n, w);
    forall j | 0 <= j < w
      ensures s[j] == planes[j]
    {
      forall i | 0 <= i < n
        ensures s[j][i] == planes[j][i]
      {
        RowsAt(planes, n, i, j);
      }
    }
  }

  /** `byteplane_split`. */
  method SplitBytes(data: seq<byte>, width: Width) returns (planes: seq<seq<byte>>, tail: seq<byte>)
    ensures var w := Planes(width);
            var n := |data| / w;
            && n * w <= |data|
            && planes == Split(data, n, w) && tail == data[n * w..]
  {
    var w := Planes(width);
    var n := |data| / w;
    if width.Two? {
      planes := SplitTwo(data, n);
    } else {
      planes := SplitFour(data, n);
    }
    tail := data[n * w..];
  }

  method SplitTwo(data: seq<byte>, n: nat) returns (planes: seq<seq<byte>>)
    requires n * 2 <= |data|
    ensures planes == Split(data, n, 2)
  {
    var p0, p1 := new byte[n], new byte[n];
    for i := 0 to n
      invariant forall k :: 0 <= k < i ==> p0[k] == data[k * 2] && p1[k] == data[k * 2 + 1]
    {
      p0[i], p1[i] := data[i * 2], data[i * 2 + 1];
    }
    assert p0[..] == Plane(data, n, 2, 0) && p1[..] == Plane(data, n, 2, 1);
    return [p0[..], p1[..]];
  }

  method SplitFour(data: seq<byte>, n: nat) returns (planes: seq<seq<byte>>)
    requires n * 4 <= |data|
    ensures planes == Split(data, n, 4)
  {
    var p0, p1, p2, p3 := new byte[n], new byte[n], new byte[n], new byte[n];
    for i := 0 to n
      invariant forall k :: 0 <= k < i ==> p0[k] == data[k * 4] && p1[k] == data[k * 4 + 1]
      invariant forall k :: 0 <= k < i ==> p2[k] == data[k * 4 + 2] && p3[k] == data[k * 4 + 3]
    {
      p0[i], p1[i], p2[i], p3[i] := data[i * 4], data[i * 4 + 1], data[i * 4 + 2], data[i * 4 + 3];
    }
    assert p0[..] == Plane(data, n, 4, 0) && p1[..] == Plane(data, n, 4, 1);
    assert p2[..] == Plane(data, n, 4, 2) && p3[..] == Plane(data, n, 4, 3);
    return [p0[..], p1[..], p2[..], p3[..]];
  }

  /** `byteplane_merge`; the three width branches of the source differ only in unrolling. */
  method MergeBytes(planes: seq<seq<byte>>, tail: seq<byte>) returns (data: seq<byte>)
    requires forall j :: 0 <= j < |planes| ==> |planes[0]| <= |planes[j]|
    ensures data == if planes == [] then tail else Rows(planes, |planes[0]|) + tail
  {
    if planes == [] {
      return tail;
    }
    var n, w := |planes[0]|, |planes|;
    var out := new byte[n * w + |tail|];
    for i := 0 to n
      invariant i * w <= n * w
      invariant out[..i * w] == Rows(planes, i)
    {
      ElementInside(i, n, w);
      WriteRow(out, i * w, planes, i);
    }
    for k := 0 to |tail|
      invariant out[..n * w + k] == Rows(planes, n) + tail[..k]
    {
      out[n * w + k] := tail[k];
    }
    assert out[..] == out[..n * w + |tail|];
    return out[..];
  }

  method WriteRow(out: array<byte>, at: nat, planes: seq<seq<byte>>, i: nat)
    requires at + |planes| <= out.Length
    requires forall j :: 0 <= j < |planes| ==> i < |planes[j]|
    modifies out
    ensures out[..at + |planes|] == old(out[..at]) + Row(planes, i)
  {
    ghost var before := out[..at];
    for j := 0 to |planes|
      invariant out[..at + j] == before + Row(planes, i)[..j]
    {
      out[at + j] := planes[j][i];
      assert out[..at + j + 1] == out[..at + j] + [planes[j][i]];
    }
  }

  // ---------------------------------------------------------------------------------------------
  // Delta
  // ---------------------------------------------------------------------------------------------

  function WrappingAdd(a: byte, b: byte): byte {
    (a as int + b as int) % 256
  }

  function WrappingSub(a: byte, b: byte): byte {
    (a as int - b as int) % 256
  }

  lemma WrappingInverse(a: byte, b: byte)
    ensures WrappingAdd(WrappingSub(a, b), b) == a && WrappingSub(WrappingAdd(a, b), b) == a
  {
    var d, s: int := a as int - b as int, a as int + b as int;
    assert WrappingSub(a, b) == if d >= 0 then d else d + 256;
    assert WrappingAdd(a, b) == if s < 256 then s else s - 256;
  }

  /** Wrapping differences of neighbours. */
  function Deltas(p: seq<byte>): (s: seq<byte>)
    ensures |s| == |p|
  {
    seq(|p|, i requires 0 <= i < |p| => if i == 0 then p[0] else WrappingSub(p[i], p[i - 1]))
  }

  lemma DeltasAt(p: seq<byte>, i: nat)
    requires 0 < i < |p|
    ensures Deltas(p)[i] == (p[i] as int - p[i - 1] as int) % 256
  {
  }

  /** Wrapping prefix sums. */
  function Sums(p: seq<byte>): (s: seq<byte>)
    ensures |s| == |p|
  {
    if |p| <= 1 then p else
    var s := Sums(p[..|p| - 1]);
    s + [WrappingAdd(p[|p| - 1], s[|p| - 2])]
  }

  /** The plain sum of bytes. */
  function SumOf(p: seq<byte>): nat {
    if p == [] then 0 else SumOf(p[..|p| - 1]) + p[|p| - 1] as nat
  }

  /** Every decoded byte is the sum of all coded bytes so far, modulo 256. */
  lemma {:induction false} SumsAt(p: seq<byte>, i: nat)
    requires i < |p|
    ensures Sums(p)[i] == SumOf(p[..i + 1]) % 256
    decreases |p|
  {
    hide Sums, SumOf, WrappingAdd;
    var q, b := p[..|p| - 1], p[|p| - 1];
    assert p == q + [b];
    if q == [] {
      OneSum(b);
      assert p[..i + 1] == [b];
    } else {
      SumsPush(q, b);
      if i < |q| {
        SumsAt(q, i);
        assert q[..i + 1] == p[..i + 1];
      } else {
        SumsAt(q, i - 1);
        assert q[..i] == q && p[..i + 1] == q + [b];
        SumOfPush(q, b);
        AddModulo(SumOf(q), b);
      }
    }
  }

  lemma OneSum(b: byte)
    ensures Sums([b])[0] == SumOf([b]) % 256
  {
    assert [b][..0] == [];
  }

  lemma SumOfPush(p: seq<byte>, b: byte)
    ensures SumOf(p + [b]) == SumOf(p) + b as nat
  {
    assert (p + [b])[..|p|] == p;
  }

  lemma AddModulo(n: nat, b: byte)
    ensures WrappingAdd(b, n % 256) == (n + b as nat) % 256
  {
    var q := n / 256;
    assert n + b as nat == 256 * q + (n % 256 + b as nat);
  }

  lemma SumsPush(s: seq<byte>, b: byte)
    requires s != []
    ensures Sums(s + [b]) == Sums(s) + [WrappingAdd(b, Sums(s)[|s| - 1])]
  {
    assert (s + [b])[..|s|] == s;
  }

  lemma DeltasPush(s: seq<byte>, b: byte)
    requires s != []
    ensures Deltas(s + [b]) == Deltas(s) + [WrappingSub(b, s[|s| - 1])]
  {
    hide WrappingSub;
  }

  lemma {:induction false} SumsDeltas(p: seq<byte>)
    ensures Sums(Deltas(p)) == p
  {
    if |p| > 1 {
      hide Sums, Deltas, WrappingAdd, WrappingSub;
      var q, b := p[..|p| - 1], p[|p| - 1];
      assert p == q + [b];
      SumsDeltas(q);
      DeltasPush(q, b);
      SumsPush(Deltas(q), WrappingSub(b, q[|q| - 1]));
      WrappingInverse(b, q[|q| - 1]);
    }
  }

  lemma {:induction false} DeltasSums(p: seq<byte>)
    ensures Deltas(Sums(p)) == p
  {
    if |p| > 1 {
      hide Sums, Deltas, WrappingAdd, WrappingSub;
      var q, b := p[..|p| - 1], p[|p| - 1];
      assert p == q + [b];
      DeltasSums(q);
      SumsPush(q, b);
      DeltasPush(Sums(q), WrappingAdd(b, Sums(q)[|q| - 1]));
      WrappingInverse(b, Sums(q)[|q| - 1]);
    }
  }

  /** `delta_encode`. */
  method DeltaEncode(plane: seq<byte>) returns (r: seq<byte>)
    ensures r == Deltas(plane)
  {
    if plane == [] {
      return [];
    }
    var out := new byte[|plane|];
    out[0] := plane[0];
    for i := 1 to |plane|
      invariant out[..i] == Deltas(plane)[..i]
    {
      out[i] := WrappingSub(plane[i], plane[i - 1]);
    }
    return out[..];
  }

  /** `delta_decode`, in place. */
  method DeltaDecode(plane: array<byte>)
    modifies plane
    ensures plane[..] == Sums(old(plane[..]))
  {
    ghost var p := plane[..];
    if plane.Length > 0 {
      assert plane[..1] == p[..1];
      for i := 1 to plane.Length
        invariant plane[..i] == Sums(p[..i])
        invariant plane[i..] == p[i..]
      {
        assert plane[i] == plane[i..][0] && plane[i - 1] == plane[..i][i - 1];
        assert p[..i + 1][..i] == p[..i];
        plane[i] := WrappingAdd(plane[i], plane[i - 1]);
        assert plane[..i + 1] == plane[..i] + [plane[i]];
      }
      assert p[..plane.Length] == p && plane[..plane.Length] == plane[..];
    }
  }
}
