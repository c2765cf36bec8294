/**
 Byte-plane payloads (`coding/byteplane_preprocess.rs`): when the encoder makes one, how long it is and what
 it holds, and which payloads the decoder accepts.
 */
module BytePlanePayloads {
  import opened Bytes
  import opened Predictors
  import opened BytePlanes
  import opened BytePlaneCodec
  import BlockCoding

  // ---------------------------------------------------------------------------------------------
  // When there is a payload, how long it is and what it holds
  // ---------------------------------------------------------------------------------------------

  /** A byte, or its difference from the byte at the same place of the element before. */
  function PreparedByte(d: seq<byte>, w: nat, delta: bool, at: nat): byte
    requires at < |d|
  {
    if delta && at >= w then (d[at] as int - d[at - w] as int) % 256 else d[at]
  }

  /** Plane `j` as it is stored or coded. */
  ghost predicate IsPrepared(d: seq<byte>, w: nat, delta: bool, j: nat, plane: seq<byte>)
    requires 0 < w && j < w
  {
    && |plane| == |d| / w
    && forall k :: 0 <= k < |plane| ==> k * w + j < |d| && plane[k] == PreparedByte(d, w, delta, k * w + j)
  }

  lemma PlaneIsPrepared(d: seq<byte>, w: nat, delta: bool, j: nat)
    requires (w == 2 || w == 4) && j < w
    ensures |d| / w * w <= |d| && IsPrepared(d, w, delta, j, Prepared(Plane(d, |d| / w, w, j), delta))
  {
    WholeElements(|d|, w);
    var plane := Prepared(Plane(d, |d| / w, w, j), delta);
    forall k | 0 <= k < |plane|
      ensures k * w + j < |d| && plane[k] == PreparedByte(d, w, delta, k * w + j)
    {
      PreparedAt(d, |d| / w, w, delta, j, k);
    }
  }

  lemma PreparedAt(d: seq<byte>, n: nat, w: nat, delta: bool, j: nat, k: nat)
    requires j < w && n * w <= |d| && k < n
    ensures k * w + j < |d| && Prepared(Plane(d, n, w, j), delta)[k] == PreparedByte(d, w, delta, k * w + j)
  {
    hide Plane, Prepared;
    PlaneAt(d, n, w, j, k);
    PreparedIs(Plane(d, n, w, j), delta, k);
    ElementBefore(w, j, k);
    if k > 0 {
      PlaneAt(d, n, w, j, k - 1);
    }
  }

  lemma PreparedIs(plane: seq<byte>, delta: bool, k: nat)
    requires k < |plane|
    ensures Prepared(plane, delta)[k]
            == if delta && k > 0 then (plane[k] as int - plane[k - 1] as int) % 256 else plane[k]
  {
    if k > 0 {
      DeltasAt(plane, k);
    }
  }

  lemma ElementBefore(w: nat, j: nat, k: nat)
    requires j < w
    ensures if k == 0 then k * w + j < w else w <= k * w + j && (k - 1) * w + j == k * w + j - w
  {
    Distribute(k - 1, 1, w);
  }

  /** The size of a stored plane: that of its range-coded form where this was asked for, succeeds and is shorter. */
  ghost function StoredSize<S(!new)>(p: Predictor<S>, plane: seq<byte>, compress: bool): nat
    requires Lawful(p)
  {
    match BlockCoding.EncodeBlock(p, p.initial, plane, true).0
    case Ok(coded) => if compress && |coded| < |plane| then |coded| else |plane|
    case Err(_) => |plane|
  }

  /** The plane is stored range-coded exactly when that makes it shorter. */
  lemma StoredIs<S(!new)>(p: Predictor<S>, plane: seq<byte>, compress: bool)
    requires Lawful(p)
    ensures var s := Stored(p, plane, compress);
            && |s| == StoredSize(p, plane, compress)
            && if |s| < |plane| then BlockCoding.EncodeBlock(p, p.initial, plane, true).0 == Ok(s) else s == plane
  {
  }

  /** How much plane `j` takes when stored. */
  ghost predicate IsSize<S(!new)>(p: Predictor<S>, d: seq<byte>, w: nat, delta: bool, compress: bool, j: nat, size: nat)
    requires Lawful(p) && j < w
  {
    exists plane :: IsPrepared(d, w, delta, j, plane) && size == StoredSize(p, plane, compress)
  }

  /** The sizes of the stored planes of a block. */
  ghost predicate AreSizes<S(!new)>(p: Predictor<S>, d: seq<byte>, w: nat, delta: seq<bool>, compress: seq<bool>,
                                    sizes: seq<nat>)
    requires Lawful(p) && |delta| == |compress| == w > 0
  {
    && |sizes| == w
    && forall j :: 0 <= j < w ==> IsSize(p, d, w, delta[j], compress[j], j, sizes[j])
  }

  ghost function StoredOf<S(!new)>(p: Predictor<S>, d: seq<byte>, w: nat, delta: seq<bool>, compress: seq<bool>):
      (s: seq<seq<byte>>)
    requires Lawful(p) && |delta| == |compress| == w && (w == 2 || w == 4)
    ensures |s| == w && forall i :: 0 <= i < w ==> |s[i]| <= |d|
  {
    WholeElements(|d|, w);
    StoredAll(p, PreparedAll(Split(d, |d| / w, w), delta), compress)
  }

  lemma SizesAre<S(!new)>(p: Predictor<S>, d: seq<byte>, w: nat, delta: seq<bool>, compress: seq<bool>)
    requires Lawful(p) && |delta| == |compress| == w && (w == 2 || w == 4)
    ensures AreSizes(p, d, w, delta, compress, Lengths(StoredOf(p, d, w, delta, compress)))
  {
    hide Stored, Prepared, IsPrepared, StoredSize, StoredOf;
    WholeElements(|d|, w);
    var sizes := Lengths(StoredOf(p, d, w, delta, compress));
    forall j | 0 <= j < w
      ensures IsSize(p, d, w, delta[j], compress[j], j, sizes[j])
    {
      var plane := Prepared(Plane(d, |d| / w, w, j), delta[j]);
      StoredOfAt(p, d, w, delta, compress, j);
      PlaneIsPrepared(d, w, delta[j], j);
      StoredIs(p, plane, compress[j]);
      assert sizes[j] == StoredSize(p, plane, compress[j]);
    }
  }

  lemma StoredOfAt<S(!new)>(p: Predictor<S>, d: seq<byte>, w: nat, delta: seq<bool>, compress: seq<bool>, j: nat)
    requires Lawful(p) && |delta| == |compress| == w && (w == 2 || w == 4) && j < w
    ensures |d| / w * w <= |d|
    ensures StoredOf(p, d, w, delta, compress)[j]
            == Stored(p, Prepared(Plane(d, |d| / w, w, j), delta[j]), compress[j])
  {
    hide Stored, Prepared, Plane;
    WholeElements(|d|, w);
  }

  /** A block has one list of sizes. */
  lemma SizesUnique<S(!new)>(p: Predictor<S>, d: seq<byte>, w: nat, delta: seq<bool>, compress: seq<bool>, a: seq<nat>,
                             b: seq<nat>)
    requires Lawful(p) && |delta| == |compress| == w > 0
    requires AreSizes(p, d, w, delta, compress, a) && AreSizes(p, d, w, delta, compress, b)
    ensures a == b
  {
    hide StoredSize, IsPrepared;
    forall j | 0 <= j < w
      ensures a[j] == b[j]
    {
      var x :| IsPrepared(d, w, delta[j], j, x) && a[j] == StoredSize(p, x, compress[j]);
      var y :| IsPrepared(d, w, delta[j], j, y) && b[j] == StoredSize(p, y, compress[j]);
      PreparedUnique(d, w, delta[j], j, x, y);
    }
  }

  lemma PreparedUnique(d: seq<byte>, w: nat, delta: bool, j: nat, x: seq<byte>, y: seq<byte>)
    requires 0 < w && j < w && IsPrepared(d, w, delta, j, x) && IsPrepared(d, w, delta, j, y)
    ensures x == y
  {
    hide PreparedByte;
  }

  /**
   There is a payload exactly when the block is within the size limits, some plane is to be compressed and
   header, stored planes and tail together are shorter than the block.
   */
  lemma EncodedExactly<S(!new)>(p: Predictor<S>, d: seq<byte>, width: Width, delta: seq<bool>, compress: seq<bool>,
                                sizes: seq<nat>)
    requires Lawful(p) && |delta| == |compress| == Planes(width)
    requires AreSizes(p, d, Planes(width), delta, compress, sizes)
    ensures var w := Planes(width);
            var e := Encoded(p, d, width, delta, compress);
            var length := 2 + 4 * w + Total(sizes) + |d| % w;
            && (e.Some? <==> 64 <= |d| <= 64 * 1024 * 1024 && true in compress && length < |d|)
            && (e.Some? ==> |e.value| == length)
  {
    hide AreSizes, Total, Stored, Split, Payload;
    var w := Planes(width);
    SizesAre(p, d, w, delta, compress);
    SizesUnique(p, d, w, delta, compress, sizes, Lengths(StoredOf(p, d, w, delta, compress)));
    if 64 <= |d| <= 64 * 1024 * 1024 && true in compress {
      EncodedUnfold(p, d, width, delta, compress);
      AssembledLength(p, d, w, delta, compress);
    }
  }

  ghost function AssembledOf<S(!new)>(p: Predictor<S>, d: seq<byte>, w: nat, delta: seq<bool>, compress: seq<bool>):
      (s: seq<byte>)
    requires Lawful(p) && |delta| == |compress| == w && (w == 2 || w == 4) && |d| <= MAX_DECOMPRESSED_BLOCK_SIZE
  {
    WholeElements(|d|, w);
    Assembled(p, Split(d, |d| / w, w), |d| / w, delta, compress, d[|d| / w * w..])
  }

  lemma EncodedUnfold<S(!new)>(p: Predictor<S>, d: seq<byte>, width: Width, delta: seq<bool>, compress: seq<bool>)
    requires Lawful(p) && |delta| == |compress| == Planes(width) && 64 <= |d| <= MAX_DECOMPRESSED_BLOCK_SIZE
    requires true in compress
    ensures var s := AssembledOf(p, d, Planes(width), delta, compress);
            Encoded(p, d, width, delta, compress) == if |s| < |d| then Some(s) else None
  {
    hide Assembled, Split;
  }

  lemma AssembledLength<S(!new)>(p: Predictor<S>, d: seq<byte>, w: nat, delta: seq<bool>, compress: seq<bool>)
    requires Lawful(p) && |delta| == |compress| == w && (w == 2 || w == 4) && |d| <= MAX_DECOMPRESSED_BLOCK_SIZE
    ensures |AssembledOf(p, d, w, delta, compress)|
            == 2 + 4 * w + Total(Lengths(StoredOf(p, d, w, delta, compress))) + |d| % w
  {
    hide Stored, Split, Prepared, Total, Lengths;
    WholeElements(|d|, w);
  }

  /** Range-coded when shorter than the plane, else the plane. */
  ghost predicate IsStored<S(!new)>(p: Predictor<S>, plane: seq<byte>, s: seq<byte>)
    requires Lawful(p)
  {
    if |s| < |plane| then BlockCoding.EncodeBlock(p, p.initial, plane, true).0 == Ok(s) else s == plane
  }

  /** The flag byte says of plane `i` whether it is range-coded and whether it holds differences. */
  ghost predicate FlagsSay(flags: byte, i: nat, coded: bool, delta: bool)
    requires i < 4
  {
    var weight := [1, 2, 4, 8][i];
    (flags as int / weight % 2 == 1 <==> coded) && (flags as int / 16 / weight % 2 == 1 <==> delta)
  }

  /** The `i`-th size field, and at the place the sizes before it say, the `i`-th stored plane. */
  ghost predicate PartAt(e: seq<byte>, sizes: seq<nat>, i: nat, s: seq<byte>)
    requires i < |sizes|
  {
    var at := 2 + 4 * |sizes| + Total(sizes[..i]);
    at + sizes[i] <= |e| && FromLe32(e[2 + 4 * i..6 + 4 * i]) == sizes[i] && e[at..at + sizes[i]] == s
  }

  lemma BitIs(v: byte, i: nat)
    requires i < 4
    ensures Bit(v as nat % 16, i) <==> v as int / [1, 2, 4, 8][i] % 2 == 1
    ensures Bit(v as nat / 16, i) <==> v as int / 16 / [1, 2, 4, 8][i] % 2 == 1
  {
    BitOf(v as nat % 16, i);
    BitOf(v as nat / 16, i);
    LowNibble(v as nat);
  }

  lemma LowNibble(v: nat)
    ensures v % 16 % 2 == v % 2 && v % 16 / 2 % 2 == v / 2 % 2
    ensures v % 16 / 4 % 2 == v / 4 % 2 && v % 16 / 8 % 2 == v / 8 % 2
  {
    var h, l := v / 16, v % 16;
    Halved(8 * h, l);
    Quartered(4 * h, l);
    Eighthed(2 * h, l);
    EvenPart(8 * h, l);
    EvenPart(4 * h, l / 2);
    EvenPart(2 * h, l / 4);
    EvenPart(h, l / 8);
  }

  lemma Halved(q: nat, l: nat)
    ensures (2 * q + l) / 2 == q + l / 2
  {
  }

  lemma Quartered(q: nat, l: nat)
    ensures (4 * q + l) / 4 == q + l / 4
  {
  }

  lemma Eighthed(q: nat, l: nat)
    ensures (8 * q + l) / 8 == q + l / 8
  {
  }

  lemma EvenPart(k: nat, x: nat)
    ensures (2 * k + x) % 2 == x % 2
  {
  }

  lemma BitOf(x: nat, i: nat)
    requires i < 4
    ensures Bit(x, i) <==> x / [1, 2, 4, 8][i] % 2 == 1
  {
    Halves(x);
    if i == 1 {
      assert Bit(x, 1) == Bit(x / 2, 0);
    } else if i == 2 {
      assert Bit(x, 2) == Bit(x / 2, 1) == Bit(x / 2 / 2, 0);
    } else if i == 3 {
      assert Bit(x, 3) == Bit(x / 2, 2) == Bit(x / 2 / 2, 1) == Bit(x / 2 / 2 / 2, 0);
    }
  }

  lemma Halves(x: nat)
    ensures x / 2 / 2 == x / 4 && x / 2 / 2 / 2 == x / 8
  {
  }

  lemma PayloadBits(w: nat, shrunk: seq<bool>, delta: seq<bool>, stored: seq<seq<byte>>, tail: seq<byte>, i: nat)
    requires w == |shrunk| == |delta| == |stored| <= 4 && i < w
    requires forall k :: 0 <= k < w ==> |stored[k]| < TWO32
    ensures FlagsSay(Payload(w, shrunk, delta, stored, tail)[1], i, shrunk[i], delta[i])
  {
    hide Payload, PackedValue, Bit;
    var b := Payload(w, shrunk, delta, stored, tail)[1];
    PayloadTail(w, shrunk, delta, stored, tail);
    PackedBit(shrunk, i);
    PackedBit(delta, i);
    BitIs(b, i);
    assert b as nat % 16 == Packed(shrunk) && b as nat / 16 == Packed(delta);
  }

  lemma PayloadPart(w: nat, shrunk: seq<bool>, delta: seq<bool>, stored: seq<seq<byte>>, tail: seq<byte>, i: nat)
    requires w == |shrunk| == |delta| == |stored| <= 4 && i < w
    requires forall k :: 0 <= k < w ==> |stored[k]| < TWO32
    ensures PartAt(Payload(w, shrunk, delta, stored, tail), Lengths(stored), i, stored[i])
  {
    var e := Payload(w, shrunk, delta, stored, tail);
    hide Payload, Total;
    TotalPrefix(Lengths(stored), i);
    PayloadSizes(w, shrunk, delta, stored, tail);
    PayloadView(w, shrunk, delta, stored, tail, i);
    assert SizesOf(e, w)[i] == |stored[i]|;
  }

  lemma AssembledHolds<S(!new)>(p: Predictor<S>, planes: seq<seq<byte>>, n: nat, delta: seq<bool>, compress: seq<bool>,
                                tail: seq<byte>, i: nat)
    requires Lawful(p) && |planes| == |delta| == |compress| <= 4 && i < |planes|
    requires IsPlanes(planes, n) && n <= MAX_DECOMPRESSED_BLOCK_SIZE
    ensures var stored := StoredAll(p, PreparedAll(planes, delta), compress);
            var e := Assembled(p, planes, n, delta, compress, tail);
            && |e| >= 2 + |tail| && e[0] == |planes| && e[|e| - |tail|..] == tail
            && FlagsSay(e[1], i, |stored[i]| < n, delta[i])
            && PartAt(e, Lengths(stored), i, stored[i])
            && IsStored(p, Prepared(planes[i], delta[i]), stored[i])
  {
    var ready := PreparedAll(planes, delta);
    var stored := StoredAll(p, ready, compress);
    var shrunk := Shrunk(stored, ready, compress);
    StoredIs(p, ready[i], compress[i]);
    assert shrunk[i] == (|stored[i]| < |ready[i]|);
    hide Stored, Prepared, Payload, FlagsSay, PartAt, Total;
    PayloadPart(|planes|, shrunk, delta, stored, tail, i);
    PayloadBits(|planes|, shrunk, delta, stored, tail, i);
    PayloadTail(|planes|, shrunk, delta, stored, tail);
  }

  /** The layout of a payload: element width, flags, sizes, planes, tail. */
  lemma EncodedHolds<S(!new)>(p: Predictor<S>, d: seq<byte>, width: Width, delta: seq<bool>, compress: seq<bool>,
                              sizes: seq<nat>, i: nat)
    returns (plane: seq<byte>, s: seq<byte>)
    requires Lawful(p) && |delta| == |compress| == Planes(width) && i < Planes(width)
    requires AreSizes(p, d, Planes(width), delta, compress, sizes)
    requires Encoded(p, d, width, delta, compress).Some?
    ensures IsPrepared(d, Planes(width), delta[i], i, plane) && IsStored(p, plane, s)
    ensures var e, t := Encoded(p, d, width, delta, compress).value, |d| % Planes(width);
            && |e| >= 2 + t && e[0] == Planes(width) && e[|e| - t..] == d[|d| - t..]
            && FlagsSay(e[1], i, |s| < |plane|, delta[i])
            && PartAt(e, sizes, i, s)
  {
    hide AreSizes, FlagsSay, PartAt, IsStored, IsPrepared, Stored, Prepared, Plane, Assembled, Total;
    var w := Planes(width);
    EncodedExactly(p, d, width, delta, compress, sizes);
    EncodedUnfold(p, d, width, delta, compress);
    SizesAre(p, d, w, delta, compress);
    SizesUnique(p, d, w, delta, compress, sizes, Lengths(StoredOf(p, d, w, delta, compress)));
    WholeElements(|d|, w);
    PlaneIsPrepared(d, w, delta[i], i);
    var planes := Split(d, |d| / w, w);
    plane := Prepared(planes[i], delta[i]);
    s := StoredOf(p, d, w, delta, compress)[i];
    AssembledHolds(p, planes, |d| / w, delta, compress, d[|d| / w * w..], i);
  }

  // ---------------------------------------------------------------------------------------------
  // Which payloads are accepted
  // ---------------------------------------------------------------------------------------------

  /** `raw` is a stored plane of `n` bytes, range-coded or not. */
  ghost predicate IsRaw<S(!new)>(p: Predictor<S>, s: seq<byte>, n: nat, coded: bool, raw: seq<byte>)
    requires Lawful(p)
  {
    |raw| == n && if coded then BlockCoding.DecodeBlock(p, p.initial, s, n, true).0 == Ok(raw) else s == raw
  }

  /** Differences are added up, modulo 256. */
  ghost predicate Undoes(raw: seq<byte>, delta: bool, plane: seq<byte>) {
    |plane| == |raw|
    && forall k :: 0 <= k < |raw| ==> plane[k] == if delta then SumOf(raw[..k + 1]) % 256 else raw[k]
  }

  /** Plane `i` of the payload `e` is `plane`. */
  ghost predicate ReadsPlane<S(!new)>(p: Predictor<S>, e: seq<byte>, sizes: seq<nat>, n: nat, i: nat, plane: seq<byte>)
    requires Lawful(p) && i < |sizes| <= 4 && 2 + 4 * |sizes| + Total(sizes) <= |e|
  {
    exists raw, coded, delta ::
      && FlagsSay(e[1], i, coded, delta)
      && IsRaw(p, View(e, sizes, i), n, coded, raw)
      && Undoes(raw, delta, plane)
  }

  lemma UndoesUnique(raw: seq<byte>, delta: bool, plane: seq<byte>)
    ensures Undoes(raw, delta, plane) <==> plane == if delta then Sums(raw) else raw
  {
    forall k | 0 <= k < |raw|
      ensures Sums(raw)[k] == SumOf(raw[..k + 1]) % 256
    {
      SumsAt(raw, k);
    }
  }

  lemma PlaneReads<S(!new)>(p: Predictor<S>, e: seq<byte>, sizes: seq<nat>, n: nat, i: nat, plane: seq<byte>)
    requires Lawful(p) && i < |sizes| <= 4 && 2 + 4 * |sizes| + Total(sizes) <= |e|
    ensures PlaneOf(p, e, sizes, n, i) == Ok(plane) <==> ReadsPlane(p, e, sizes, n, i, plane)
  {
    var coded, delta := Bit(e[1] as nat % 16, i), Bit(e[1] as nat / 16, i);
    BitIs(e[1], i);
    var s := View(e, sizes, i);
    hide Bit, View, Sums, Undoes, FlagsSay;
    FlagsAre(e[1], i, coded, delta);
    if PlaneOf(p, e, sizes, n, i) == Ok(plane) {
      var raw := if coded then BlockCoding.DecodeBlock(p, p.initial, s, n, true).0.value else s;
      UndoesUnique(raw, delta, plane);
      assert IsRaw(p, s, n, coded, raw);
    }
    if ReadsPlane(p, e, sizes, n, i, plane) {
      var raw, c, d :| FlagsSay(e[1], i, c, d) && IsRaw(p, View(e, sizes, i), n, c, raw) && Undoes(raw, d, plane);
      FlagsAre(e[1], i, c, d);
      UndoesUnique(raw, delta, plane);
    }
  }

  lemma FlagsAre(flags: byte, i: nat, coded: bool, delta: bool)
    requires i < 4
    ensures FlagsSay(flags, i, coded, delta)
            <==> coded == Bit(flags as nat % 16, i) && delta == Bit(flags as nat / 16, i)
  {
    BitIs(flags, i);
  }

  /** The planes of `n` bytes interleaved, and `t` bytes of tail, are `out`. */
  ghost predicate IsMerge<S(!new)>(p: Predictor<S>, e: seq<byte>, sizes: seq<nat>, n: nat, t: nat, out: seq<byte>,
                                   planes: seq<seq<byte>>)
    requires Lawful(p) && |sizes| <= 4 && 2 + 4 * |sizes| + Total(sizes) + t <= |e|
  {
    var body := 2 + 4 * |sizes| + Total(sizes);
    && |planes| == |sizes| && IsPlanes(planes, n)
    && (forall i :: 0 <= i < |sizes| ==> ReadsPlane(p, e, sizes, n, i, planes[i]))
    && out == Rows(planes, n) + e[body..body + t]
  }

  /** Width 2 or 4, complete header, no size above 64 MiB, all stored planes and the tail there, every plane good. */
  ghost predicate IsPayload<S(!new)>(p: Predictor<S>, e: seq<byte>, out: seq<byte>, planes: seq<seq<byte>>)
    requires Lawful(p)
  {
    && |e| >= 2 && (e[0] == 2 || e[0] == 4)
    && var w: nat := e[0];
    && |e| >= 2 + 4 * w
    && var sizes := SizesOf(e, w);
    && (forall i :: 0 <= i < w ==> sizes[i] <= 64 * 1024 * 1024)
    && 2 + 4 * w + Total(sizes) + |out| % w <= |e|
    && IsMerge(p, e, sizes, |out| / w, |out| % w, out, planes)
  }

  lemma MergeOf<S(!new)>(p: Predictor<S>, e: seq<byte>, sizes: seq<nat>, n: nat, t: nat)
    returns (planes: seq<seq<byte>>)
    requires Lawful(p) && |sizes| <= 4 && 2 + 4 * |sizes| + Total(sizes) + t <= |e|
    requires Merged(p, e, sizes, n, t).Ok?
    ensures IsMerge(p, e, sizes, n, t, Merged(p, e, sizes, n, t).value, planes)
  {
    hide Total, Rows, ReadsPlane, PlaneOf;
    planes := PlanesOf(p, e, sizes, n);
    forall i | 0 <= i < |sizes|
      ensures ReadsPlane(p, e, sizes, n, i, planes[i])
    {
      PlaneReads(p, e, sizes, n, i, planes[i]);
    }
  }

  lemma MergeDecodes<S(!new)>(p: Predictor<S>, e: seq<byte>, sizes: seq<nat>, n: nat, t: nat, out: seq<byte>,
                              planes: seq<seq<byte>>)
    requires Lawful(p) && |sizes| <= 4 && 2 + 4 * |sizes| + Total(sizes) + t <= |e|
    requires IsMerge(p, e, sizes, n, t, out, planes)
    ensures Merged(p, e, sizes, n, t) == Ok(out)
  {
    hide Total, Rows, ReadsPlane, PlaneOf;
    forall i | 0 <= i < |sizes|
      ensures PlaneOf(p, e, sizes, n, i) == Ok(planes[i])
    {
      assert ReadsPlane(p, e, sizes, n, i, planes[i]);
      PlaneReads(p, e, sizes, n, i, planes[i]);
    }
    assert planes == PlanesOf(p, e, sizes, n);
  }

  lemma PayloadOf<S(!new)>(p: Predictor<S>, e: seq<byte>, out: seq<byte>) returns (planes: seq<seq<byte>>)
    requires Lawful(p) && Decoded(p, e, |out|) == Ok(out)
    ensures IsPayload(p, e, out, planes)
  {
    hide SizesOf, Total, Merged, IsMerge;
    var w: nat := e[0];
    planes := MergeOf(p, e, SizesOf(e, w), |out| / w, |out| % w);
  }

  lemma PayloadDecodes<S(!new)>(p: Predictor<S>, e: seq<byte>, out: seq<byte>, planes: seq<seq<byte>>)
    requires Lawful(p) && IsPayload(p, e, out, planes)
    ensures Decoded(p, e, |out|) == Ok(out)
  {
    hide SizesOf, Total, Merged, IsMerge;
    var w: nat := e[0];
    MergeDecodes(p, e, SizesOf(e, w), |out| / w, |out| % w, out, planes);
  }

  /** A payload is accepted for exactly the block its planes and its tail make up. */
  lemma AcceptedExactly<S(!new)>(p: Predictor<S>, e: seq<byte>, out: seq<byte>)
    requires Lawful(p)
    ensures Decoded(p, e, |out|) == Ok(out) <==> exists planes :: IsPayload(p, e, out, planes)
  {
    hide Decoded, IsPayload;
    if Decoded(p, e, |out|) == Ok(out) {
      var planes := PayloadOf(p, e, out);
    }
    forall planes | IsPayload(p, e, out, planes)
      ensures Decoded(p, e, |out|) == Ok(out)
    {
      PayloadDecodes(p, e, out, planes);
    }
  }

  /** The one refusal that is not a broken payload: a complete header with a size above 64 MiB. */
  lemma ResourceLimitExactly<S(!new)>(p: Predictor<S>, e: seq<byte>, size: nat)
    requires Lawful(p)
    ensures Decoded(p, e, size) == Err(ResourceLimit)
            <==> && |e| >= 2 && (e[0] == 2 || e[0] == 4) && |e| >= 2 + 4 * e[0] as int
                 && exists i :: 0 <= i < e[0] as int && SizesOf(e, e[0])[i] > 64 * 1024 * 1024
  {
    hide Merged, SizesOf, Total;
  }
}
