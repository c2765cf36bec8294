/**
 The byte-plane block format (`coding/byteplane_preprocess.rs`): split, optional delta and optional
 range coding plane by plane, behind a small header. Which planes get which treatment is decided by
 entropy estimates; here those decisions are arbitrary, and no choice of them can lose data.
 */
module BytePlaneCodec {
  import opened Bytes
  import opened Predictors
  import opened BytePlanes
  import BlockCoding
  import Order0Model
  import Order0Blocks

  const MIN_BYTEPLANE_SIZE: nat := 64

  // ---------------------------------------------------------------------------------------------
  // Flags and concatenation
  // ---------------------------------------------------------------------------------------------

  /** Flag bits, lowest first. */
  function Packed(bits: seq<bool>): (v: nat)
    requires |bits| <= 4
    ensures v < 16
  {
    PackedBelow(bits);
    PackedValue(bits)
  }

  function PackedValue(bits: seq<bool>): nat {
    if bits == [] then 0 else (if bits[0] then 1 else 0) + 2 * PackedValue(bits[1..])
  }

  function Limit(k: nat): (p: nat) {
    if k == 0 then 1 else 2 * Limit(k - 1)
  }

  lemma {:induction false} PackedBelow(bits: seq<bool>)
    ensures PackedValue(bits) < Limit(|bits|)
    ensures |bits| <= 4 ==> Limit(|bits|) <= 16
    decreases |bits|
  {
    if bits != [] {
      PackedBelow(bits[1..]);
    }
    if |bits| <= 4 {
      assert Limit(0) == 1 && Limit(1) == 2 && Limit(2) == 4 && Limit(3) == 8 && Limit(4) == 16;
    }
  }

  /** `(v >> i) & 1 == 1`. */
  predicate Bit(v: nat, i: nat) {
    if i == 0 then v % 2 == 1 else Bit(v / 2, i - 1)
  }

  lemma {:induction false} PackedBit(bits: seq<bool>, i: nat)
    requires i < |bits|
    ensures Bit(PackedValue(bits), i) == bits[i]
    decreases i
  {
    if i > 0 {
      PackedBit(bits[1..], i - 1);
    }
  }

  function Total(sizes: seq<nat>): nat {
    if sizes == [] then 0 else Total(sizes[..|sizes| - 1]) + sizes[|sizes| - 1]
  }

  lemma {:induction false} TotalPrefix(sizes: seq<nat>, i: nat)
    requires i < |sizes|
    ensures Total(sizes[..i]) + sizes[i] <= Total(sizes)
    decreases |sizes|
  {
    if i == |sizes| - 1 {
    } else {
      var front := sizes[..|sizes| - 1];
      TotalPrefix(front, i);
      assert front[..i] == sizes[..i];
    }
  }

  function Lengths(parts: seq<seq<byte>>): (sizes: seq<nat>)
    ensures |sizes| == |parts|
  {
    seq(|parts|, i requires 0 <= i < |parts| => |parts[i]|)
  }

  function Concat(parts: seq<seq<byte>>): (s: seq<byte>) {
    if parts == [] then [] else Concat(parts[..|parts| - 1]) + parts[|parts| - 1]
  }

  lemma {:induction false} ConcatLength(parts: seq<seq<byte>>)
    ensures |Concat(parts)| == Total(Lengths(parts))
    decreases |parts|
  {
    if parts != [] {
      var front := parts[..|parts| - 1];
      ConcatLength(front);
      assert Lengths(parts)[..|parts| - 1] == Lengths(front);
    }
  }

  /** Part `i` of a concatenation lies where the sizes before it say. */
  lemma {:induction false} ConcatPart(parts: seq<seq<byte>>, i: nat)
    requires i < |parts|
    ensures var at := Total(Lengths(parts)[..i]);
            && at + |parts[i]| <= |Concat(parts)|
            && Concat(parts)[at..at + |parts[i]|] == parts[i]
    decreases |parts|
  {
    var front := parts[..|parts| - 1];
    ConcatLength(front);
    assert Lengths(parts)[..|parts| - 1] == Lengths(front);
    if i == |parts| - 1 {
    } else {
      ConcatPart(front, i);
      assert Lengths(parts)[..i] == Lengths(front)[..i];
    }
  }

  lemma TotalPush(sizes: seq<nat>, size: nat)
    ensures Total(sizes + [size]) == Total(sizes) + size
  {
    assert (sizes + [size])[..|sizes|] == sizes;
  }

  /** The header's size fields. */
  function Fields(sizes: seq<nat>): (s: seq<byte>)
    requires forall k :: 0 <= k < |sizes| ==> sizes[k] < TWO32
    ensures |s| == 4 * |sizes|
  {
    if sizes == [] then [] else Fields(sizes[..|sizes| - 1]) + ToLe32(sizes[|sizes| - 1])
  }

  lemma {:induction false} FieldAt(sizes: seq<nat>, i: nat)
    requires forall k :: 0 <= k < |sizes| ==> sizes[k] < TWO32
    requires i < |sizes|
    ensures Fields(sizes)[4 * i..4 * i + 4] == ToLe32(sizes[i])
    decreases |sizes|
  {
    if i == |sizes| - 1 {
    } else {
      FieldAt(sizes[..|sizes| - 1], i);
    }
  }

  // ---------------------------------------------------------------------------------------------
  // One plane
  // ---------------------------------------------------------------------------------------------

  /** What is stored for a plane: its range-coded form if asked for and shorter, else the plane. */
  function Stored<S(!new)>(p: Predictor<S>, plane: seq<byte>, compress: bool): (s: seq<byte>)
    requires Lawful(p)
    ensures |s| <= |plane|
  {
    var r := BlockCoding.EncodeBlock(p, p.initial, plane, true).0;
    if compress && r.Ok? && |r.value| < |plane| then r.value else plane
  }

  /** The delta step of the encoder. */
  function Prepared(plane: seq<byte>, delta: bool): (s: seq<byte>)
    ensures |s| == |plane|
  {
    if delta then Deltas(plane) else plane
  }

  function DecodedPlane<S(!new)>(p: Predictor<S>, view: seq<byte>, n: nat, coded: bool,
                                 delta: bool): (r: Result<seq<byte>>)
    requires Lawful(p)
    ensures r.Ok? ==> |r.value| == n
    ensures r.Err? ==> r.error == Decompression
  {
    var r := if coded then BlockCoding.DecodeBlock(p, p.initial, view, n, true).0
             else if |view| != n then Err(Decompression)
             else Ok(view);
    if r.Ok? && delta then Ok(Sums(r.value)) else r
  }

  /** A plane comes back whichever way it was treated, given the flags that record what happened. */
  lemma PlaneRoundTrip<S(!new)>(p: Predictor<S>, plane: seq<byte>, delta: bool, compress: bool)
    requires Lawful(p) && |plane| <= MAX_DECOMPRESSED_BLOCK_SIZE
    ensures var s := Stored(p, Prepared(plane, delta), compress);
            DecodedPlane(p, s, |plane|, compress && |s| < |plane|, delta) == Ok(plane)
  {
    var q := Prepared(plane, delta);
    var r := BlockCoding.EncodeBlock(p, p.initial, q, true).0;
    if r.Ok? {
      BlockCoding.RoundTrip(p, p.initial, q, true);
    }
    SumsDeltas(plane);
  }

  // ---------------------------------------------------------------------------------------------
  // The block format
  // ---------------------------------------------------------------------------------------------

  function PreparedAll(planes: seq<seq<byte>>, delta: seq<bool>): (s: seq<seq<byte>>)
    requires |planes| == |delta|
    ensures |s| == |planes|
  {
    seq(|planes|, i requires 0 <= i < |planes| => Prepared(planes[i], delta[i]))
  }

  function StoredAll<S(!new)>(p: Predictor<S>, planes: seq<seq<byte>>, compress: seq<bool>): (s: seq<seq<byte>>)
    requires Lawful(p) && |planes| == |compress|
    ensures |s| == |planes|
    ensures forall i :: 0 <= i < |s| ==> |s[i]| <= |planes[i]|
  {
    seq(|planes|, i requires 0 <= i < |planes| => Stored(p, planes[i], compress[i]))
  }

  /** Which planes really are range-coded. */
  function Shrunk(stored: seq<seq<byte>>, planes: seq<seq<byte>>, compress: seq<bool>): (bits: seq<bool>)
    requires |stored| == |planes| == |compress|
    ensures |bits| == |planes|
  {
    seq(|planes|, i requires 0 <= i < |planes| => compress[i] && |stored[i]| < |planes[i]|)
  }

  function Payload(w: nat, shrunk: seq<bool>, delta: seq<bool>, stored: seq<seq<byte>>, tail: seq<byte>): (s: seq<byte>)
    requires w == |shrunk| == |delta| == |stored| <= 4
    requires forall i :: 0 <= i < w ==> |stored[i]| < TWO32
    ensures |s| == 2 + 4 * w + Total(Lengths(stored)) + |tail|
  {
    ConcatLength(stored);
    [w, Packed(shrunk) + 16 * Packed(delta)] + Fields(Lengths(stored)) + Concat(stored) + tail
  }

  /** Prepare, store and frame the planes. */
  function Assembled<S(!new)>(p: Predictor<S>, planes: seq<seq<byte>>, n: nat, delta: seq<bool>, compress: seq<bool>,
                              tail: seq<byte>): (s: seq<byte>)
    requires Lawful(p) && |planes| == |delta| == |compress| <= 4
    requires IsPlanes(planes, n) && n <= MAX_DECOMPRESSED_BLOCK_SIZE
  {
    var ready := PreparedAll(planes, delta);
    var stored := StoredAll(p, ready, compress);
    Payload(|planes|, Shrunk(stored, ready, compress), delta, stored, tail)
  }

  lemma WholeElements(size: nat, w: nat)
    requires w == 2 || w == 4
    ensures size / w * w + size % w == size && size / w <= size
  {
  }

  /** `byteplane_encode` under given per-plane decisions. */
  function Encoded<S(!new)>(p: Predictor<S>, d: seq<byte>, width: Width, delta: seq<bool>,
                            compress: seq<bool>): (r: Option<seq<byte>>)
    requires Lawful(p) && |delta| == |compress| == Planes(width)
    ensures r.Some? ==> |r.value| < |d| <= MAX_DECOMPRESSED_BLOCK_SIZE
  {
    if |d| < MIN_BYTEPLANE_SIZE || |d| > MAX_DECOMPRESSED_BLOCK_SIZE || true !in compress then None else
    var w := Planes(width);
    var n := |d| / w;
    WholeElements(|d|, w);
    var payload := Assembled(p, Split(d, n, w), n, delta, compress, d[n * w..]);
    if |payload| >= |d| then None else Some(payload)
  }

  function SizesOf(payload: seq<byte>, w: nat): (sizes: seq<nat>)
    requires 2 + 4 * w <= |payload|
    ensures |sizes| == w
  {
    seq(w, i requires 0 <= i < w => FromLe32(payload[2 + 4 * i..2 + 4 * i + 4]))
  }

  /** The bytes of stored plane `i`. */
  function View(payload: seq<byte>, sizes: seq<nat>, i: nat): (s: seq<byte>)
    requires i < |sizes| && 2 + 4 * |sizes| + Total(sizes) <= |payload|
    ensures |s| == sizes[i]
  {
    TotalPrefix(sizes, i);
    var at := 2 + 4 * |sizes| + Total(sizes[..i]);
    payload[at..at + sizes[i]]
  }

  function PlaneOf<S(!new)>(p: Predictor<S>, payload: seq<byte>, sizes: seq<nat>, n: nat,
                            i: nat): (r: Result<seq<byte>>)
    requires Lawful(p) && i < |sizes| && 2 + 4 * |sizes| + Total(sizes) <= |payload|
    ensures r.Ok? ==> |r.value| == n
    ensures r.Err? ==> r.error == Decompression
  {
    DecodedPlane(p, View(payload, sizes, i), n, Bit(payload[1] as nat % 16, i), Bit(payload[1] as nat / 16, i))
  }

  function PlanesOf<S(!new)>(p: Predictor<S>, payload: seq<byte>, sizes: seq<nat>, n: nat): (planes: seq<seq<byte>>)
    requires Lawful(p) && 2 + 4 * |sizes| + Total(sizes) <= |payload|
    requires forall i :: 0 <= i < |sizes| ==> PlaneOf(p, payload, sizes, n, i).Ok?
    ensures |planes| == |sizes| && IsPlanes(planes, n)
    ensures forall i :: 0 <= i < |sizes| ==> planes[i] == PlaneOf(p, payload, sizes, n, i).value
  {
    seq(|sizes|, i requires 0 <= i < |sizes| => PlaneOf(p, payload, sizes, n, i).value)
  }

  /** All planes decoded and interleaved, `t` bytes of tail after them. */
  function Merged<S(!new)>(p: Predictor<S>, payload: seq<byte>, sizes: seq<nat>, n: nat, t: nat): (r: Result<seq<byte>>)
    requires Lawful(p) && 2 + 4 * |sizes| + Total(sizes) + t <= |payload|
    ensures r.Ok? ==> |r.value| == n * |sizes| + t
    ensures r.Err? ==> r.error == Decompression
  {
    if exists i :: 0 <= i < |sizes| && PlaneOf(p, payload, sizes, n, i).Err? then Err(Decompression) else
    var body := 2 + 4 * |sizes| + Total(sizes);
    Ok(Rows(PlanesOf(p, payload, sizes, n), n) + payload[body..body + t])
  }

  /** `byteplane_decode`; an answer, good or bad, for every payload. */
  function Decoded<S(!new)>(p: Predictor<S>, payload: seq<byte>, size: nat): (r: Result<seq<byte>>)
    requires Lawful(p)
    ensures r.Ok? ==> |r.value| == size
  {
    if |payload| < 2 || FromU8(payload[0]).None? then Err(Decompression) else
    var w := Planes(FromU8(payload[0]).value);
    if |payload| < 2 + 4 * w then Err(Decompression) else
    var sizes := SizesOf(payload, w);
    if exists i :: 0 <= i < w && sizes[i] > MAX_DECOMPRESSED_BLOCK_SIZE then Err(ResourceLimit) else
    var body := 2 + 4 * w + Total(sizes);
    if |payload| < body + size % w then Err(Decompression) else
    Merged(p, payload, sizes, size / w, size % w)
  }

  // ---------------------------------------------------------------------------------------------
  // Round trip
  // ---------------------------------------------------------------------------------------------

  lemma Slices(head: seq<byte>, fields: seq<byte>, body: seq<byte>, tail: seq<byte>, i: nat, j: nat)
    requires i <= j <= |fields|
    ensures (head + fields + body + tail)[|head| + i..|head| + j] == fields[i..j]
  {
  }

  lemma BodySlices(head: seq<byte>, fields: seq<byte>, body: seq<byte>, tail: seq<byte>, i: nat, j: nat)
    requires i <= j <= |body|
    ensures (head + fields + body + tail)[|head| + |fields| + i..|head| + |fields| + j] == body[i..j]
  {
  }

  lemma PayloadSizes(w: nat, shrunk: seq<bool>, delta: seq<bool>, stored: seq<seq<byte>>, tail: seq<byte>)
    requires w == |shrunk| == |delta| == |stored| <= 4
    requires forall i :: 0 <= i < w ==> |stored[i]| < TWO32
    ensures SizesOf(Payload(w, shrunk, delta, stored, tail), w) == Lengths(stored)
  {
    hide Total, Concat, Packed;
    var s := Payload(w, shrunk, delta, stored, tail);
    var sizes := Lengths(stored);
    forall i | 0 <= i < w
      ensures SizesOf(s, w)[i] == sizes[i]
    {
      FieldAt(sizes, i);
      Slices([w, Packed(shrunk) + 16 * Packed(delta)], Fields(sizes), Concat(stored), tail, 4 * i, 4 * i + 4);
      Le32RoundTrip(sizes[i]);
    }
  }

  lemma PayloadView(w: nat, shrunk: seq<bool>, delta: seq<bool>, stored: seq<seq<byte>>, tail: seq<byte>, i: nat)
    requires w == |shrunk| == |delta| == |stored| <= 4 && i < w
    requires forall i :: 0 <= i < w ==> |stored[i]| < TWO32
    ensures View(Payload(w, shrunk, delta, stored, tail), Lengths(stored), i) == stored[i]
  {
    var at := Total(Lengths(stored)[..i]);
    ConcatLength(stored);
    ConcatPart(stored, i);
    BodySlices([w, Packed(shrunk) + 16 * Packed(delta)], Fields(Lengths(stored)), Concat(stored), tail,
               at, at + |stored[i]|);
  }

  lemma PayloadTail(w: nat, shrunk: seq<bool>, delta: seq<bool>, stored: seq<seq<byte>>, tail: seq<byte>)
    requires w == |shrunk| == |delta| == |stored| <= 4
    requires forall i :: 0 <= i < w ==> |stored[i]| < TWO32
    ensures var s := Payload(w, shrunk, delta, stored, tail);
            s[0] == w && s[1] == Packed(shrunk) + 16 * Packed(delta) && s[|s| - |tail|..] == tail
  {
  }

  /** Every plane of an encoded block decodes to the plane that was split off. */
  lemma PlaneOfEncoded<S(!new)>(p: Predictor<S>, planes: seq<seq<byte>>, n: nat, delta: seq<bool>, compress: seq<bool>,
                                tail: seq<byte>, i: nat)
    requires Lawful(p) && |planes| == |delta| == |compress| <= 4 && i < |planes|
    requires IsPlanes(planes, n) && n <= MAX_DECOMPRESSED_BLOCK_SIZE
    ensures var sizes := Lengths(StoredAll(p, PreparedAll(planes, delta), compress));
            var s := Assembled(p, planes, n, delta, compress, tail);
            |s| >= 2 + 4 * |planes| + Total(sizes) && PlaneOf(p, s, sizes, n, i) == Ok(planes[i])
  {
    hide DecodedPlane, Stored, Prepared, View, Payload, PackedValue, Bit, Total, Lengths;
    var ready := PreparedAll(planes, delta);
    var stored := StoredAll(p, ready, compress);
    var shrunk := Shrunk(stored, ready, compress);
    PayloadView(|planes|, shrunk, delta, stored, tail, i);
    PayloadTail(|planes|, shrunk, delta, stored, tail);
    PackedBit(shrunk, i);
    PackedBit(delta, i);
    PlaneRoundTrip(p, planes[i], delta[i], compress[i]);
  }

  lemma MergedEncoded<S(!new)>(p: Predictor<S>, planes: seq<seq<byte>>, n: nat, delta: seq<bool>, compress: seq<bool>,
                               tail: seq<byte>)
    requires Lawful(p) && |planes| == |delta| == |compress| <= 4
    requires IsPlanes(planes, n) && n <= MAX_DECOMPRESSED_BLOCK_SIZE
    ensures var s := Assembled(p, planes, n, delta, compress, tail);
            var w := |planes|;
            && |s| >= 2 + 4 * w && s[0] == w
            && var sizes := SizesOf(s, w);
               && |s| == 2 + 4 * w + Total(sizes) + |tail|
               && (forall i :: 0 <= i < w ==> sizes[i] <= n)
               && Merged(p, s, sizes, n, |tail|) == Ok(Rows(planes, n) + tail)
  {
    hide Payload, PlaneOf, Stored, Prepared, Shrunk, SizesOf;
    var ready := PreparedAll(planes, delta);
    var stored := StoredAll(p, ready, compress);
    var shrunk := Shrunk(stored, ready, compress);
    var s := Assembled(p, planes, n, delta, compress, tail);
    var sizes := Lengths(stored);
    PayloadSizes(|planes|, shrunk, delta, stored, tail);
    PayloadTail(|planes|, shrunk, delta, stored, tail);
    forall i | 0 <= i < |planes|
      ensures PlaneOf(p, s, sizes, n, i) == Ok(planes[i])
    {
      PlaneOfEncoded(p, planes, n, delta, compress, tail, i);
    }
    MergedOk(p, s, sizes, n, tail, planes);
  }

  lemma MergedOk<S(!new)>(p: Predictor<S>, s: seq<byte>, sizes: seq<nat>, n: nat, tail: seq<byte>,
                          planes: seq<seq<byte>>)
    requires Lawful(p) && |s| == 2 + 4 * |sizes| + Total(sizes) + |tail| && |planes| == |sizes|
    requires forall i :: 0 <= i < |sizes| ==> PlaneOf(p, s, sizes, n, i) == Ok(planes[i])
    requires IsPlanes(planes, n) && s[|s| - |tail|..] == tail
    ensures Merged(p, s, sizes, n, |tail|) == Ok(Rows(planes, n) + tail)
  {
    hide PlaneOf, Rows, Total;
    var body := 2 + 4 * |sizes| + Total(sizes);
    assert s[body..body + |tail|] == tail;
    assert PlanesOf(p, s, sizes, n) == planes;
  }

  lemma AssembledDecodes<S(!new)>(p: Predictor<S>, d: seq<byte>, width: Width, n: nat, delta: seq<bool>,
                                  compress: seq<bool>)
    requires Lawful(p) && |delta| == |compress| == Planes(width)
    requires n == |d| / Planes(width) && n * Planes(width) <= |d| && n <= MAX_DECOMPRESSED_BLOCK_SIZE
    ensures Decoded(p, Assembled(p, Split(d, n, Planes(width)), n, delta, compress, d[n * Planes(width)..]), |d|)
            == Ok(d)
  {
    hide Assembled, Merged, Split, Rows, SizesOf, Total;
    var w := Planes(width);
    WholeElements(|d|, w);
    MergedEncoded(p, Split(d, n, w), n, delta, compress, d[n * w..]);
    MergeSplit(d, n, w, n);
    assert d == d[..n * w] + d[n * w..];
  }

  /** Whatever the per-plane decisions, a block that was encoded decodes to itself. */
  lemma RoundTrip<S(!new)>(p: Predictor<S>, d: seq<byte>, width: Width, delta: seq<bool>, compress: seq<bool>)
    requires Lawful(p) && |delta| == |compress| == Planes(width)
    ensures var e := Encoded(p, d, width, delta, compress);
            e.Some? ==> Decoded(p, e.value, |d|) == Ok(d)
  {
    if Encoded(p, d, width, delta, compress).Some? {
      hide Decoded, Assembled, Split;
      WholeElements(|d|, Planes(width));
      AssembledDecodes(p, d, width, |d| / Planes(width), delta, compress);
    }
  }

  // ---------------------------------------------------------------------------------------------
  // The codec itself, with the order-0 model
  // ---------------------------------------------------------------------------------------------

  lemma ShiftDigit(x: int, b: int, rest: int)
    ensures x * (b + 2 * rest) == x * b + 2 * x * rest
  {
  }

  lemma PackedStep(bits: seq<bool>, i: nat, v: nat)
    requires i < |bits| && v + Limit(i) * PackedValue(bits[i..]) == PackedValue(bits)
    ensures v + (if bits[i] then Limit(i) else 0) + Limit(i + 1) * PackedValue(bits[i + 1..]) == PackedValue(bits)
  {
    var rest := PackedValue(bits[i + 1..]);
    assert bits[i..][1..] == bits[i + 1..];
    ShiftDigit(Limit(i), if bits[i] then 1 else 0, rest);
  }

  /** Accumulates `1 << i` for every bit that is set. */
  method PackFlags(bits: seq<bool>) returns (v: nat)
    requires |bits| <= 4
    ensures v == Packed(bits)
  {
    v := 0;
    var weight: nat := 1;
    assert bits[0..] == bits;
    for i := 0 to |bits|
      invariant weight == Limit(i)
      invariant v + Limit(i) * PackedValue(bits[i..]) == PackedValue(bits)
    {
      PackedStep(bits, i, v);
      if bits[i] {
        v := v + weight;
      }
      weight := weight * 2;
    }
  }

  method StorePlane(plane: seq<byte>, compress: bool, ghost p: Predictor<Order0Model.Counts>) returns (s: seq<byte>)
    requires Order0Model.IsOrder0(p)
    ensures s == Stored(p, plane, compress)
  {
    if compress {
      var model := new Order0Model.Model();
      var r := Order0Blocks.EncodeBlock(plane, model, true, p);
      if r.Ok? && |r.value| < |plane| {
        return r.value;
      }
    }
    return plane;
  }

  method Prepare(planes: seq<seq<byte>>, delta: seq<bool>) returns (ready: seq<seq<byte>>)
    requires |planes| == |delta|
    ensures ready == PreparedAll(planes, delta)
  {
    ready := [];
    for i := 0 to |planes|
      invariant ready == PreparedAll(planes, delta)[..i]
    {
      var plane := planes[i];
      if delta[i] {
        plane := DeltaEncode(plane);
      }
      ready := ready + [plane];
    }
  }

  method Store(planes: seq<seq<byte>>, compress: seq<bool>, ghost p: Predictor<Order0Model.Counts>)
    returns (stored: seq<seq<byte>>)
    requires Order0Model.IsOrder0(p) && |planes| == |compress|
    ensures stored == StoredAll(p, planes, compress)
  {
    hide Stored;
    stored := [];
    for i := 0 to |planes|
      invariant stored == StoredAll(p, planes, compress)[..i]
    {
      var s := StorePlane(planes[i], compress[i], p);
      stored := stored + [s];
    }
  }

  method FindShrunk(stored: seq<seq<byte>>, planes: seq<seq<byte>>, compress: seq<bool>) returns (shrunk: seq<bool>)
    requires |stored| == |planes| == |compress|
    ensures shrunk == Shrunk(stored, planes, compress)
  {
    shrunk := [];
    for i := 0 to |planes|
      invariant shrunk == Shrunk(stored, planes, compress)[..i]
    {
      shrunk := shrunk + [|stored[i]| < |planes[i]| && compress[i]];
    }
  }

  method Frame(shrunk: seq<bool>, delta: seq<bool>, stored: seq<seq<byte>>, tail: seq<byte>)
    returns (payload: seq<byte>)
    requires |shrunk| == |delta| == |stored| <= 4
    requires forall i :: 0 <= i < |stored| ==> |stored[i]| < TWO32
    ensures payload == Payload(|stored|, shrunk, delta, stored, tail)
  {
    var rc := PackFlags(shrunk);
    var de := PackFlags(delta);
    var w := |stored|;
    ghost var sizes := Lengths(stored);
    var head: seq<byte> := [w, rc + 16 * de];
    var fields: seq<byte> := [];
    for i := 0 to w
      invariant fields == Fields(sizes[..i])
    {
      assert sizes[..i + 1][..i] == sizes[..i];
      fields := fields + ToLe32(|stored[i]|);
    }
    var body: seq<byte> := [];
    for i := 0 to w
      invariant body == Concat(stored[..i])
    {
      assert stored[..i + 1][..i] == stored[..i];
      body := body + stored[i];
    }
    assert sizes[..w] == sizes && stored[..w] == stored;
    return head + fields + body + tail;
  }

  /** `byteplane_encode`: `delta` and `compress` stand for the entropy estimates' verdicts. */
  method Encode(data: seq<byte>, width: Width, delta: seq<bool>, compress: seq<bool>,
                ghost p: Predictor<Order0Model.Counts>)
    returns (r: Option<seq<byte>>)
    requires Order0Model.IsOrder0(p) && |delta| == |compress| == Planes(width)
    ensures r == Encoded(p, data, width, delta, compress)
    ensures r.Some? ==> Decoded(p, r.value, |data|) == Ok(data)
  {
    hide Payload, Stored, Split, Decoded;
    if |data| < MIN_BYTEPLANE_SIZE || |data| > MAX_DECOMPRESSED_BLOCK_SIZE {
      return None;
    }
    var planes, tail := SplitBytes(data, width);
    var ready := Prepare(planes, delta);
    if true !in compress {
      return None;
    }
    var stored := Store(ready, compress, p);
    var shrunk := FindShrunk(stored, ready, compress);
    WholeElements(|data|, Planes(width));
    var payload := Frame(shrunk, delta, stored, tail);
    if |payload| >= |data| {
      return None;
    }
    RoundTrip(p, data, width, delta, compress);
    return Some(payload);
  }

  method ReadSizes(payload: seq<byte>, w: nat) returns (r: Result<seq<nat>>)
    requires 2 + 4 * w <= |payload|
    ensures var sizes := SizesOf(payload, w);
            r == if exists i :: 0 <= i < w && sizes[i] > MAX_DECOMPRESSED_BLOCK_SIZE then Err(ResourceLimit)
                 else Ok(sizes)
  {
    var sizes: seq<nat> := [];
    for i := 0 to w
      invariant sizes == SizesOf(payload, w)[..i]
      invariant forall k :: 0 <= k < i ==> SizesOf(payload, w)[k] <= MAX_DECOMPRESSED_BLOCK_SIZE
    {
      var size := FromLe32(payload[2 + 4 * i..2 + 4 * i + 4]);
      assert size == SizesOf(payload, w)[i];
      if size > MAX_DECOMPRESSED_BLOCK_SIZE {
        return Err(ResourceLimit);
      }
      sizes := sizes + [size];
    }
    assert sizes == SizesOf(payload, w);
    return Ok(sizes);
  }

  method DecodePlane(view: seq<byte>, n: nat, coded: bool, delta: bool, ghost p: Predictor<Order0Model.Counts>)
    returns (r: Result<seq<byte>>)
    requires Order0Model.IsOrder0(p)
    ensures r == DecodedPlane(p, view, n, coded, delta)
  {
    r := Ok(view);
    if coded {
      var model := new Order0Model.Model();
      r := Order0Blocks.DecodeBlock(view, n, model, true, p);
    } else if |view| != n {
      r := Err(Decompression);
    }
    if r.Ok? && delta {
      ghost var coded := r.value;
      var plane := new byte[|r.value|](i requires 0 <= i < |r.value| => r.value[i]);
      assert plane[..] == coded;
      DeltaDecode(plane);
      r := Ok(plane[..]);
    }
  }

  method DecodePlanes(payload: seq<byte>, sizes: seq<nat>, n: nat, ghost p: Predictor<Order0Model.Counts>)
    returns (r: Result<seq<seq<byte>>>, end: nat)
    requires Order0Model.IsOrder0(p) && 2 + 4 * |sizes| + Total(sizes) <= |payload|
    ensures end == 2 + 4 * |sizes| + Total(sizes) || r.Err?
    ensures r.Err? <==> exists i :: 0 <= i < |sizes| && PlaneOf(p, payload, sizes, n, i).Err?
    ensures r.Err? ==> r.error == Decompression
    ensures r.Ok? ==> r.value == PlanesOf(p, payload, sizes, n)
  {
    hide Total, Bit, DecodedPlane;
    end := 2 + 4 * |sizes|;
    var planes: seq<seq<byte>> := [];
    assert Total([]) == 0 by { TotalOfNone(); }
    for i := 0 to |sizes|
      invariant |planes| == i && end == 2 + 4 * |sizes| + Total(sizes[..i])
      invariant forall k :: 0 <= k < i ==> PlaneOf(p, payload, sizes, n, k) == Ok(planes[k])
    {
      TotalPrefix(sizes, i);
      assert payload[end..end + sizes[i]] == View(payload, sizes, i);
      var plane := DecodePlane(payload[end..end + sizes[i]], n, Bit(payload[1] as nat % 16, i),
                               Bit(payload[1] as nat / 16, i), p);
      assert plane == PlaneOf(p, payload, sizes, n, i);
      if plane.Err? {
        return Err(plane.error), end;
      }
      TotalPush(sizes[..i], sizes[i]);
      assert sizes[..i] + [sizes[i]] == sizes[..i + 1];
      planes := planes + [plane.value];
      end := end + sizes[i];
    }
    assert sizes[..|sizes|] == sizes;
    assert planes == PlanesOf(p, payload, sizes, n);
    return Ok(planes), end;
  }

  lemma TotalOfNone()
    ensures Total([]) == 0
  {
  }

  method TotalSize(sizes: seq<nat>) returns (t: nat)
    ensures t == Total(sizes)
  {
    t := 0;
    for i := 0 to |sizes|
      invariant t == Total(sizes[..i])
    {
      assert sizes[..i + 1][..i] == sizes[..i];
      t := t + sizes[i];
    }
    assert sizes[..|sizes|] == sizes;
  }

  /** `byteplane_decode`. The source's last length check needs no branch: `Decoded` has that length. */
  method Decode(payload: seq<byte>, size: nat, ghost p: Predictor<Order0Model.Counts>) returns (r: Result<seq<byte>>)
    requires Order0Model.IsOrder0(p)
    ensures r == Decoded(p, payload, size)
  {
    if |payload| < 2 {
      return Err(Decompression);
    }
    var width := FromU8(payload[0]);
    if width.None? {
      return Err(Decompression);
    }
    var w := Planes(width.value);
    if |payload| < 2 + 4 * w {
      return Err(Decompression);
    }
    var sizes := ReadSizes(payload, w);
    if sizes.Err? {
      return Err(sizes.error);
    }
    var total := TotalSize(sizes.value);
    if |payload| < 2 + 4 * w + total + size % w {
      return Err(Decompression);
    }
    r := DecodeBody(payload, sizes.value, size / w, size % w, p);
  }

  method DecodeBody(payload: seq<byte>, sizes: seq<nat>, n: nat, t: nat, ghost p: Predictor<Order0Model.Counts>)
    returns (r: Result<seq<byte>>)
    requires Order0Model.IsOrder0(p) && |sizes| > 0
    requires 2 + 4 * |sizes| + Total(sizes) + t <= |payload|
    ensures r == Merged(p, payload, sizes, n, t)
  {
    hide PlaneOf, Rows, Total;
    var planes, end := DecodePlanes(payload, sizes, n, p);
    if planes.Err? {
      return Err(planes.error);
    }
    var merged := MergeBytes(planes.value, payload[end..end + t]);
    return Ok(merged);
  }
}
