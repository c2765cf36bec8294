/**
 The carry-propagating range encoder (`coding/rans.rs`), and the exact arithmetic it stands for.

 `Enc` is the encoder's state as a value and `RangeEncoder` the object that updates it in place.
 `Ideal` is the same coder with unbounded precision: one natural number that is never split into
 bytes. The lemmas prove that emitted bytes, cache, pending 0xFF run and `low` together always are
 that number, so a late carry is never lost and never runs past the cached byte.
 */
module RangeEncoding {
  import opened Bytes

  const PROB_TOTAL: nat := 32768
  const TOP: nat := 0x100_0000
  /** The pending run may not grow past 16 MiB. */
  const MAX_CACHE: nat := 0x100_0000

  datatype Enc = Enc(low: nat, range: nat, cache: byte, cacheSize: nat, output: seq<byte>, overflow: bool)

  const NEW_ENC: Enc := Enc(0, 0xFFFF_FFFF, 0, 1, [], false)

  /** Output of the resolved byte: the cached byte and its pending run leave, with the carry added. */
  function Flush(e: Enc): Enc {
    var lowHi := e.low / TWO32 % 256;
    e.(output := e.output + [(e.cache + lowHi) % 256]
       + Repeat<byte>((255 + lowHi) % 256, if e.cacheSize > 0 then e.cacheSize - 1 else 0),
       cache := e.low / TOP % 256,
       cacheSize := 0)
  }

  /** The pending run got too long: give up, flag the stream, free the memory. */
  function Valve(e: Enc): Enc {
    if e.cacheSize > MAX_CACHE then
      e.(overflow := true,
         output := e.output + [e.cache] + Repeat<byte>(255, e.cacheSize - 2),
         cache := e.low / TOP % 256,
         cacheSize := 1)
    else e
  }

  predicate Resolved(low: nat) {
    low % TWO32 < 0xFF00_0000 || low / TWO32 % 256 != 0
  }

  function Shifted(e: Enc): Enc {
    var f := if Resolved(e.low) then Flush(e) else e;
    Valve(f.(cacheSize := f.cacheSize + 1)).(low := e.low % TWO32 * 256 % TWO32)
  }

  function Renormalized(e: Enc): (r: Enc)
    requires e.range > 0
    ensures r.range >= TOP
    decreases TOP - e.range
  {
    if e.range < TOP then Renormalized(Shifted(e).(range := e.range * 256)) else e
  }

  /** Narrow the interval to `[lo, hi)` of `PROB_TOTAL` parts. */
  function Narrow(e: Enc, lo: nat, hi: nat): Enc
    requires lo < hi
  {
    var r := e.range / PROB_TOTAL;
    e.(low := e.low + lo * r, range := (hi - lo) * r)
  }

  function Encoded(e: Enc, lo: nat, hi: nat): (r: Enc)
    requires lo < hi <= PROB_TOTAL && e.range >= TOP
    ensures r.range >= TOP
  {
    var n := Narrow(e, lo, hi);
    NarrowPositive(e.range, hi - lo);
    Renormalized(n)
  }

  lemma NarrowPositive(range: nat, freq: nat)
    requires range >= TOP && 0 < freq <= PROB_TOTAL
    ensures 512 <= freq * (range / PROB_TOTAL) <= range
  {
    var r := range / PROB_TOTAL;
    assert r <= freq * r <= PROB_TOTAL * r;
  }

  lemma NarrowWithin(range: nat, lo: nat, hi: nat)
    requires lo < hi <= PROB_TOTAL
    ensures lo * (range / PROB_TOTAL) + (hi - lo) * (range / PROB_TOTAL) <= range
  {
    var r := range / PROB_TOTAL;
    Distribute(lo, hi - lo, r);
    MulLe(hi, PROB_TOTAL, r);
  }

  function Shifts(e: Enc, n: nat): Enc
    decreases n, e
  {
    if n == 0 then e else Shifts(Shifted(e), n - 1)
  }

  function Finished(e: Enc): Result<seq<byte>> {
    var f := Shifts(e, 5);
    if f.overflow then Err(Compression) else Ok(f.output)
  }

  /** The pending run stays within 16 MiB through every shift ... */
  ghost predicate PendingBounded(e: Enc) {
    1 <= e.cacheSize <= 0x100_0000
  }

  lemma ShiftKeepsPending(e: Enc)
    requires PendingBounded(e)
    ensures PendingBounded(Shifted(e))
    ensures e.low < 2 * TWO32 ==>
              (Shifted(e).overflow
               <==> e.overflow || (0xFF00_0000 <= e.low < 0x1_0000_0000 && e.cacheSize == 0x100_0000))
  {
  }

  /** ... and so while a symbol is encoded. */
  lemma {:induction false} RenormalizeKeepsPending(e: Enc)
    requires PendingBounded(e) && e.range > 0
    ensures PendingBounded(Renormalized(e))
    decreases TOP - e.range
  {
    if e.range < TOP {
      ShiftKeepsPending(e);
      RenormalizeKeepsPending(Shifted(e).(range := e.range * 256));
    }
  }

  lemma EncodeKeepsPending(e: Enc, lo: nat, hi: nat)
    requires PendingBounded(e) && lo < hi <= PROB_TOTAL && e.range >= TOP
    ensures PendingBounded(Encoded(e, lo, hi))
  {
    NarrowPositive(e.range, hi - lo);
    RenormalizeKeepsPending(Narrow(e, lo, hi));
  }

  /** `RangeEncoder`, updated in place as the source does. */
  class RangeEncoder {
    var low: nat
    var range: nat
    var cache: byte
    var cacheSize: nat
    var output: seq<byte>
    var cacheOverflow: bool

    ghost function State(): Enc
      reads this
    {
      Enc(low, range, cache, cacheSize, output, cacheOverflow)
    }

    constructor ()
      ensures State() == NEW_ENC
    {
      low, range, cache, cacheSize, output, cacheOverflow := 0, 0xFFFF_FFFF, 0, 1, [], false;
    }

    method PushRun(b: byte, n: nat)
      modifies this`output
      ensures output == old(output) + Repeat(b, n)
    {
      for i := 0 to n
        invariant output == old(output) + Repeat(b, i)
      {
        output := output + [b];
      }
    }

    method ShiftLow()
      modifies this
      ensures State() == Shifted(old(State()))
    {
      var lowHi := low / TWO32 % 256;
      if low % TWO32 < 0xFF00_0000 || lowHi != 0 {
        output := output + [(cache + lowHi) % 256];
        PushRun((255 + lowHi) % 256, if cacheSize > 0 then cacheSize - 1 else 0);
        cache := low / TOP % 256;
        cacheSize := 0;
      }
      cacheSize := cacheSize + 1;
      if cacheSize > MAX_CACHE {
        cacheOverflow := true;
        output := output + [cache];
        PushRun(255, cacheSize - 2);
        cache := low / TOP % 256;
        cacheSize := 1;
      }
      low := low % TWO32 * 256 % TWO32;
    }

    method EncodeInterval(lo: nat, hi: nat)
      requires lo < hi <= PROB_TOTAL && range >= TOP
      modifies this
      ensures State() == Encoded(old(State()), lo, hi)
    {
      var r := range / PROB_TOTAL;
      NarrowPositive(range, hi - lo);
      low := low + lo * r;
      range := (hi - lo) * r;
      while range < TOP
        invariant range > 0
        invariant Renormalized(State()) == Encoded(old(State()), lo, hi)
        decreases TOP - range
      {
        ShiftLow();
        range := range * 256;
      }
    }

    method Finish() returns (r: Result<seq<byte>>)
      modifies this
      ensures r == Finished(old(State()))
    {
      for i := 0 to 5
        invariant Shifts(State(), 5 - i) == Shifts(old(State()), 5)
      {
        ShiftLow();
      }
      if cacheOverflow {
        return Err(Compression);
      }
      return Ok(output);
    }
  }

  // ---------------------------------------------------------------------------------------------
  // The exact coder
  // ---------------------------------------------------------------------------------------------

  /** Unbounded-precision coder: the interval is `[value, value + range)`, scaled by `256^shifts`. */
  datatype Ideal = Ideal(value: nat, range: nat, shifts: nat)

  const NEW_IDEAL: Ideal := Ideal(0, 0xFFFF_FFFF, 0)

  function IdealRenormalize(i: Ideal): (j: Ideal)
    requires i.range > 0
    ensures j.range >= TOP && j.shifts >= i.shifts
    decreases TOP - i.range
  {
    if i.range < TOP then IdealRenormalize(Ideal(i.value * 256, i.range * 256, i.shifts + 1)) else i
  }

  function IdealNarrow(i: Ideal, lo: nat, hi: nat): Ideal
    requires lo < hi
  {
    var r := i.range / PROB_TOTAL;
    i.(value := i.value + lo * r, range := (hi - lo) * r)
  }

  function IdealEncode(i: Ideal, lo: nat, hi: nat): (j: Ideal)
    requires lo < hi <= PROB_TOTAL && i.range >= TOP
    ensures j.range >= TOP && j.shifts >= i.shifts
  {
    NarrowPositive(i.range, hi - lo);
    IdealRenormalize(IdealNarrow(i, lo, hi))
  }

  /** A symbol costs at most two shifts, and the range stays a `u32` of at least 2^24. */
  lemma EncodeAtMostTwoShifts(i: Ideal, lo: nat, hi: nat)
    requires lo < hi <= PROB_TOTAL && TOP <= i.range < TWO32
    ensures IdealEncode(i, lo, hi).shifts <= i.shifts + 2
    ensures TOP <= IdealEncode(i, lo, hi).range < TWO32
  {
    NarrowPositive(i.range, hi - lo);
    var a := IdealNarrow(i, lo, hi);
    var b := Ideal(a.value * 256, a.range * 256, a.shifts + 1);
    var c := Ideal(b.value * 256, b.range * 256, b.shifts + 1);
    if a.range < TOP {
      assert IdealRenormalize(a) == IdealRenormalize(b);
      if b.range < TOP {
        assert IdealRenormalize(b) == IdealRenormalize(c) == c;
      }
    }
  }

  /** `j` lies inside `i`'s interval, at `j`'s finer scale. */
  ghost predicate Nested(i: Ideal, j: Ideal) {
    && j.shifts >= i.shifts
    && var p := Pow256(j.shifts - i.shifts);
       i.value * p <= j.value && j.value + j.range <= (i.value + i.range) * p
  }

  lemma NestedTransitive(i: Ideal, j: Ideal, k: Ideal)
    requires Nested(i, j) && Nested(j, k)
    ensures Nested(i, k)
  {
    var p, q := Pow256(j.shifts - i.shifts), Pow256(k.shifts - j.shifts);
    Pow256Add(j.shifts - i.shifts, k.shifts - j.shifts);
    assert Pow256(k.shifts - i.shifts) == p * q;
    Rescale(i.value, p, q, j.value);
    Rescale(j.value + j.range, 1, q, (i.value + i.range) * p);
    Associate(i.value + i.range, p, q);
  }

  lemma Rescale(a: nat, p: nat, q: nat, b: nat)
    requires a * p <= b
    ensures a * (p * q) <= b * q
  {
    Associate(a, p, q);
    assert 0 <= (b - a * p) * q;
  }

  lemma {:induction false} RenormalizeNested(i: Ideal)
    requires i.range > 0
    ensures Nested(i, IdealRenormalize(i))
    decreases TOP - i.range
  {
    if i.range < TOP {
      var j := Ideal(i.value * 256, i.range * 256, i.shifts + 1);
      assert Pow256(1) == 256 * Pow256(0);
      RenormalizeNested(j);
      NestedTransitive(i, j, IdealRenormalize(i));
    } else {
      assert Pow256(0) == 1;
    }
  }

  lemma EncodeNested(i: Ideal, lo: nat, hi: nat)
    requires lo < hi <= PROB_TOTAL && i.range >= TOP
    ensures Nested(i, IdealEncode(i, lo, hi))
  {
    NarrowPositive(i.range, hi - lo);
    var n := IdealNarrow(i, lo, hi);
    NarrowWithin(i.range, lo, hi);
    assert Pow256(0) == 1;
    assert Nested(i, n);
    RenormalizeNested(n);
    NestedTransitive(i, n, IdealEncode(i, lo, hi));
  }

  // ---------------------------------------------------------------------------------------------
  // The encoder is the exact coder
  // ---------------------------------------------------------------------------------------------

  /** Everything that has left `low`: emitted bytes, the cached byte and the pending run. */
  function Committed(e: Enc): seq<byte>
    requires e.cacheSize >= 1
  {
    e.output + [e.cache] + Repeat<byte>(255, e.cacheSize - 1)
  }

  /** The number the encoder's fields denote together. */
  function Value(e: Enc): nat
    requires e.cacheSize >= 1
  {
    BigEndian(Committed(e)) * TWO32 + e.low
  }

  /** No number of the interval `[low, low + range)` can carry out of a cached 0xFF. */
  predicate CarrySafe(e: Enc, range: nat) {
    && e.low + range <= 2 * TWO32
    && (e.cache == 255 ==> e.low + range <= TWO32)
  }

  /** Adding one to a byte below 0xFF that a run of 0xFF follows turns the run into zeros. */
  lemma {:induction false} CarryThroughRun(o: seq<byte>, c: byte, m: nat)
    requires c < 255
    ensures BigEndian(o + [c + 1] + Repeat<byte>(0, m)) == BigEndian(o + [c] + Repeat<byte>(255, m)) + 1
  {
    if m == 0 {
      assert o + [c + 1] + Repeat<byte>(0, 0) == o + [c + 1];
      assert o + [c] + Repeat<byte>(255, 0) == o + [c];
      BigEndianPush(o, c);
      BigEndianPush(o, c + 1);
    } else {
      CarryThroughRun(o, c, m - 1);
      assert o + [c + 1] + Repeat<byte>(0, m) == o + [c + 1] + Repeat<byte>(0, m - 1) + [0];
      assert o + [c] + Repeat<byte>(255, m) == o + [c] + Repeat<byte>(255, m - 1) + [255];
      BigEndianPush(o + [c + 1] + Repeat<byte>(0, m - 1), 0);
      BigEndianPush(o + [c] + Repeat<byte>(255, m - 1), 255);
    }
  }

  lemma SplitLow(low: nat)
    requires low < 2 * TWO32
    ensures low / TWO32 % 256 == low / TWO32 <= 1
    ensures low == low / TWO32 * TWO32 + low / TOP % 256 * TOP + low % TOP
    ensures low % TWO32 * 256 % TWO32 == low % TOP * 256
    ensures low / TOP % 256 == 255 <==> low % TWO32 >= 0xFF00_0000
  {
    assert low % TWO32 == low / TOP % 256 * TOP + low % TOP;
  }

  /** Adding the carry to the cached byte never wraps. */
  lemma CarryNeverWraps(e: Enc, range: nat)
    requires CarrySafe(e, range) && range >= 1
    ensures e.cache + e.low / TWO32 % 256 <= 255
  {
  }

  /** Flushing adds the carry to the committed number and nothing else. */
  lemma FlushAddsCarry(e: Enc, range: nat)
    requires e.cacheSize >= 1 && range >= 1 && CarrySafe(e, range)
    ensures BigEndian(Flush(e).output) == BigEndian(Committed(e)) + e.low / TWO32
    ensures |Flush(e).output| == |Committed(e)|
  {
    SplitLow(e.low);
    var m := e.cacheSize - 1;
    if e.low / TWO32 == 1 {
      CarryThroughRun(e.output, e.cache, m);
    }
  }

  /** One shift multiplies the denoted number by 256 and leaves one more byte behind. */
  lemma ShiftLowValue(e: Enc, range: nat)
    requires e.cacheSize >= 1 && range >= 1 && CarrySafe(e, range) && !Shifted(e).overflow
    ensures Shifted(e).cacheSize >= 1
    ensures Value(Shifted(e)) == Value(e) * 256
    ensures |Committed(Shifted(e))| == |Committed(e)| + 1
    ensures range < TOP ==> CarrySafe(Shifted(e), range * 256)
  {
    var f := Shifted(e);
    SplitLow(e.low);
    assert e.cacheSize < MAX_CACHE || Resolved(e.low);
    if Resolved(e.low) {
      FlushAddsCarry(e, range);
      assert Committed(f) == Flush(e).output + [f.cache];
      BigEndianPush(Flush(e).output, f.cache);
    } else {
      assert Committed(f) == Committed(e) + [255];
      BigEndianPush(Committed(e), 255);
    }
  }

  /** The valve only opens when the pending run has reached 16 MiB. */
  lemma ShiftLowNoOverflow(e: Enc)
    requires e.cacheSize >= 1 && !e.overflow && |Committed(e)| < MAX_CACHE
    ensures !Shifted(e).overflow
  {
  }

  /** The encoder's state `e` stands for the exact state `i`, unless the valve has opened. */
  ghost predicate Refines(e: Enc, i: Ideal) {
    && e.cacheSize >= 1
    && e.range == i.range > 0
    && (!e.overflow ==>
          && Value(e) == i.value
          && |Committed(e)| == i.shifts + 1
          && CarrySafe(e, e.range))
  }

  lemma {:induction false} RenormalizeRefines(e: Enc, i: Ideal)
    requires Refines(e, i)
    ensures Refines(Renormalized(e), IdealRenormalize(i))
    ensures !e.overflow && IdealRenormalize(i).shifts < MAX_CACHE - 1 ==> !Renormalized(e).overflow
    decreases TOP - e.range
  {
    if e.range < TOP {
      var f := Shifted(e).(range := e.range * 256);
      var j := Ideal(i.value * 256, i.range * 256, i.shifts + 1);
      if !f.overflow {
        ShiftLowValue(e, e.range);
        assert Committed(f) == Committed(Shifted(e));
      }
      RenormalizeRefines(f, j);
      if !e.overflow && IdealRenormalize(i).shifts < MAX_CACHE - 1 {
        ShiftLowNoOverflow(e);
      }
    }
  }

  lemma EncodeRefines(e: Enc, i: Ideal, lo: nat, hi: nat)
    requires lo < hi <= PROB_TOTAL && TOP <= i.range && Refines(e, i)
    ensures Refines(Encoded(e, lo, hi), IdealEncode(i, lo, hi))
    ensures !e.overflow && IdealEncode(i, lo, hi).shifts < MAX_CACHE - 1 ==> !Encoded(e, lo, hi).overflow
  {
    NarrowPositive(i.range, hi - lo);
    NarrowWithin(e.range, lo, hi);
    var n := Narrow(e, lo, hi);
    assert Committed(n) == Committed(e);
    RenormalizeRefines(n, IdealNarrow(i, lo, hi));
  }

  /** `n` closing shifts append the low digits of the number. */
  lemma {:induction false} ShiftsValue(e: Enc, n: nat)
    requires e.cacheSize >= 1
    requires !Shifts(e, n).overflow ==> CarrySafe(e, 1)
    ensures !Shifts(e, n).overflow ==>
              && !e.overflow
              && Shifts(e, n).cacheSize >= 1
              && Value(Shifts(e, n)) == Value(e) * Pow256(n)
              && |Committed(Shifts(e, n))| == |Committed(e)| + n
    decreases n
  {
    if n == 0 || Shifts(e, n).overflow {
      if n > 0 {
        OverflowSticks(e, n);
      }
    } else {
      OverflowSticks(e, n);
      var f := Shifted(e);
      ShiftLowValue(e, 1);
      assert CarrySafe(f, 256);
      ShiftsValue(f, n - 1);
      Associate(Value(e), 256, Pow256(n - 1));
    }
  }

  lemma {:induction false} OverflowSticks(e: Enc, n: nat)
    ensures e.overflow ==> Shifts(e, n).overflow
    ensures n > 0 && Shifted(e).overflow ==> Shifts(e, n).overflow
    decreases n
  {
    if n > 0 {
      OverflowSticks(Shifted(e), n - 1);
    }
  }

  lemma LowCleared(l: nat, l1: nat, l2: nat, l3: nat, l4: nat)
    requires l1 == l % TWO32 * 256 % TWO32 && l2 == l1 % TWO32 * 256 % TWO32
    requires l3 == l2 % TWO32 * 256 % TWO32 && l4 == l3 % TWO32 * 256 % TWO32
    ensures l4 == 0
  {
    var c1 := ShiftModulo(l);
    var c2 := ShiftModulo(l1);
    var c3 := ShiftModulo(l2);
    var c4 := ShiftModulo(l3);
    assert l4 == TWO32 * (l - TOP * c1 - 65536 * c2 - 256 * c3 - c4);
  }

  lemma ShiftModulo(l: nat) returns (c: int)
    ensures l % TWO32 * 256 % TWO32 == 256 * l - TWO32 * c
  {
    c := 256 * (l / TWO32) + l % TWO32 * 256 / TWO32;
  }

  /** The closing shifts empty `low`, and the fifth one flushes the whole pending run. */
  lemma ClosingShifts(e: Enc)
    ensures !Finished(e).Err? ==> Shifts(e, 5).low == 0 && Shifts(e, 5).cache == 0 && Shifts(e, 5).cacheSize == 1
  {
    var e1 := Shifted(e);
    var e2 := Shifted(e1);
    var e3 := Shifted(e2);
    var e4 := Shifted(e3);
    LowCleared(e.low, e1.low, e2.low, e3.low, e4.low);
    assert Shifts(e, 5) == Shifts(e1, 4) == Shifts(e2, 3);
    assert Shifts(e2, 3) == Shifts(e3, 2) == Shifts(e4, 1) == Shifted(e4);
  }

  /** `finish` emits exactly the digits of the number, five bytes more than there were shifts. */
  lemma FinishExact(e: Enc, i: Ideal)
    requires Refines(e, i)
    ensures Finished(e).Ok? ==> BigEndian(Finished(e).value) == i.value && |Finished(e).value| == i.shifts + 5
  {
    if Finished(e).Err? {
      return;
    }
    var f := Shifts(e, 5);
    OverflowSticks(e, 5);
    ShiftsValue(e, 5);
    ClosingShifts(e);
    assert Committed(f) == f.output + [0];
    BigEndianPush(f.output, 0);
    FivePow();
    Cancel(BigEndian(f.output), i.value);
  }

  lemma FivePow()
    ensures Pow256(5) == 256 * TWO32
  {
    assert Pow256(3) == 256 * 65536;
  }

  lemma Cancel(a: nat, b: nat)
    requires (a * 256 + 0) * TWO32 + 0 == b * (256 * TWO32)
    ensures a == b
  {
  }

  lemma FinishNoOverflow(e: Enc, i: Ideal)
    requires Refines(e, i) && !e.overflow && i.shifts + 5 < MAX_CACHE
    ensures Finished(e).Ok?
  {
    ShiftsNoOverflow(e, 5);
  }

  lemma {:induction false} ShiftsNoOverflow(e: Enc, n: nat)
    requires e.cacheSize >= 1 && !e.overflow && CarrySafe(e, 1) && |Committed(e)| + n <= MAX_CACHE
    ensures !Shifts(e, n).overflow
    decreases n
  {
    if n > 0 {
      ShiftLowNoOverflow(e);
      ShiftLowValue(e, 1);
      assert CarrySafe(Shifted(e), 256);
      ShiftsNoOverflow(Shifted(e), n - 1);
    }
  }
}
