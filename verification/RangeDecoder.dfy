/** The range decoder (`coding/rans.rs`). */
module RangeDecoding {
  import opened Bytes
  import opened RangeEncoding

  datatype Dec = Dec(code: nat, range: nat, pos: nat, overread: nat)

  /** `read_byte` shifted into `code`; past the end it reads zeros and counts them. */
  function Pull(input: seq<byte>, d: Dec): Dec {
    var shifted := d.code * 256 % TWO32;
    if d.pos < |input| then
      d.(code := shifted + input[d.pos], pos := d.pos + 1)
    else
      d.(code := shifted, overread := d.overread + 1)
  }

  function Pulls(input: seq<byte>, d: Dec, n: nat): (e: Dec)
    ensures e.range == d.range
    decreases n, d, input
  {
    if n == 0 then d else Pulls(input, Pull(input, d), n - 1)
  }

  /** `RangeDecoder::new`. */
  function Start(input: seq<byte>): (d: Dec)
    ensures d.range >= TOP
  {
    Pulls(input, Dec(0, 0xFFFF_FFFF, 0, 0), 5)
  }

  /** The scale factor and the cumulative frequency the next symbol's interval contains. */
  function DecodeFreq(d: Dec): (q: (nat, nat))
    requires d.range >= TOP
    ensures 0 < q.0 && q.1 < PROB_TOTAL && q.1 * q.0 <= d.code
  {
    var r := d.range / PROB_TOTAL;
    var f := d.code / r;
    assert f * r <= d.code;
    if f < PROB_TOTAL then (r, f) else
      assert (PROB_TOTAL - 1) * r <= f * r;
      (r, PROB_TOTAL - 1)
  }

  /** It is the largest such frequency, on every `code`. */
  lemma DecodeFreqIsLargest(d: Dec)
    requires d.range >= TOP
    ensures var q := DecodeFreq(d);
            q.0 == d.range / 32768 && (q.1 == 32767 || d.code < (q.1 + 1) * q.0)
  {
    var r := d.range / 32768;
    var f := d.code / r;
    Distribute(f, 1, r);
  }

  function Refilled(input: seq<byte>, d: Dec): (e: Dec)
    requires d.range > 0
    ensures e.range >= TOP
    decreases TOP - d.range
  {
    if d.range < TOP then Refilled(input, Pull(input, d).(range := d.range * 256)) else d
  }

  /** Consume a symbol's interval. */
  function Advanced(input: seq<byte>, d: Dec, r: nat, lo: nat, hi: nat): (e: Dec)
    requires 0 < r && lo < hi && lo * r <= d.code
    ensures e.range >= TOP
  {
    MulPositive(hi - lo, r);
    Refilled(input, d.(code := d.code - lo * r, range := (hi - lo) * r))
  }

  // ---------------------------------------------------------------------------------------------
  // Past the end the stream reads as zeros
  // ---------------------------------------------------------------------------------------------

  /** How many bytes have been asked for. */
  function Asked(d: Dec): nat {
    d.pos + d.overread
  }

  /** `d` has asked for what `pos` and `overread` say, those past the end being counted apart. */
  ghost predicate CountsReads(input: seq<byte>, d: Dec) {
    d.pos == if Asked(d) <= |input| then Asked(d) else |input|
  }

  /** `d` on `input` and `e` on `input` with zeros behind it do the same. */
  ghost predicate SameRun(input: seq<byte>, z: seq<byte>, d: Dec, e: Dec) {
    && CountsReads(input, d) && CountsReads(z, e)
    && d.code == e.code && d.range == e.range && Asked(d) == Asked(e)
  }

  ghost predicate ZerosBehind(input: seq<byte>, z: seq<byte>) {
    input <= z && forall i :: |input| <= i < |z| ==> z[i] == 0
  }

  lemma PullSame(input: seq<byte>, z: seq<byte>, d: Dec, e: Dec)
    requires ZerosBehind(input, z) && SameRun(input, z, d, e)
    ensures SameRun(input, z, Pull(input, d), Pull(z, e))
  {
  }

  lemma {:induction false} PullsSame(input: seq<byte>, z: seq<byte>, d: Dec, e: Dec, n: nat)
    requires ZerosBehind(input, z) && SameRun(input, z, d, e)
    ensures SameRun(input, z, Pulls(input, d, n), Pulls(z, e, n))
    decreases n
  {
    if n > 0 {
      PullSame(input, z, d, e);
      PullsSame(input, z, Pull(input, d), Pull(z, e), n - 1);
    }
  }

  lemma {:induction false} RefilledSame(input: seq<byte>, z: seq<byte>, d: Dec, e: Dec)
    requires ZerosBehind(input, z) && SameRun(input, z, d, e) && d.range > 0
    ensures SameRun(input, z, Refilled(input, d), Refilled(z, e))
    decreases TOP - d.range
  {
    if d.range < TOP {
      PullSame(input, z, d, e);
      RefilledSame(input, z, Pull(input, d).(range := d.range * 256), Pull(z, e).(range := d.range * 256));
    }
  }

  lemma AdvancedSame(input: seq<byte>, z: seq<byte>, d: Dec, e: Dec, r: nat, lo: nat, hi: nat)
    requires ZerosBehind(input, z) && SameRun(input, z, d, e) && 0 < r && lo < hi && lo * r <= d.code
    ensures SameRun(input, z, Advanced(input, d, r, lo, hi), Advanced(z, e, r, lo, hi))
  {
    MulPositive(hi - lo, r);
    var d', e' := d.(code := d.code - lo * r, range := (hi - lo) * r),
        e.(code := e.code - lo * r, range := (hi - lo) * r);
    RefilledSame(input, z, d', e');
  }

  lemma StartSame(input: seq<byte>, z: seq<byte>)
    requires ZerosBehind(input, z)
    ensures SameRun(input, z, Start(input), Start(z))
  {
    PullsSame(input, z, Dec(0, 0xFFFF_FFFF, 0, 0), Dec(0, 0xFFFF_FFFF, 0, 0), 5);
  }

  class RangeDecoder {
    var code: nat
    var range: nat
    const input: seq<byte>
    var pos: nat
    var eofOverread: nat

    ghost function State(): Dec
      reads this
    {
      Dec(code, range, pos, eofOverread)
    }

    constructor (data: seq<byte>)
      ensures input == data && State() == Start(data)
    {
      input := data;
      code, range, pos, eofOverread := 0, 0xFFFF_FFFF, 0, 0;
      new;
      for i := 0 to 5
        invariant input == data
        invariant Pulls(data, State(), 5 - i) == Start(data)
      {
        var b := ReadByte();
        code := code * 256 % TWO32 + b;
      }
    }

    method ReadByte() returns (b: byte)
      modifies this`pos, this`eofOverread
      ensures State().(code := code * 256 % TWO32 + b) == Pull(input, old(State()))
    {
      if pos < |input| {
        b := input[pos];
        pos := pos + 1;
      } else {
        eofOverread := eofOverread + 1;
        b := 0;
      }
    }

    method Advance(r: nat, lo: nat, hi: nat)
      requires 0 < r && lo < hi && lo * r <= code
      modifies this
      ensures State() == Advanced(input, old(State()), r, lo, hi)
    {
      MulPositive(hi - lo, r);
      code := code - lo * r;
      range := (hi - lo) * r;
      assert Advanced(input, old(State()), r, lo, hi) == Refilled(input, State());
      while range < TOP
        invariant range > 0
        invariant Refilled(input, State()) == Advanced(input, old(State()), r, lo, hi)
        decreases TOP - range
      {
        var b := ReadByte();
        code := code * 256 % TWO32 + b;
        range := range * 256;
      }
    }
  }

  // ---------------------------------------------------------------------------------------------
  // Lockstep with the exact coder
  // ---------------------------------------------------------------------------------------------

  /**
   The decoder has read five bytes more than the coder has shifted, and `code` is the distance from
   the coder's low end to the number those bytes spell.
   */
  ghost predicate InStep(input: seq<byte>, d: Dec, i: Ideal) {
    && d.range == i.range > 0
    && d.pos == i.shifts + 5 <= |input|
    && d.overread == 0
    && d.code + i.value == BigEndian(input[..d.pos])
  }

  /** What has been read so far still lies in the coder's interval. */
  lemma ReadWithin(input: seq<byte>, i: Ideal, final: Ideal)
    requires Nested(i, final) && final.range > 0
    requires |input| == final.shifts + 5 && BigEndian(input) == final.value
    ensures i.value <= BigEndian(input[..i.shifts + 5]) < i.value + i.range
  {
    var p := Pow256(final.shifts - i.shifts);
    var v := BigEndian(input[..i.shifts + 5]);
    BigEndianPrefix(input, i.shifts + 5);
    assert v * p <= final.value < (v + 1) * p;
    MulLe(v + 1, i.value, p);
    MulLe(i.value + i.range, v, p);
  }

  lemma PullInStep(input: seq<byte>, d: Dec, i: Ideal)
    requires InStep(input, d, i) && d.pos < |input| && d.code < TOP
    ensures InStep(input, Pull(input, d).(range := d.range * 256), Ideal(i.value * 256, i.range * 256, i.shifts + 1))
  {
    assert input[..d.pos + 1] == input[..d.pos] + [input[d.pos]];
    BigEndianPush(input[..d.pos], input[d.pos]);
  }

  /** The decoder refills exactly when the coder shifts. */
  lemma {:induction false} RefillInStep(input: seq<byte>, d: Dec, i: Ideal, final: Ideal)
    requires InStep(input, d, i) && Nested(IdealRenormalize(i), final) && final.range > 0
    requires |input| == final.shifts + 5 && BigEndian(input) == final.value
    ensures InStep(input, Refilled(input, d), IdealRenormalize(i))
    decreases TOP - i.range
  {
    if i.range < TOP {
      RenormalizeNested(i);
      NestedTransitive(i, IdealRenormalize(i), final);
      ReadWithin(input, i, final);
      var j := Ideal(i.value * 256, i.range * 256, i.shifts + 1);
      assert d.pos < |input|;
      PullInStep(input, d, i);
      RefillInStep(input, Pull(input, d).(range := d.range * 256), j, final);
    }
  }

  /** The frequency the decoder sees belongs to the symbol the coder narrowed to. */
  lemma FreqOfSymbol(input: seq<byte>, d: Dec, i: Ideal, lo: nat, hi: nat, final: Ideal)
    requires InStep(input, d, i) && i.range >= TOP && lo < hi <= PROB_TOTAL
    requires Nested(IdealEncode(i, lo, hi), final) && final.range > 0
    requires |input| == final.shifts + 5 && BigEndian(input) == final.value
    ensures lo <= DecodeFreq(d).1 < hi
  {
    NarrowPositive(i.range, hi - lo);
    var n := IdealNarrow(i, lo, hi);
    var r := i.range / PROB_TOTAL;
    RenormalizeNested(n);
    NestedTransitive(n, IdealEncode(i, lo, hi), final);
    ReadWithin(input, n, final);
    Distribute(lo, hi - lo, r);
    assert lo * r <= d.code < hi * r;
    QuotientBetween(d.code, r, lo, hi);
  }

  lemma QuotientBetween(n: nat, r: nat, lo: nat, hi: nat)
    requires r > 0 && lo * r <= n < hi * r
    ensures lo <= n / r < hi
  {
    var q := n / r;
    MulLe(q + 1, lo, r);
    MulLe(hi, q, r);
  }

  lemma AdvanceInStep(input: seq<byte>, d: Dec, i: Ideal, lo: nat, hi: nat, final: Ideal)
    requires InStep(input, d, i) && i.range >= TOP && lo < hi <= PROB_TOTAL
    requires Nested(IdealEncode(i, lo, hi), final) && final.range > 0
    requires |input| == final.shifts + 5 && BigEndian(input) == final.value
    requires lo * DecodeFreq(d).0 <= d.code
    ensures InStep(input, Advanced(input, d, DecodeFreq(d).0, lo, hi), IdealEncode(i, lo, hi))
  {
    NarrowPositive(i.range, hi - lo);
    var r := i.range / PROB_TOTAL;
    var d' := d.(code := d.code - lo * r, range := (hi - lo) * r);
    RefillInStep(input, d', IdealNarrow(i, lo, hi), final);
  }

  /** The first byte of every finished stream is 0, so five bytes fit the 32-bit `code`. */
  lemma StartInStep(input: seq<byte>, final: Ideal)
    requires Nested(NEW_IDEAL, final) && final.range > 0
    requires |input| == final.shifts + 5 && BigEndian(input) == final.value
    ensures input[0] == 0
    ensures InStep(input, Start(input), NEW_IDEAL)
  {
    ReadWithin(input, NEW_IDEAL, final);
    FiveDigits(input[..5]);
    FivePulls(input);
  }

  function Digits4(h: seq<byte>): nat
    requires |h| == 5
  {
    h[1] as int * 0x100_0000 + h[2] as int * 65536 + h[3] as int * 256 + h[4] as int
  }

  lemma FiveDigits(h: seq<byte>)
    requires |h| == 5
    ensures BigEndian(h) == h[0] as int * TWO32 + Digits4(h)
  {
    assert h == [] + [h[0]] + [h[1]] + [h[2]] + [h[3]] + [h[4]];
    BigEndianPush([], h[0]);
    BigEndianPush([] + [h[0]], h[1]);
    BigEndianPush([] + [h[0]] + [h[1]], h[2]);
    BigEndianPush([] + [h[0]] + [h[1]] + [h[2]], h[3]);
    BigEndianPush([] + [h[0]] + [h[1]] + [h[2]] + [h[3]], h[4]);
  }

  lemma PullSmall(input: seq<byte>, d: Dec)
    requires d.code < TOP && d.pos < |input|
    ensures Pull(input, d) == Dec(d.code * 256 + input[d.pos], d.range, d.pos + 1, d.overread)
  {
  }

  /** The initial fill drops the first byte off the 32-bit `code`. */
  lemma FivePulls(input: seq<byte>)
    requires |input| >= 5
    ensures Start(input) == Dec(Digits4(input[..5]), 0xFFFF_FFFF, 5, 0)
  {
    hide Pull;
    var d0 := Dec(0, 0xFFFF_FFFF, 0, 0);
    var d1 := Pull(input, d0);
    var d2 := Pull(input, d1);
    var d3 := Pull(input, d2);
    var d4 := Pull(input, d3);
    var d5 := Pull(input, d4);
    var a: int, w: int := input[0], input[1] as int * 65536 + input[2] as int * 256 + input[3] as int;
    PullSmall(input, d0);
    PullSmall(input, d1);
    PullSmall(input, d2);
    PullSmall(input, d3);
    assert d1 == Dec(a, 0xFFFF_FFFF, 1, 0);
    assert d2 == Dec(a * 256 + input[1], 0xFFFF_FFFF, 2, 0);
    assert d3 == Dec(a * 65536 + input[1] as int * 256 + input[2], 0xFFFF_FFFF, 3, 0);
    assert d3.code * 256 + input[3] == a * TOP + w;
    assert d4 == Dec(a * TOP + w, 0xFFFF_FFFF, 4, 0);
    DropTop(a, w);
    LastPull(input, d4);
    PullsStep(input, d0, 5);
    PullsStep(input, d1, 4);
    PullsStep(input, d2, 3);
    PullsStep(input, d3, 2);
    PullsStep(input, d4, 1);
  }

  lemma PullsStep(input: seq<byte>, d: Dec, n: nat)
    requires n > 0
    ensures Pulls(input, d, n) == Pulls(input, Pull(input, d), n - 1)
    ensures Pulls(input, d, 0) == d
  {
  }

  lemma LastPull(input: seq<byte>, d: Dec)
    requires d.pos < |input|
    ensures Pull(input, d) == Dec(d.code * 256 % TWO32 + input[d.pos], d.range, d.pos + 1, d.overread)
  {
  }

  lemma DropTop(a: nat, w: nat)
    requires w < TOP
    ensures (a * TOP + w) * 256 % TWO32 == w * 256
  {
    assert (a * 0x100_0000 + w) * 256 == a * 0x1_0000_0000 + w * 256;
  }
}
