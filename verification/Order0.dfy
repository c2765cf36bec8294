/** The adaptive order-0 frequency model (`entropy/order0.rs`). */
module Order0Model {
  import opened Bytes
  import opened Fenwick
  import opened RangeEncoding
  import opened Predictors

  // ---------------------------------------------------------------------------------------------
  // Exact division by multiply and shift
  // ---------------------------------------------------------------------------------------------

  const MAX_MAGIC_TOTAL: nat := 0x10_0000
  /** `2^SHIFT` with `SHIFT = 56`. */
  const SHIFT: nat := 0x100_0000_0000_0000

  datatype ExactDivisor = ExactDivisor(total: nat, magic: nat, exact: bool) {

    static function New(total: nat): ExactDivisor {
      var exact := 0 < total <= MAX_MAGIC_TOTAL;
      ExactDivisor(total, if exact then SHIFT / total + 1 else 0, exact)
    }

    function Div(n: nat): nat
      requires exact || total > 0
    {
      if exact then n * magic / SHIFT else n / total
    }
  }

  /** What the magic number is off by. */
  lemma MagicError(total: nat) returns (e: nat)
    requires total > 0
    ensures (SHIFT / total + 1) * total == SHIFT + e && 1 <= e <= total
  {
    var q := SHIFT / total;
    e := q * total + total - SHIFT;
    Distribute(q, 1, total);
  }

  lemma ErrorIsSmall(total: nat, n: nat, e: nat)
    requires 0 < total <= MAX_MAGIC_TOTAL && n < total * (PROB_TOTAL + 1) && e <= total
    ensures n * e < SHIFT
  {
    MulLe(e, MAX_MAGIC_TOTAL, n);
    MulLe(total, MAX_MAGIC_TOTAL, PROB_TOTAL + 1);
    assert n * e <= MAX_MAGIC_TOTAL * n;
  }

  lemma QuotientIs(n: nat, d: nat, q: nat)
    requires d > 0 && q * d <= n < (q + 1) * d
    ensures n / d == q
  {
    var k := n / d;
    MulLe(k + 1, q, d);
    MulLe(q + 1, k, d);
  }

  /** Scaling both sides by `d`: the product lies in the quotient's interval. */
  lemma MagicBounds(d: nat, n: nat, q: nat, m: nat, e: nat)
    requires d > 0 && q * d <= n < (q + 1) * d && m * d == SHIFT + e && n * e < SHIFT
    ensures q * SHIFT <= n * m < (q + 1) * SHIFT
  {
    var p := n * m;
    ScaledProduct(n, m, d, e);
    MulLe(q * d, n, SHIFT);
    MulLe(n + 1, (q + 1) * d, SHIFT);
    Distribute(n, 1, SHIFT);
    Commute(q, d, SHIFT);
    Commute(q + 1, d, SHIFT);
    MulLe(p + 1, q * SHIFT, d);
    MulLe((q + 1) * SHIFT, p, d);
    Distribute(p, 1, d);
  }

  lemma ScaledProduct(n: nat, m: nat, d: nat, e: nat)
    requires m * d == SHIFT + e
    ensures n * m * d == n * SHIFT + n * e
  {
    Associate(n, m, d);
    Distribute(SHIFT, e, n);
  }

  lemma Commute(q: nat, d: nat, s: nat)
    ensures q * d * s == q * s * d
  {
    Associate(q, d, s);
    Associate(q, s, d);
  }

  lemma Euclid(n: nat, d: nat)
    requires d > 0
    ensures n / d * d <= n < (n / d + 1) * d
  {
    Distribute(n / d, 1, d);
  }

  /** The multiply-and-shift result is the quotient, for every operand the quantizer can form. */
  lemma DivisionIsExact(total: nat, n: nat)
    requires total > 0 && n < total * (PROB_TOTAL + 1)
    ensures ExactDivisor.New(total).Div(n) == n / total
  {
    if total <= MAX_MAGIC_TOTAL {
      DivByMagic(total, n);
      hide ExactDivisor.Div, ExactDivisor.New;
      var e := MagicError(total);
      MagicQuotient(total, n, SHIFT / total + 1, e);
    }
  }

  lemma MagicQuotient(d: nat, n: nat, m: nat, e: nat)
    requires 0 < d <= MAX_MAGIC_TOTAL && n < d * (PROB_TOTAL + 1) && m * d == SHIFT + e && e <= d
    ensures n * m / SHIFT == n / d
  {
    ErrorIsSmall(d, n, e);
    Euclid(n, d);
    MagicAt(d, n, n / d, m, e);
  }

  lemma MagicAt(d: nat, n: nat, q: nat, m: nat, e: nat)
    requires d > 0 && q * d <= n < (q + 1) * d && m * d == SHIFT + e && n * e < SHIFT
    ensures n * m / SHIFT == q
  {
    MagicBounds(d, n, q, m, e);
    QuotientIs(n * m, SHIFT, q);
  }

  lemma DivByMagic(total: nat, n: nat)
    requires 0 < total <= MAX_MAGIC_TOTAL
    ensures ExactDivisor.New(total).Div(n) == n * (SHIFT / total + 1) / SHIFT
  {
  }

  // ---------------------------------------------------------------------------------------------
  // The table
  // ---------------------------------------------------------------------------------------------

  /** Largest count `load_state` accepts. */
  const MAX_COUNT: nat := 2_000_000
  const RESCALE_ABOVE: nat := 1_000_000
  const RESERVED: nat := 256
  const SCALABLE: nat := PROB_TOTAL - RESERVED

  ghost predicate IsCounts(c: seq<nat>) {
    |c| == 256 && forall i :: 0 <= i < 256 ==> 1 <= c[i] <= MAX_COUNT
  }

  type Counts = c: seq<nat> | IsCounts(c) ghost witness Repeat(1, 256)

  function Total(c: Counts): (t: nat)
    ensures 256 <= t <= 512_000_000
  {
    SumBounds(c, 1, MAX_COUNT, 0, 256);
    Sum(c, 0, 256)
  }

  function Scaled(cum: nat, total: nat): nat
    requires total > 0
  {
    cum * SCALABLE / total
  }

  lemma ScaledMonotone(a: nat, b: nat, total: nat)
    requires a <= b && total > 0
    ensures Scaled(a, total) <= Scaled(b, total)
  {
    MulLe(a, b, SCALABLE);
    QuotientMonotone(a * SCALABLE, b * SCALABLE, total);
  }

  lemma ScaledEnds(total: nat)
    requires total > 0
    ensures Scaled(0, total) == 0 && Scaled(total, total) == SCALABLE
  {
    var q := total * SCALABLE / total;
    MulLe(q + 1, SCALABLE, total);
    MulLe(SCALABLE + 1, q, total);
    assert q * total <= total * SCALABLE < (q + 1) * total;
  }

  /** One reserved unit per symbol, the rest in proportion to the counts below it. */
  function Boundary(c: Counts, s: nat): nat
    requires s <= 256
  {
    s + Scaled(Sum(c, 0, s), Total(c))
  }

  lemma QuotientMonotone(a: nat, b: nat, d: nat)
    requires a <= b && d > 0
    ensures a / d <= b / d
  {
    var q, r := a / d, b / d;
    MulLe(r + 1, q, d);
  }

  /** The table is a legal CDF in every state: nothing overshoots and no symbol vanishes. */
  lemma BoundariesRise(c: Counts, s: nat)
    requires s < 256
    ensures Boundary(c, s) < Boundary(c, s + 1)
  {
    ScaledMonotone(Sum(c, 0, s), Sum(c, 0, s + 1), Total(c));
  }

  lemma BoundaryEnds(c: Counts)
    ensures Boundary(c, 0) == 0 && Boundary(c, 256) == PROB_TOTAL
  {
    ScaledEnds(Total(c));
  }

  /** Boundary `s` is `s` plus the share of 32512 that the counts below `s` have, rounded down. */
  lemma BoundaryIsShare(c: Counts, s: nat)
    requires s <= 256
    ensures s <= Boundary(c, s)
    ensures (Boundary(c, s) - s) * Total(c) <= 32512 * Sum(c, 0, s) < (Boundary(c, s) - s + 1) * Total(c)
  {
    Euclid(Sum(c, 0, s) * SCALABLE, Total(c));
  }

  /** Beyond its reserved unit, an interval is its symbol's share of 32512, up to rounding. */
  lemma IntervalIsShare(c: Counts, b: byte)
    ensures var width := Boundary(c, b + 1) - Boundary(c, b);
            (width - 2) * Total(c) < 32512 * c[b] < width * Total(c)
  {
    var t: int, x, y := Total(c), Boundary(c, b) - b, Boundary(c, b + 1) - (b + 1);
    BoundaryIsShare(c, b);
    BoundaryIsShare(c, b + 1);
    Difference(x, y, t);
    Distribute(x, 1, t);
    Distribute(y, 1, t);
    Distribute(y - x - 1, 1, t);
    Distribute(y - x, 1, t);
  }

  lemma Difference(x: int, y: int, t: int)
    ensures (y - x) * t == y * t - x * t
  {
  }

  /** What `predict_cdf` returns. */
  function Table(c: Counts): (t: Cdf)
    ensures forall s :: 0 <= s <= 256 ==> t[s] == Boundary(c, s)
  {
    var t := seq(257, s requires 0 <= s < 257 => Boundary(c, s));
    BoundaryEnds(c);
    assert forall s :: 0 <= s < 256 ==> t[s] < t[s + 1] by {
      forall s | 0 <= s < 256 ensures t[s] < t[s + 1] { BoundariesRise(c, s); }
    }
    t
  }

  function Halved(c: seq<nat>): (h: seq<nat>)
    ensures |h| == |c|
    ensures forall i :: 0 <= i < |c| ==> h[i] == if c[i] / 2 > 1 then c[i] / 2 else 1
  {
    seq(|c|, i requires 0 <= i < |c| => if c[i] / 2 > 1 then c[i] / 2 else 1)
  }

  /** One more occurrence of `b`; all counts are halved when the total passes a million. */
  function Updated(c: Counts, b: byte): Counts {
    var d: seq<nat> := c[b := c[b] + 1];
    SumIncrement(c, b, 1, 0, 256);
    if Sum(d, 0, 256) > RESCALE_ABOVE then Halved(d) else
    assert forall i :: 0 <= i < 256 ==> 1 <= d[i] <= MAX_COUNT by { EachBelowSum(d, 256); }
    d
  }

  lemma {:induction false} EachBelowSum(d: seq<nat>, n: nat)
    requires n <= |d|
    ensures forall i :: 0 <= i < n ==> d[i] <= Sum(d, 0, n)
  {
    if n > 0 {
      EachBelowSum(d, n - 1);
    }
  }

  function Ones(): Counts {
    Repeat(1, 256)
  }

  /** The model as the range coder sees it, with the trait's default table search. */
  function Order0(): Predictor<Counts> {
    FromTable(Ones(), (c: Counts) => Table(c), (c: Counts, b: byte) => Updated(c, b))
  }

  /** `p` has this model's table and update. */
  ghost predicate IsOrder0(p: Predictor<Counts>) {
    && Lawful(p)
    && p.initial == Ones()
    && (forall c: Counts :: p.cdf(c) == Table(c))
    && (forall c: Counts, b: byte :: p.update(c, b) == Updated(c, b))
  }

  lemma Order0IsLawful()
    ensures IsOrder0(Order0())
  {
    TableDefaultsAreLawful(Ones(), (c: Counts) => Table(c), (c: Counts, b: byte) => Updated(c, b));
  }

  /** Below a million in total an update counts one byte; the one that goes beyond also halves every count. */
  lemma UpdateCountsOrHalves(c: Counts, b: byte)
    ensures var d: seq<nat> := c[b := c[b] + 1];
            forall i :: 0 <= i < 256 ==>
              Updated(c, b)[i] == if Total(c) + 1 <= 1_000_000 then d[i] else if d[i] >= 2 then d[i] / 2 else 1
    ensures Total(c) + 1 <= 1_000_000 ==> Total(Updated(c, b)) == Total(c) + 1
  {
    SumIncrement(c, b, 1, 0, 256);
  }

  /** Until the first halving every count is one more than its byte has occurred. */
  lemma {:induction false} CountsOccurrences(p: Predictor<Counts>, data: seq<byte>)
    requires IsOrder0(p) && 256 + |data| <= 1_000_000
    ensures forall b: byte :: After(p, p.initial, data)[b] == 1 + multiset(data)[b]
    ensures Total(After(p, p.initial, data)) == 256 + |data|
    decreases |data|
  {
    if data == [] {
      SumBounds(Ones(), 1, 1, 0, 256);
    } else {
      var front, last := data[..|data| - 1], data[|data| - 1];
      CountsOccurrences(p, front);
      UpdateCountsOrHalves(After(p, p.initial, front), last);
      assert data == front + [last];
    }
  }

  /** `quantize_boundary`. */
  function QuantizeBoundary(divisor: ExactDivisor, cum: nat, symbol: nat): nat
    requires divisor.exact || divisor.total > 0
  {
    symbol + divisor.Div(cum * SCALABLE)
  }

  /** Every operand the quantizer forms is in the range where division is exact. */
  lemma QuantizeBoundaryIsExact(total: nat, cum: nat, symbol: nat)
    requires total > 0 && cum <= total
    ensures QuantizeBoundary(ExactDivisor.New(total), cum, symbol) == symbol + Scaled(cum, total)
  {
    assert cum * SCALABLE < total * (PROB_TOTAL + 1) by {
      MulLe(cum, total, SCALABLE);
    }
    DivisionIsExact(total, cum * SCALABLE);
  }

  lemma QuantizeAt(c: Counts, s: nat)
    requires s <= 256
    ensures QuantizeBoundary(ExactDivisor.New(Total(c)), Sum(c, 0, s), s) == Boundary(c, s)
  {
    SumSplit(c, 0, s, 256);
    QuantizeBoundaryIsExact(Total(c), Sum(c, 0, s), s);
  }

  // ---------------------------------------------------------------------------------------------
  // The model object
  // ---------------------------------------------------------------------------------------------

  /** The payload `load_state` accepts: version 1, then 256 counts between 1 and 2 000 000. */
  predicate IsState(data: seq<byte>) {
    && |data| == 1 + 256 * 4
    && data[0] == 1
    && forall i :: 0 <= i < 256 ==> 1 <= CountAt(data, i) <= MAX_COUNT
  }

  function CountAt(data: seq<byte>, i: nat): nat
    requires |data| == 1 + 256 * 4 && i < 256
  {
    FromLe32(data[1 + i * 4..1 + i * 4 + 4])
  }

  function CountsOf(data: seq<byte>): Counts
    requires IsState(data)
  {
    seq(256, i requires 0 <= i < 256 => CountAt(data, i))
  }

  function CountBytes(c: seq<nat>): (s: seq<byte>)
    requires forall i :: 0 <= i < |c| ==> c[i] < TWO32
    ensures |s| == 4 * |c|
  {
    if c == [] then [] else CountBytes(c[..|c| - 1]) + ToLe32(c[|c| - 1])
  }

  /** `Order0Model`: counts, their Fenwick tree and their total, updated in place. */
  class Model {
    const counts: array<nat>
    const fenwick: array<nat>
    var total: nat

    ghost predicate Valid()
      reads this, counts, fenwick
    {
      && counts != fenwick
      && IsCounts(counts[..])
      && IsTree(fenwick[..], counts[..])
      && total == Sum(counts[..], 0, 256)
    }

    ghost function State(): Counts
      requires Valid()
      reads this, counts, fenwick
    {
      counts[..]
    }

    constructor ()
      ensures Valid() && fresh(counts) && fresh(fenwick) && State() == Ones()
    {
      counts := new nat[256](_ => 1);
      fenwick := new nat[256](_ => 0);
      total := 256;
      new;
      assert counts[..] == Ones();
      Rebuild(fenwick, counts);
      SumBounds(Ones(), 1, 1, 0, 256);
    }

    method Reset()
      requires Valid()
      modifies this, counts, fenwick
      ensures Valid() && State() == Ones()
    {
      forall i | 0 <= i < 256 {
        counts[i] := 1;
      }
      assert counts[..] == Ones();
      Rebuild(fenwick, counts);
      SumBounds(Ones(), 1, 1, 0, 256);
      total := 256;
    }

    /** The slow path: the whole table by a running sum. */
    method PredictCdf() returns (cdf: seq<nat>)
      requires Valid()
      ensures cdf == Table(State())
    {
      var divisor := ExactDivisor.New(total);
      var cum := 0;
      ghost var c := State();
      cdf := [];
      for i := 0 to 256
        invariant cum == Sum(c, 0, i)
        invariant |cdf| == i && forall s :: 0 <= s < i ==> cdf[s] == Boundary(c, s)
      {
        QuantizeAt(c, i);
        cdf := cdf + [QuantizeBoundary(divisor, cum, i)];
        cum := cum + counts[i];
      }
      BoundaryEnds(c);
      cdf := cdf + [PROB_TOTAL];
      assert cdf == Table(c);
    }

    /** The encoder's fast path agrees with the table. */
    method QueryCdf(b: byte) returns (lo: nat, hi: nat)
      requires Valid()
      ensures lo == Table(State())[b] && hi == Table(State())[b + 1]
      ensures (hi - lo - 2) * total < 32512 * counts[b] < (hi - lo) * total
    {
      ghost var c := State();
      IntervalIsShare(c, b);
      var divisor := ExactDivisor.New(total);
      var cum := Prefix(fenwick, c, b);
      QuantizeAt(c, b);
      lo := QuantizeBoundary(divisor, cum, b);
      var next: nat := b + 1 as int;
      if b == 255 {
        BoundaryEnds(c);
        hi := PROB_TOTAL;
      } else {
        QuantizeAt(c, next);
        hi := QuantizeBoundary(divisor, cum + counts[b], next);
      }
    }

    /** The decoder's fast path, eight lifting steps, finds what searching the table would. */
    method DecodeSymbol(f: freq) returns (b: byte, loValue: nat, hiValue: nat)
      requires Valid()
      ensures Resolves(Table(State()), f, (b, loValue, hiValue))
    {
      hide Boundary, QuantizeBoundary, Sum;
      ghost var c := State();
      var divisor := ExactDivisor.New(total);
      var lo: nat, cum: nat := 0, 0;
      SumNone(c);
      loValue, hiValue := 0, PROB_TOTAL;
      var step: nat := 128;
      BoundaryEnds(c);
      ghost var q: nat := 0;
      while step > 0
        invariant step in {0, 1, 2, 4, 8, 16, 32, 64, 128}
        invariant lo == q * Width(step) && lo + Width(step) <= 256
        invariant cum == Sum(c, 0, lo)
        invariant loValue == Boundary(c, lo) <= f < hiValue == Boundary(c, lo + Width(step))
      {
        var cand := lo + step;
        StepNode(fenwick[..], c, q, step);
        var candCum := cum + fenwick[cand - 1];
        QuantizeAt(c, cand);
        var midValue := QuantizeBoundary(divisor, candCum, cand);
        HalveStep(q, step);
        if midValue <= f {
          lo, cum, loValue := cand, candCum, midValue;
          q := 2 * q + 1;
        } else {
          hiValue := midValue;
          q := 2 * q;
        }
        step := step / 2;
      }
      b := lo;
    }

    method Update(b: byte)
      requires Valid()
      modifies this, counts, fenwick
      ensures Valid() && State() == Updated(old(State()), b)
    {
      ghost var c := State();
      ghost var d: seq<nat> := c[b := c[b] + 1];
      SumIncrement(c, b, 1, 0, 256);
      counts[b] := counts[b] + 1;
      total := total + 1;
      assert counts[..] == d;
      if total > RESCALE_ABOVE {
        Rescale();
      } else {
        Add(fenwick, c, b, 1);
        assert counts[..] == Updated(c, b);
      }
    }

    /** Halve every count, never below 1, and rebuild the tree. */
    method Rescale()
      requires counts != fenwick && counts.Length == fenwick.Length == 256
      requires forall i :: 0 <= i < 256 ==> 1 <= counts[i] <= MAX_COUNT + 1
      modifies this, counts, fenwick
      ensures Valid() && State() == Halved(old(counts[..]))
    {
      ghost var d := counts[..];
      ghost var h := Halved(d);
      total := 0;
      for i := 0 to 256
        invariant forall k :: 0 <= k < i ==> counts[k] == h[k]
        invariant forall k :: i <= k < 256 ==> counts[k] == d[k]
        invariant total == Sum(h, 0, i)
      {
        counts[i] := if counts[i] / 2 > 1 then counts[i] / 2 else 1;
        total := total + counts[i];
      }
      assert counts[..] == h;
      Rebuild(fenwick, counts);
    }

    method SaveState() returns (data: seq<byte>)
      requires Valid()
      ensures data == [1] + CountBytes(State())
    {
      data := [1];
      for i := 0 to 256
        invariant data == [1] + CountBytes(counts[..i])
      {
        assert counts[..i + 1][..i] == counts[..i];
        assert [1] + CountBytes(counts[..i]) + ToLe32(counts[i]) == [1] + (CountBytes(counts[..i]) + ToLe32(counts[i]));
        data := data + ToLe32(counts[i]);
      }
      assert counts[..256] == counts[..];
    }

    /** Accepts exactly the well-formed payloads; a rejected one changes nothing. */
    method LoadState(data: seq<byte>) returns (ok: bool)
      requires Valid()
      modifies this, counts, fenwick
      ensures ok == IsState(data)
      ensures Valid() && State() == if ok then CountsOf(data) else old(State())
    {
      if |data| != 1 + 256 * 4 || data[0] != 1 {
        return false;
      }
      var loaded: seq<nat> := [];
      var sum := 0;
      for i := 0 to 256
        invariant |loaded| == i
        invariant forall k :: 0 <= k < i ==> loaded[k] == CountAt(data, k) && 1 <= loaded[k] <= MAX_COUNT
        invariant sum == Sum(loaded, 0, i)
        invariant Valid() && State() == old(State())
      {
        var c := FromLe32(data[1 + i * 4..1 + i * 4 + 4]);
        assert c == CountAt(data, i);
        if c == 0 || c > MAX_COUNT {
          return false;
        }
        SumOfPrefix(loaded, c);
        loaded := loaded + [c];
        sum := sum + c;
      }
      SumBounds(loaded, 1, MAX_COUNT, 0, 256);
      if sum > 0xFFFF_FFFF {
        assert false;
      }
      forall i | 0 <= i < 256 {
        counts[i] := loaded[i];
      }
      assert counts[..] == loaded == CountsOf(data);
      Rebuild(fenwick, counts);
      total := sum;
      ok := true;
    }
  }

  lemma SumNone(c: Counts)
    ensures Sum(c, 0, 0) == 0 && Sum(c, 0, 256) == Total(c)
  {
  }

  lemma SumOfPrefix(s: seq<nat>, x: nat)
    ensures Sum(s + [x], 0, |s| + 1) == Sum(s, 0, |s|) + x
  {
    SumFrame(s, s + [x], |s|);
  }

  lemma {:induction false} SumFrame(s: seq<nat>, t: seq<nat>, n: nat)
    requires n <= |s| <= |t| && forall i :: 0 <= i < n ==> s[i] == t[i]
    ensures Sum(s, 0, n) == Sum(t, 0, n)
  {
    if n > 0 {
      SumFrame(s, t, n - 1);
    }
  }

  lemma {:induction false} CountBytesAt(c: seq<nat>, i: nat)
    requires i < |c| && forall i :: 0 <= i < |c| ==> c[i] < TWO32
    ensures CountBytes(c)[4 * i..4 * i + 4] == ToLe32(c[i])
  {
    var last := |c| - 1;
    if i < last {
      CountBytesAt(c[..last], i);
      assert CountBytes(c)[4 * i..4 * i + 4] == CountBytes(c[..last])[4 * i..4 * i + 4];
    }
  }

  /** Saving a reachable state always gives a payload that loads back to it. */
  lemma SaveLoadRoundTrip(c: Counts)
    ensures IsState([1] + CountBytes(c)) && CountsOf([1] + CountBytes(c)) == c
  {
    var data := [1] + CountBytes(c);
    forall i | 0 <= i < 256
      ensures CountAt(data, i) == c[i]
    {
      CountBytesAt(c, i);
      assert data[1 + i * 4..1 + i * 4 + 4] == CountBytes(c)[4 * i..4 * i + 4];
      Le32RoundTrip(c[i]);
    }
  }
}
