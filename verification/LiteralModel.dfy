/**
 The literal half of the RLE and SSM predictors (`entropy/rle_predictor.rs`, `entropy/neural_ssm.rs`):
 254 literals weighted by one or two count tables, plus two run symbols. Weights are arbitrary positive
 reals, standing for whatever the floating-point learning produced; the single-table predictor is the
 case where the second coefficient is zero.
 */
module LiteralModel {
  import opened Bytes
  import opened Fenwick
  import opened RangeEncoding
  import opened Predictors

  const NUM_LITS: nat := 254
  const SCALABLE: nat := PROB_TOTAL - 256

  /** Mass of RUNA and RUNB, per counted literal in each table, and the base mass of every literal. */
  datatype Weights = Weights(w0: real, w1: real, rleCoef: real, o2Coef: real, baseLit: real)

  predicate Positive(w: Weights) {
    w.w0 > 0.0 && w.w1 > 0.0 && w.rleCoef >= 0.0 && w.o2Coef >= 0.0 && w.baseLit > 0.0
  }

  ghost predicate IsLits(c: seq<nat>) {
    |c| == NUM_LITS
  }

  type Lits = c: seq<nat> | IsLits(c) ghost witness Repeat(0, NUM_LITS)

  function Zeros(): (c: Lits)
    ensures forall i :: 0 <= i < NUM_LITS ==> c[i] == 0
  {
    Repeat<nat>(0, NUM_LITS)
  }

  /** `lit_cumulative`, from running counts. */
  function LitCumulative(w: Weights, m: nat, rleCum: nat, o2Cum: nat): real {
    w.w0 + w.w1 + w.rleCoef * rleCum as real + w.o2Coef * o2Cum as real + m as real * w.baseLit
  }

  /** Mass of everything below literal `m`. */
  function Mass(w: Weights, r: Lits, o: Lits, m: nat): real
    requires m <= NUM_LITS
  {
    LitCumulative(w, m, Sum(r, 0, m), Sum(o, 0, m))
  }

  function TotalMass(w: Weights, r: Lits, o: Lits): real {
    Mass(w, r, o, NUM_LITS)
  }

  lemma ScaleMonotone(c: real, a: nat, b: nat)
    requires c >= 0.0 && a <= b
    ensures 0.0 <= c * a as real <= c * b as real
  {
    assert c * a as real >= 0.0;
    assert c * (b - a) as real >= 0.0;
    assert c * b as real == c * a as real + c * (b - a) as real;
  }

  lemma TimesPositive(a: real, b: real, t: real)
    requires t > 0.0
    ensures a < b ==> a * t < b * t
  {
    if a < b {
      assert (b - a) * t > 0.0;
    }
  }

  lemma MassRises(w: Weights, r: Lits, o: Lits, m: nat)
    requires Positive(w) && m < NUM_LITS
    ensures 0.0 < Mass(w, r, o, m) < Mass(w, r, o, m + 1)
  {
    hide Sum, LitCumulative;
    var a, b := Sum(r, 0, m), Sum(r, 0, m + 1);
    var c, d := Sum(o, 0, m), Sum(o, 0, m + 1);
    SumRises(r, m);
    SumRises(o, m);
    ScaleMonotone(w.rleCoef, a, b);
    ScaleMonotone(w.o2Coef, c, d);
    BaseStep(m, w.baseLit);
    AddUp(w.w0, w.w1, w.rleCoef * a as real, w.o2Coef * c as real, m as real * w.baseLit,
          w.rleCoef * b as real, w.o2Coef * d as real, (m + 1) as real * w.baseLit);
    CumulativeIs(w, m, a, c);
    CumulativeIs(w, m + 1, b, d);
  }

  lemma SumRises(c: Lits, m: nat)
    requires m < NUM_LITS
    ensures Sum(c, 0, m) <= Sum(c, 0, m + 1)
  {
  }

  lemma CumulativeIs(w: Weights, m: nat, r: nat, o: nat)
    ensures LitCumulative(w, m, r, o)
            == w.w0 + w.w1 + w.rleCoef * r as real + w.o2Coef * o as real + m as real * w.baseLit
  {
  }

  lemma AddUp(w0: real, w1: real, r: real, o: real, b: real, r': real, o': real, b': real)
    requires w0 > 0.0 && w1 > 0.0 && 0.0 <= r <= r' && 0.0 <= o <= o' && 0.0 <= b < b'
    ensures 0.0 < w0 + w1 + r + o + b < w0 + w1 + r' + o' + b'
  {
  }

  lemma BaseStep(m: nat, b: real)
    requires b > 0.0
    ensures 0.0 <= m as real * b < (m + 1) as real * b
  {
    var k := m as real;
    assert k * b >= 0.0;
    assert (m + 1) as real == k + 1.0;
    assert (k + 1.0) * b == k * b + b;
  }

  lemma {:induction false} MassBelowTotal(w: Weights, r: Lits, o: Lits, m: nat)
    requires Positive(w) && m <= NUM_LITS
    ensures 0.0 < Mass(w, r, o, m) <= TotalMass(w, r, o)
    ensures m < NUM_LITS ==> Mass(w, r, o, m) < TotalMass(w, r, o)
    decreases NUM_LITS - m
  {
    if m < NUM_LITS {
      MassRises(w, r, o, m);
      MassBelowTotal(w, r, o, m + 1);
    } else {
      MassRises(w, r, o, m - 1);
    }
  }

  /** `quantized_boundary`, clamp included. */
  function Quantized(mass: real, total: real, symbol: nat): (v: nat)
    requires total > 0.0 && mass >= 0.0
    ensures v <= PROB_TOTAL
  {
    ShareNonNegative(mass, total);
    var v := symbol + (mass * SCALABLE as real / total).Floor;
    if v < PROB_TOTAL then v else PROB_TOTAL
  }

  lemma ShareNonNegative(mass: real, total: real)
    requires total > 0.0 && mass >= 0.0
    ensures mass * SCALABLE as real / total >= 0.0
  {
    assert mass * SCALABLE as real >= 0.0;
  }

  lemma ShareMonotone(a: real, b: real, total: real)
    requires 0.0 <= a <= b && total > 0.0
    ensures a * SCALABLE as real / total <= b * SCALABLE as real / total
  {
    DivideMonotone(a * SCALABLE as real, b * SCALABLE as real, total);
  }

  lemma DivideMonotone(a: real, b: real, t: real)
    requires a <= b && t > 0.0
    ensures a / t <= b / t
  {
    var x, y := a / t, b / t;
    assert x * t == a && y * t == b;
    TimesPositive(y, x, t);
  }

  /** No boundary below the last symbol reaches the clamp. */
  lemma ShareBelow(mass: real, total: real)
    requires 0.0 <= mass < total
    ensures mass * SCALABLE as real / total < SCALABLE as real
  {
    var x := mass * SCALABLE as real / total;
    var s := SCALABLE as real;
    assert x * total == mass * s;
    TimesPositive(mass, total, s);
    TimesPositive(s, x, total);
  }

  lemma QuantizedRises(a: real, b: real, total: real, symbol: nat)
    requires 0.0 <= a <= b < total && symbol < 255
    ensures Quantized(a, total, symbol) < Quantized(b, total, symbol + 1) < PROB_TOTAL
  {
    ShareMonotone(a, b, total);
    ShareBelow(b, total);
  }

  /** Entry `s` of the table. */
  function Boundary(w: Weights, r: Lits, o: Lits, s: nat): nat
    requires Positive(w) && s <= 256
  {
    MassBelowTotal(w, r, o, 0);
    if s == 0 then 0
    else if s == 256 then PROB_TOTAL
    else if s == 1 then Quantized(w.w0, TotalMass(w, r, o), 1)
    else
      MassBelowTotal(w, r, o, s - 2);
      Quantized(Mass(w, r, o, s - 2), TotalMass(w, r, o), s)
  }

  lemma BoundariesRise(w: Weights, r: Lits, o: Lits, s: nat)
    requires Positive(w) && s < 256
    ensures Boundary(w, r, o, s) < Boundary(w, r, o, s + 1)
  {
    var t := TotalMass(w, r, o);
    MassBelowTotal(w, r, o, 0);
    RunMass(w, r, o);
    if s == 0 {
      QuantizedRises(0.0, w.w0, t, 0);
    } else if s == 1 {
      QuantizedRises(w.w0, Mass(w, r, o, 0), t, 1);
    } else if s < 255 {
      MassRises(w, r, o, s - 2);
      MassBelowTotal(w, r, o, s - 1);
      QuantizedRises(Mass(w, r, o, s - 2), Mass(w, r, o, s - 1), t, s);
    } else {
      MassRises(w, r, o, 252);
      MassBelowTotal(w, r, o, 253);
      QuantizedRises(Mass(w, r, o, 252), Mass(w, r, o, 253), t, 254);
    }
  }

  lemma RunMass(w: Weights, r: Lits, o: Lits)
    requires Positive(w)
    ensures Mass(w, r, o, 0) == w.w0 + w.w1
  {
    assert w.rleCoef * 0.0 == 0.0 && w.o2Coef * 0.0 == 0.0 && 0.0 * w.baseLit == 0.0;
  }

  /** Mass of everything below symbol `s`. */
  function Below(w: Weights, r: Lits, o: Lits, s: nat): real
    requires s <= 256
  {
    if s == 0 then 0.0 else if s == 1 then w.w0 else Mass(w, r, o, s - 2)
  }

  /** `x` is what `a` of `t` is of 32512, rounded down. */
  ghost predicate InShare(x: real, a: real, t: real) {
    x * t <= 32512.0 * a < x * t + t
  }

  /** Beyond its reserved unit, the interval from `lo` to `hi` is what `mass` of `t` is of 32512, up to rounding. */
  ghost predicate IsShare(lo: nat, hi: nat, mass: real, t: real) {
    var width := hi as real - lo as real;
    (width - 2.0) * t < 32512.0 * mass < width * t
  }

  lemma FloorIsShare(mass: real, total: real, share: real)
    requires total > 0.0 && share * total == 32512.0 * mass
    ensures InShare(share.Floor as real, mass, total)
  {
    var x := share.Floor as real;
    var p, q := 32512.0 * mass, x * total;
    hide InShare;
    NotAbove(x, share, total, p, q);
    BelowNext(x, x + 1.0, share, total, p, q);
    ShareFrom(x, mass, total, p, q);
  }

  lemma ShareFrom(x: real, mass: real, total: real, p: real, q: real)
    requires q <= p < q + total && p == 32512.0 * mass && q == x * total
    ensures InShare(x, mass, total)
  {
  }

  lemma NotAbove(x: real, share: real, total: real, p: real, q: real)
    requires total > 0.0 && x <= share && p == share * total && q == x * total
    ensures q <= p
  {
    if x < share {
      TimesPositive(x, share, total);
    } else {
      assert x == share;
    }
  }

  lemma BelowNext(x: real, next: real, share: real, total: real, p: real, q: real)
    requires total > 0.0 && share < next == x + 1.0 && p == share * total && q == x * total
    ensures p < q + total
  {
    TimesPositive(share, next, total);
    OneMore(x, next, total);
  }

  lemma OneMore(x: real, next: real, total: real)
    requires next == x + 1.0
    ensures next * total == x * total + total
  {
  }

  lemma QuantizedIs(mass: real, total: real, s: nat)
    requires 0.0 <= mass < total && s < 256
    ensures s <= Quantized(mass, total, s)
    ensures InShare((Quantized(mass, total, s) - s) as real, mass, total)
  {
    hide InShare;
    var share := mass * SCALABLE as real / total;
    ShareNonNegative(mass, total);
    ShareBelow(mass, total);
    FloorIsShare(mass, total, share);
    assert Quantized(mass, total, s) == s + share.Floor;
  }

  lemma EndIsShare(t: real)
    requires t > 0.0
    ensures InShare(0.0, 0.0, t) && InShare(32512.0, t, t)
  {
  }

  /** Boundary `s` is `s` plus the share of 32512 that the mass below `s` has, rounded down. */
  lemma BoundaryIsShare(w: Weights, r: Lits, o: Lits, s: nat)
    requires Positive(w) && s <= 256
    ensures s <= Boundary(w, r, o, s)
    ensures InShare((Boundary(w, r, o, s) - s) as real, Below(w, r, o, s), TotalMass(w, r, o))
  {
    hide Quantized, LitCumulative, InShare;
    var t := TotalMass(w, r, o);
    MassBelowTotal(w, r, o, 0);
    RunMass(w, r, o);
    EndIsShare(t);
    if s == 1 {
      QuantizedIs(w.w0, t, 1);
    } else if 1 < s < 256 {
      MassBelowTotal(w, r, o, s - 2);
      QuantizedIs(Mass(w, r, o, s - 2), t, s);
    }
  }

  lemma SharesDiffer(lo: nat, hi: nat, b: nat, a: real, c: real, t: real)
    requires b <= lo && b + 1 <= hi && InShare((lo - b) as real, a, t) && InShare((hi - (b + 1)) as real, c, t)
    ensures IsShare(lo, hi, c - a, t)
  {
    var x, y := (lo - b) as real, (hi - (b + 1)) as real;
    assert (hi as real - lo as real) - 2.0 == y - x - 1.0;
    assert (y - x - 1.0) * t == y * t - x * t - t;
    assert (y - x + 1.0) * t == y * t - x * t + t;
  }

  /** The mass of a run symbol is its weight, that of a literal what its counts and the base mass give. */
  function Own(w: Weights, r: Lits, o: Lits, b: byte): real {
    if b == 0 then w.w0 else if b == 1 then w.w1
    else w.rleCoef * r[b - 2] as real + w.o2Coef * o[b - 2] as real + w.baseLit
  }

  function Whole(w: Weights, r: Lits, o: Lits): real {
    w.w0 + w.w1 + w.rleCoef * Sum(r, 0, 254) as real + w.o2Coef * Sum(o, 0, 254) as real + 254.0 * w.baseLit
  }

  /** Every interval of the table is its symbol's share. */
  lemma IntervalIsShare(w: Weights, r: Lits, o: Lits, b: byte)
    requires Positive(w)
    ensures IsShare(Boundary(w, r, o, b), Boundary(w, r, o, b + 1), Own(w, r, o, b), Whole(w, r, o))
  {
    BoundaryIsShare(w, r, o, b);
    BoundaryIsShare(w, r, o, b + 1);
    OwnMass(w, r, o, b);
    WholeMass(w, r, o);
    hide Boundary, Below, InShare, IsShare, TotalMass, Own, Whole;
    SharesDiffer(Boundary(w, r, o, b), Boundary(w, r, o, b + 1), b, Below(w, r, o, b), Below(w, r, o, b + 1),
                 TotalMass(w, r, o));
  }

  lemma WholeMass(w: Weights, r: Lits, o: Lits)
    ensures TotalMass(w, r, o) == Whole(w, r, o)
  {
  }

  lemma OwnMass(w: Weights, r: Lits, o: Lits, b: byte)
    requires Positive(w)
    ensures Below(w, r, o, b + 1) - Below(w, r, o, b) == Own(w, r, o, b)
  {
    RunMass(w, r, o);
    if b >= 2 {
      OwnLiteral(w, r, o, b - 2);
    }
  }

  lemma OwnLiteral(w: Weights, r: Lits, o: Lits, m: nat)
    requires m < NUM_LITS
    ensures Mass(w, r, o, m + 1) - Mass(w, r, o, m) == w.rleCoef * r[m] as real + w.o2Coef * o[m] as real + w.baseLit
  {
    Spread(w.rleCoef, Sum(r, 0, m) as real, r[m] as real);
    Spread(w.o2Coef, Sum(o, 0, m) as real, o[m] as real);
    Spread(w.baseLit, m as real, 1.0);
    assert Sum(r, 0, m + 1) as real == Sum(r, 0, m) as real + r[m] as real;
    assert Sum(o, 0, m + 1) as real == Sum(o, 0, m) as real + o[m] as real;
  }

  lemma Spread(k: real, a: real, b: real)
    ensures k * (a + b) == k * a + k * b
  {
  }

  /** What `predict_cdf` returns: a legal table for all positive weights and all counts. */
  function Table(w: Weights, r: Lits, o: Lits): (t: Cdf)
    requires Positive(w)
    ensures forall s :: 0 <= s <= 256 ==> t[s] == Boundary(w, r, o, s)
  {
    var t := seq(257, s requires 0 <= s < 257 => Boundary(w, r, o, s));
    assert forall s :: 0 <= s < 256 ==> t[s] < t[s + 1] by {
      forall s | 0 <= s < 256 ensures t[s] < t[s + 1] { BoundariesRise(w, r, o, s); }
    }
    t
  }

  // ---------------------------------------------------------------------------------------------
  // Counts in place
  // ---------------------------------------------------------------------------------------------

  function Halved(c: Lits): (h: Lits)
    ensures forall i :: 0 <= i < NUM_LITS ==> h[i] == c[i] / 2
  {
    seq(NUM_LITS, i requires 0 <= i < NUM_LITS => c[i] / 2)
  }

  /** One more occurrence of a literal; all counts are halved when the total passes `limit`. */
  function Bumped(c: Lits, idx: nat, limit: nat): Lits
    requires idx < NUM_LITS
  {
    var d: seq<nat> := c[idx := c[idx] + 1];
    if Sum(d, 0, NUM_LITS) > limit then Halved(d) else d
  }

  /** Up to `limit` literals a bump counts one; the one that goes beyond also halves every count. */
  lemma BumpCountsOrHalves(c: Lits, idx: nat, limit: nat)
    requires idx < NUM_LITS
    ensures var d: seq<nat> := c[idx := c[idx] + 1];
            var t := Sum(c, 0, NUM_LITS);
            && (forall i :: 0 <= i < NUM_LITS ==> Bumped(c, idx, limit)[i] == if t + 1 > limit then d[i] / 2 else d[i])
            && (t + 1 <= limit ==> Sum(Bumped(c, idx, limit), 0, NUM_LITS) == t + 1)
  {
    SumIncrement(c, idx, 1, 0, NUM_LITS);
  }

  /** One context's counts with their Fenwick tree and total. */
  class LitTable {
    const counts: array<nat>
    const tree: array<nat>
    var total: nat

    ghost predicate Valid()
      reads this, counts, tree
    {
      && counts != tree && counts.Length == NUM_LITS
      && IsTree(tree[..], counts[..])
      && total == Sum(counts[..], 0, NUM_LITS)
    }

    ghost function State(): Lits
      requires Valid()
      reads this, counts, tree
    {
      counts[..]
    }

    constructor ()
      ensures Valid() && fresh(counts) && fresh(tree) && State() == Zeros()
    {
      counts := new nat[NUM_LITS](_ => 0);
      tree := new nat[NUM_LITS](_ => 0);
      total := 0;
      new;
      assert counts[..] == Zeros();
      Rebuild(tree, counts);
      SumBounds(counts[..], 0, 0, 0, NUM_LITS);
    }

    /** Counts and tree are filled with zeros. */
    method Clear()
      requires Valid()
      modifies this, counts, tree
      ensures Valid() && State() == Zeros()
    {
      forall i | 0 <= i < NUM_LITS {
        counts[i] := 0;
      }
      forall i | 0 <= i < NUM_LITS {
        tree[i] := 0;
      }
      total := 0;
      assert counts[..] == Zeros();
      ZeroTree(tree[..], counts[..]);
    }

    method Bump(idx: nat, limit: nat)
      requires Valid() && idx < NUM_LITS
      modifies this, counts, tree
      ensures Valid() && State() == Bumped(old(State()), idx, limit)
    {
      ghost var c: seq<nat> := counts[..];
      ghost var d: seq<nat> := c[idx := c[idx] + 1];
      SumIncrement(c, idx, 1, 0, NUM_LITS);
      counts[idx] := counts[idx] + 1;
      total := total + 1;
      assert counts[..] == d;
      if total > limit {
        Rescale();
      } else {
        Add(tree, c, idx, 1);
      }
    }

    method Rescale()
      requires counts != tree && counts.Length == tree.Length == NUM_LITS
      modifies this, counts, tree
      ensures Valid() && State() == Halved(old(counts[..]))
    {
      ghost var d := counts[..];
      ghost var h := Halved(d);
      total := 0;
      for i := 0 to NUM_LITS
        invariant forall k :: 0 <= k < i ==> counts[k] == h[k]
        invariant forall k :: i <= k < NUM_LITS ==> counts[k] == d[k]
        invariant total == Sum(h, 0, i)
      {
        counts[i] := counts[i] / 2;
        total := total + counts[i];
      }
      assert counts[..] == h;
      Rebuild(tree, counts);
    }
  }

  // ---------------------------------------------------------------------------------------------
  // Prediction
  // ---------------------------------------------------------------------------------------------

  lemma BoundaryAt(w: Weights, r: Lits, o: Lits, m: nat)
    requires Positive(w) && m < NUM_LITS
    ensures TotalMass(w, r, o) > 0.0 && Mass(w, r, o, m) >= 0.0
    ensures Boundary(w, r, o, 2 + m) == Quantized(Mass(w, r, o, m), TotalMass(w, r, o), 2 + m)
  {
    MassBelowTotal(w, r, o, m);
  }

  lemma RunBoundaries(w: Weights, r: Lits, o: Lits)
    requires Positive(w)
    ensures TotalMass(w, r, o) > 0.0
    ensures Boundary(w, r, o, 1) == Quantized(w.w0, TotalMass(w, r, o), 1)
    ensures Boundary(w, r, o, 2) == Quantized(w.w0 + w.w1, TotalMass(w, r, o), 2)
  {
    RunMass(w, r, o);
    MassBelowTotal(w, r, o, 0);
  }

  /** The normaliser the predictors compute without a loop. */
  lemma TotalIsAnalytic(w: Weights, r: LitTable, o: LitTable)
    requires r.Valid() && o.Valid()
    ensures TotalMass(w, r.State(), o.State()) == LitCumulative(w, NUM_LITS, r.total, o.total)
  {
  }

  /** The slow path: the whole table by running sums. */
  method PredictCdf(w: Weights, r: LitTable, o: LitTable) returns (cdf: seq<nat>)
    requires Positive(w) && r.Valid() && o.Valid()
    ensures cdf == Table(w, r.State(), o.State())
  {
    ghost var rc, oc := r.State(), o.State();
    var total := LitCumulative(w, NUM_LITS, r.total, o.total);
    RunBoundaries(w, rc, oc);
    cdf := [0, Quantized(w.w0, total, 1)];
    var rleCum: nat, o2Cum: nat := 0, 0;
    for m := 0 to NUM_LITS
      invariant rleCum == Sum(rc, 0, m) && o2Cum == Sum(oc, 0, m)
      invariant |cdf| == 2 + m && forall s :: 0 <= s < |cdf| ==> cdf[s] == Boundary(w, rc, oc, s)
    {
      BoundaryAt(w, rc, oc, m);
      cdf := cdf + [Quantized(LitCumulative(w, m, rleCum, o2Cum), total, 2 + m)];
      rleCum := rleCum + r.counts[m];
      o2Cum := o2Cum + o.counts[m];
    }
    cdf := cdf + [PROB_TOTAL];
    assert cdf == Table(w, rc, oc);
  }

  /** The encoder's fast path: constant time for run symbols, two prefix sums for a literal. */
  method QueryCdf(w: Weights, r: LitTable, o: LitTable, b: byte) returns (lo: nat, hi: nat)
    requires Positive(w) && r.Valid() && o.Valid()
    ensures lo == Table(w, r.State(), o.State())[b] && hi == Table(w, r.State(), o.State())[b + 1]
    ensures IsShare(lo, hi, Own(w, r.State(), o.State(), b), Whole(w, r.State(), o.State()))
  {
    hide IsShare, Own, Whole;
    ghost var rc, oc := r.State(), o.State();
    IntervalIsShare(w, rc, oc, b);
    var total := LitCumulative(w, NUM_LITS, r.total, o.total);
    RunBoundaries(w, rc, oc);
    if b == 0 {
      return 0, Quantized(w.w0, total, 1);
    }
    if b == 1 {
      return Quantized(w.w0, total, 1), Quantized(w.w0 + w.w1, total, 2);
    }
    var m: nat := b - 2;
    var rleCum := Prefix(r.tree, rc, m);
    var o2Cum := Prefix(o.tree, oc, m);
    BoundaryAt(w, rc, oc, m);
    lo := Quantized(LitCumulative(w, m, rleCum, o2Cum), total, 2 + m);
    if b == 255 {
      hi := PROB_TOTAL;
    } else {
      BoundaryAt(w, rc, oc, m + 1);
      hi := Quantized(LitCumulative(w, m + 1, rleCum + r.counts[m], o2Cum + o.counts[m]), total, 3 + m);
    }
  }

  /** Where the lifting interval that starts at `lo` ends. */
  function Ceiling(lo: nat, step: nat): nat {
    if lo + Width(step) < NUM_LITS then lo + Width(step) else NUM_LITS
  }

  /** What the lifting loop knows: the literal is at least `lo` and below the interval's end. */
  ghost predicate Lifted(w: Weights, r: Lits, o: Lits, f: nat, q: nat, lo: nat, step: nat, rleCum: nat, o2Cum: nat,
                         loValue: nat, hiValue: nat)
    requires Positive(w)
  {
    && step in {0, 1, 2, 4, 8, 16, 32, 64, 128}
    && lo == q * Width(step) && lo < NUM_LITS
    && rleCum == Sum(r, 0, lo) && o2Cum == Sum(o, 0, lo)
    && loValue == Boundary(w, r, o, 2 + lo) <= f < hiValue == Boundary(w, r, o, 2 + Ceiling(lo, step))
  }

  /** The decoder's fast path: eight lifting steps over both trees at once. */
  method DecodeSymbol(w: Weights, r: LitTable, o: LitTable, f: freq) returns (b: byte, lo: nat, hi: nat)
    requires Positive(w) && r.Valid() && o.Valid()
    ensures Resolves(Table(w, r.State(), o.State()), f, (b, lo, hi))
  {
    ghost var rc, oc := r.State(), o.State();
    var total := LitCumulative(w, NUM_LITS, r.total, o.total);
    RunBoundaries(w, rc, oc);
    var b1 := Quantized(w.w0, total, 1);
    if f < b1 {
      return 0, 0, b1;
    }
    var b2 := Quantized(w.w0 + w.w1, total, 2);
    if f < b2 {
      return 1, b1, b2;
    }
    var m;
    m, lo, hi := Lift(w, r, o, f, total, b2);
    b := 2 + m;
  }

  method Lift(w: Weights, r: LitTable, o: LitTable, f: freq, total: real, b2: nat)
    returns (lo: nat, loValue: nat, hiValue: nat)
    requires Positive(w) && r.Valid() && o.Valid()
    requires total == TotalMass(w, r.State(), o.State()) && b2 == Boundary(w, r.State(), o.State(), 2) <= f
    ensures lo < NUM_LITS
    ensures loValue == Boundary(w, r.State(), o.State(), 2 + lo) <= f
    ensures f < hiValue == Boundary(w, r.State(), o.State(), 3 + lo)
  {
    ghost var rc, oc := r.State(), o.State();
    lo, loValue, hiValue := 0, b2, PROB_TOTAL;
    var rleCum: nat, o2Cum: nat := 0, 0;
    var step: nat := 128;
    ghost var q: nat := 0;
    while step > 0
      invariant Lifted(w, rc, oc, f, q, lo, step, rleCum, o2Cum, loValue, hiValue)
    {
      q, lo, rleCum, o2Cum, loValue, hiValue :=
        LiftStep(w, r, o, f, total, q, lo, step, rleCum, o2Cum, loValue, hiValue);
      step := step / 2;
    }
  }

  method LiftStep(w: Weights, r: LitTable, o: LitTable, f: freq, total: real, ghost q: nat, lo: nat, step: nat,
                  rleCum: nat, o2Cum: nat, loValue: nat, hiValue: nat)
      returns (ghost q': nat, lo': nat, rleCum': nat, o2Cum': nat, loValue': nat, hiValue': nat)
    requires Positive(w) && r.Valid() && o.Valid() && total == TotalMass(w, r.State(), o.State())
    requires step > 0 && Lifted(w, r.State(), o.State(), f, q, lo, step, rleCum, o2Cum, loValue, hiValue)
    ensures Lifted(w, r.State(), o.State(), f, q', lo', step / 2, rleCum', o2Cum', loValue', hiValue')
  {
    hide Quantized, Boundary, LitCumulative, Sum;
    q', lo', rleCum', o2Cum', loValue', hiValue' := 2 * q, lo, rleCum, o2Cum, loValue, hiValue;
    HalveStep(q, step);
    var cand := lo + step;
    if cand < NUM_LITS {
      ghost var rc, oc := r.State(), o.State();
      StepNode(r.tree[..], rc, q, step);
      StepNode(o.tree[..], oc, q, step);
      var candRle := rleCum + r.tree[cand - 1];
      var candO2 := o2Cum + o.tree[cand - 1];
      BoundaryAt(w, rc, oc, cand);
      var mid := Quantized(LitCumulative(w, cand, candRle, candO2), total, 2 + cand);
      if mid <= f {
        q', lo', rleCum', o2Cum', loValue' := 2 * q + 1, cand, candRle, candO2, mid;
      } else {
        hiValue' := mid;
      }
    }
  }
}
