/** The run-length context predictor (`entropy/rle_predictor.rs`), in real arithmetic. */
module RlePrediction {
  import opened Bytes
  import opened Fenwick
  import opened RangeEncoding
  import opened Predictors
  import opened LiteralModel
  import opened TableBanks

  const CTX_START: nat := 0
  const CTX_IN_RUN: nat := 1
  const CTX_AFTER_LIT: nat := 2
  const NUM_CONTEXTS: nat := 3
  const RLE_LIMIT: nat := 500_000

  // ---------------------------------------------------------------------------------------------
  // Binary counters
  // ---------------------------------------------------------------------------------------------

  /** `BinaryModel`. */
  datatype Binary = Binary(yes: nat, total: nat) {
    ghost predicate InBounds() {
      yes <= total <= RLE_LIMIT
    }

    function PYes(): real {
      (yes as real + 0.5) / (total as real + 1.0)
    }

    /** One decision more, halved past the limit and then clamped. */
    function Counted(isYes: bool): Binary {
      var y := if isYes then yes + 1 else yes;
      if total + 1 > RLE_LIMIT then
        Binary(if y / 2 > (total + 1) / 2 then (total + 1) / 2 else y / 2, (total + 1) / 2)
      else Binary(y, total + 1)
    }
  }

  type Counter = b: Binary | b.InBounds() witness Binary(0, 0)

  lemma QuotientBetween(a: real, b: real)
    requires a > 0.0 && b > 0.0
    ensures 0.0 < a / b
    ensures a < b ==> a / b < 1.0
  {
    var q := a / b;
    assert q * b == a;
    TimesPositive(q, 0.0, b);
    TimesPositive(1.0, q, b);
  }

  /** Counting keeps `yes` within `total` and `total` within the limit, so the clamp never acts. */
  lemma CountedStaysInBounds(b: Counter, isYes: bool)
    ensures var c, y := b.Counted(isYes), b.yes + if isYes then 1 else 0;
            && c.InBounds()
            && c == if b.total == 500_000 then Binary(y / 2, 250_000) else Binary(y, b.total + 1)
  {
  }

  /** The probability of a counter is strictly between 0 and 1. */
  lemma BinaryStaysBetween(b: Counter)
    ensures 0.0 < b.PYes() < 1.0
  {
    QuotientBetween(b.yes as real + 0.5, b.total as real + 1.0);
  }

  function AtLeastMin(x: real): real {
    if x > 0.000_001 then x else 0.000_001
  }

  /** The RLE predictor's weights from its own counters, in real arithmetic. */
  function RleWeights(run: Binary, runa: Binary, litTotal: nat): (w: Weights)
    ensures Positive(w) && w.o2Coef == 0.0
  {
    var denominator := litTotal as real + 25.4;
    var mass := AtLeastMin(1.0 - run.PYes());
    QuotientBetween(mass, denominator);
    var coefficient := mass / denominator;
    Weights(AtLeastMin(run.PYes() * runa.PYes()), AtLeastMin(run.PYes() * (1.0 - runa.PYes())), coefficient, 0.0,
            coefficient * 0.1)
  }

  // ---------------------------------------------------------------------------------------------
  // The predictor as a value
  // ---------------------------------------------------------------------------------------------

  /** Per context: run or literal, RUNA or RUNB, literal counts; and the current context. */
  datatype RleState = RleState(run: seq<Counter>, runa: seq<Counter>, lits: seq<Lits>, ctx: nat) {
    ghost predicate WellFormed() {
      |run| == |runa| == |lits| == NUM_CONTEXTS && ctx < NUM_CONTEXTS
    }
  }

  type Rle = s: RleState | s.WellFormed() ghost witness Untrained()

  function NewCounters(): (c: seq<Counter>)
    ensures |c| == NUM_CONTEXTS
  {
    Repeat<Counter>(Binary(0, 0), NUM_CONTEXTS)
  }

  function Untrained(): (s: RleState)
    ensures s.WellFormed()
  {
    RleState(NewCounters(), NewCounters(), Empty(NUM_CONTEXTS), CTX_START)
  }

  /** The weights of the current context. */
  function Weighed(s: Rle): (w: Weights)
    ensures Positive(w) && w.o2Coef == 0.0
  {
    RleWeights(s.run[s.ctx], s.runa[s.ctx], Sum(s.lits[s.ctx], 0, NUM_LITS))
  }

  /** One count table only; the second operand has weight zero. */
  function RleTable(s: Rle): Cdf {
    Table(Weighed(s), s.lits[s.ctx], s.lits[s.ctx])
  }

  function Counted(c: seq<Counter>, ctx: nat, isYes: bool): (d: seq<Counter>)
    requires ctx < |c|
    ensures |d| == |c|
  {
    CountedStaysInBounds(c[ctx], isYes);
    c[ctx := c[ctx].Counted(isYes)]
  }

  /** One byte more: everything is counted in the context the byte was predicted in. */
  function RleLearned(s: Rle, b: byte): Rle {
    if b <= 1 then
      RleState(Counted(s.run, s.ctx, true), Counted(s.runa, s.ctx, b == 0), s.lits, CTX_IN_RUN)
    else
      RleState(Counted(s.run, s.ctx, false), s.runa, s.lits[s.ctx := Bumped(s.lits[s.ctx], b - 2, RLE_LIMIT)],
               CTX_AFTER_LIT)
  }

  function RleDefault(): Predictor<Rle> {
    FromTable<Rle>(Untrained(), (s: Rle) => RleTable(s), (s: Rle, b: byte) => RleLearned(s, b))
  }

  /** `p` has this predictor's table and update, however it queries and searches. */
  ghost predicate IsRle(p: Predictor<Rle>) {
    && Lawful(p)
    && p.initial == Untrained()
    && (forall s: Rle :: p.cdf(s) == RleTable(s))
    && (forall s: Rle, b: byte :: p.update(s, b) == RleLearned(s, b))
  }

  lemma RleIsLawful()
    ensures IsRle(RleDefault())
  {
    TableDefaultsAreLawful<Rle>(Untrained(), (s: Rle) => RleTable(s), (s: Rle, b: byte) => RleLearned(s, b));
  }

  // ---------------------------------------------------------------------------------------------
  // The intervals are the chances of the hierarchical model
  // ---------------------------------------------------------------------------------------------

  /** The chance of a run symbol in the current context. */
  function RunChance(s: Rle): real {
    (s.run[s.ctx].yes as real + 0.5) / (s.run[s.ctx].total as real + 1.0)
  }

  /** The chance that a run symbol is RUNA. */
  function RunaChance(s: Rle): real {
    (s.runa[s.ctx].yes as real + 0.5) / (s.runa[s.ctx].total as real + 1.0)
  }

  /** Run or literal, then which; each of the three outcomes is worth at least a millionth. */
  function Chance(s: Rle, b: byte): real {
    var lits := s.lits[s.ctx];
    if b == 0 then AtLeastMin(RunChance(s) * RunaChance(s))
    else if b == 1 then AtLeastMin(RunChance(s) * (1.0 - RunaChance(s)))
    else AtLeastMin(1.0 - RunChance(s)) * ((lits[b - 2] as real + 0.1) / (Sum(lits, 0, 254) as real + 25.4))
  }

  function ChanceTotal(s: Rle): real {
    Chance(s, 0) + Chance(s, 1) + AtLeastMin(1.0 - RunChance(s))
  }

  /** The chances add up to one unless one of the three is at its lower limit. */
  lemma ChancesAddUp(s: Rle)
    requires Chance(s, 0) > 0.000_001 && Chance(s, 1) > 0.000_001 && AtLeastMin(1.0 - RunChance(s)) > 0.000_001
    ensures ChanceTotal(s) == 1.0
  {
    hide RunChance, RunaChance;
    OneOfThree(RunChance(s), RunaChance(s));
  }

  lemma OneOfThree(run: real, runa: real)
    ensures run * runa + run * (1.0 - runa) + (1.0 - run) == 1.0
  {
    Spread(run, runa, 1.0 - runa);
  }

  /** Every interval is its byte's chance, for every state of counters and counts. */
  lemma IntervalIsChance(s: Rle, b: byte)
    ensures IsShare(RleTable(s)[b], RleTable(s)[b + 1], Chance(s, b), ChanceTotal(s))
  {
    TableEntries(s, b);
    hide IsShare, Weighed, Chance, ChanceTotal, RleTable, Boundary;
    BoundaryIsChance(s, b);
  }

  lemma BoundaryIsChance(s: Rle, b: byte)
    ensures var w, lits := Weighed(s), s.lits[s.ctx];
            IsShare(Boundary(w, lits, lits, b), Boundary(w, lits, lits, b + 1), Chance(s, b), ChanceTotal(s))
  {
    var w, lits := Weighed(s), s.lits[s.ctx];
    IntervalIsShare(w, lits, lits, b);
    MassIsChance(s, b);
    TotalIsChance(s);
    hide Own, Whole, Chance, ChanceTotal, IsShare, Boundary, Weighed;
  }

  /** The coefficient of the literals is their chance divided by their weighted number. */
  lemma CoefficientIs(s: Rle)
    ensures var w := Weighed(s);
            && w.o2Coef == 0.0 && w.baseLit == w.rleCoef * 0.1
            && w.rleCoef == AtLeastMin(1.0 - RunChance(s)) / (Sum(s.lits[s.ctx], 0, 254) as real + 25.4)
            && w.rleCoef * (Sum(s.lits[s.ctx], 0, 254) as real + 25.4) == AtLeastMin(1.0 - RunChance(s))
  {
  }

  lemma MassIsChance(s: Rle, b: byte)
    ensures Own(Weighed(s), s.lits[s.ctx], s.lits[s.ctx], b) == Chance(s, b)
  {
    if b >= 2 {
      LiteralIsChance(s, s.lits[s.ctx][b - 2]);
    } else {
      RunIsChance(s);
    }
  }

  lemma LiteralIsChance(s: Rle, n: nat)
    ensures var w := Weighed(s);
            w.rleCoef * n as real + w.o2Coef * n as real + w.baseLit
            == AtLeastMin(1.0 - RunChance(s)) * ((n as real + 0.1) / (Sum(s.lits[s.ctx], 0, 254) as real + 25.4))
  {
    hide Weighed, RunChance, Sum, AtLeastMin;
    var w := Weighed(s);
    CoefficientIs(s);
    LiteralMass(w.rleCoef, w.o2Coef, w.baseLit, n as real);
    QuotientTimes(AtLeastMin(1.0 - RunChance(s)), n as real + 0.1, Sum(s.lits[s.ctx], 0, 254) as real + 25.4);
  }

  lemma QuotientTimes(a: real, c: real, d: real)
    requires d > 0.0
    ensures a / d * c == a * (c / d)
  {
  }

  lemma RunIsChance(s: Rle)
    ensures Weighed(s).w0 == Chance(s, 0) && Weighed(s).w1 == Chance(s, 1)
  {
  }

  lemma TotalIsChance(s: Rle)
    ensures Whole(Weighed(s), s.lits[s.ctx], s.lits[s.ctx]) == ChanceTotal(s)
  {
    CoefficientIs(s);
    RunIsChance(s);
    hide Weighed, RunChance, Chance, AtLeastMin, Sum;
    var w, n := Weighed(s), Sum(s.lits[s.ctx], 0, 254) as real;
    LiteralTotal(w.rleCoef, w.o2Coef, w.baseLit, n);
    SumOfThree(w.w0 + w.w1, w.rleCoef * n, w.o2Coef * n, 254.0 * w.baseLit, AtLeastMin(1.0 - RunChance(s)));
  }

  lemma SumOfThree(a: real, x: real, y: real, z: real, s: real)
    requires x + y + z == s
    ensures a + x + y + z == a + s
  {
  }

  lemma LiteralTotal(k: real, zero: real, base: real, n: real)
    requires zero == 0.0 && base == k * 0.1
    ensures k * n + zero * n + 254.0 * base == k * (n + 25.4)
  {
    Spread(k, n, 25.4);
  }

  lemma LiteralMass(k: real, zero: real, base: real, n: real)
    requires zero == 0.0 && base == k * 0.1
    ensures k * n + zero * n + base == k * (n + 0.1)
  {
    Spread(k, n, 0.1);
  }

  lemma TableEntries(s: Rle, b: byte)
    ensures var w, lits := Weighed(s), s.lits[s.ctx];
            RleTable(s)[b] == Boundary(w, lits, lits, b) && RleTable(s)[b + 1] == Boundary(w, lits, lits, b + 1)
  {
  }

  // ---------------------------------------------------------------------------------------------
  // What the counts are counts of
  // ---------------------------------------------------------------------------------------------

  /** The context of position `i`: start of the data, after a run symbol, after a literal. */
  function ContextAt(data: seq<byte>, i: nat): nat
    requires i <= |data|
  {
    if i == 0 then 0 else if data[i - 1] <= 1 then 1 else 2
  }

  /** How many bytes between `lo` and `hi` stand at a position of context `k`. */
  function Times(data: seq<byte>, k: nat, lo: nat, hi: nat): (n: nat)
    ensures n <= |data|
  {
    if data == [] then 0 else
    var last := |data| - 1;
    Times(data[..last], k, lo, hi) + if ContextAt(data, last) == k && lo <= data[last] as nat <= hi then 1 else 0
  }

  /** The counters and counts of context `k` after `data`. */
  ghost predicate CountsTimes(s: Rle, data: seq<byte>, k: nat)
    requires k < NUM_CONTEXTS
  {
    && s.run[k] == Binary(Times(data, k, 0, 1), Times(data, k, 0, 255))
    && s.runa[k] == Binary(Times(data, k, 0, 0), Times(data, k, 0, 1))
    && (forall m :: 0 <= m < NUM_LITS ==> s.lits[k][m] == Times(data, k, m + 2, m + 2))
    && Sum(s.lits[k], 0, NUM_LITS) == Times(data, k, 2, 255)
  }

  /**
   Up to 500 000 bytes nothing is halved: every counter and count is the number of times its decision was
   made in its context.
   */
  lemma {:induction false} CountsAreTimes(p: Predictor<Rle>, data: seq<byte>)
    requires IsRle(p) && |data| <= 500_000
    ensures var s := After(p, p.initial, data);
            s.ctx == ContextAt(data, |data|) && forall k :: 0 <= k < NUM_CONTEXTS ==> CountsTimes(s, data, k)
    decreases |data|
  {
    if data == [] {
      SumBounds(Zeros(), 0, 0, 0, NUM_LITS);
    } else {
      var front, last := data[..|data| - 1], data[|data| - 1];
      CountsAreTimes(p, front);
      var s := After(p, p.initial, front);
      forall k | 0 <= k < NUM_CONTEXTS
        ensures CountsTimes(RleLearned(s, last), data, k)
      {
        if k == s.ctx {
          CountedHere(s, data, k);
        } else {
          CountedElsewhere(s, data, k);
        }
      }
    }
  }

  lemma CountedElsewhere(s: Rle, data: seq<byte>, k: nat)
    requires data != [] && k < NUM_CONTEXTS && CountsTimes(s, data[..|data| - 1], k)
    requires s.ctx == ContextAt(data, |data| - 1) != k
    ensures CountsTimes(RleLearned(s, data[|data| - 1]), data, k)
  {
  }

  lemma CountedHere(s: Rle, data: seq<byte>, k: nat)
    requires data != [] && |data| <= 500_000 && k < NUM_CONTEXTS && CountsTimes(s, data[..|data| - 1], k)
    requires s.ctx == ContextAt(data, |data| - 1) == k
    ensures CountsTimes(RleLearned(s, data[|data| - 1]), data, k)
  {
    var b := data[|data| - 1];
    CountedStaysInBounds(s.run[k], b <= 1);
    CountedStaysInBounds(s.runa[k], b == 0);
    if b > 1 {
      BumpCountsOrHalves(s.lits[k], b - 2, RLE_LIMIT);
    }
  }

  /** With the second coefficient zero the second table does not matter. */
  lemma SecondTableIgnored(w: Weights, r: Lits, o: Lits, o': Lits)
    requires Positive(w) && w.o2Coef == 0.0
    ensures Table(w, r, o) == Table(w, r, o')
  {
    forall m: nat | m <= NUM_LITS
      ensures Mass(w, r, o, m) == Mass(w, r, o', m)
    {
      assert w.o2Coef * Fenwick.Sum(o, 0, m) as real == 0.0 == w.o2Coef * Fenwick.Sum(o', 0, m) as real;
    }
    forall s | 0 <= s <= 256
      ensures Boundary(w, r, o, s) == Boundary(w, r, o', s)
    {
    }
  }

  // ---------------------------------------------------------------------------------------------
  // The predictor in place
  // ---------------------------------------------------------------------------------------------

  class RlePredictor {
    var run: seq<Counter>
    var runa: seq<Counter>
    const bank: TableBank
    var ctx: nat

    ghost function Repr(): set<object> {
      {this} + bank.repr
    }

    ghost predicate Valid()
      reads Repr()
    {
      && |run| == |runa| == |bank.tables| == NUM_CONTEXTS && ctx < NUM_CONTEXTS
      && this !in bank.repr && bank.Valid()
    }

    ghost function State(): Rle
      requires Valid()
      reads Repr()
    {
      RleState(run, runa, bank.Counts(), ctx)
    }

    constructor ()
      ensures Valid() && fresh(Repr()) && State() == Untrained()
    {
      run, runa, ctx := NewCounters(), NewCounters(), CTX_START;
      bank := new TableBank(NUM_CONTEXTS);
    }

    method Reset()
      requires Valid()
      modifies Repr()
      ensures Valid() && State() == Untrained()
    {
      bank.Clear();
      ghost var c := bank.Counts();
      run, runa, ctx := NewCounters(), NewCounters(), CTX_START;
      assert bank.Counts() == c;
    }

    method Weigh() returns (w: Weights)
      requires Valid()
      ensures w == Weighed(State())
    {
      w := RleWeights(run[ctx], runa[ctx], bank.tables[ctx].total);
    }

    method PredictCdf() returns (cdf: seq<nat>)
      requires Valid()
      ensures cdf == RleTable(State())
    {
      var w := Weigh();
      cdf := LiteralModel.PredictCdf(w, bank.tables[ctx], bank.tables[ctx]);
    }

    /** In every reachable state, the table's entries at the byte. */
    method QueryCdf(b: byte) returns (lo: nat, hi: nat)
      requires Valid()
      ensures lo == RleTable(State())[b] && hi == RleTable(State())[b + 1]
      ensures IsShare(lo, hi, Chance(State(), b), ChanceTotal(State()))
    {
      hide IsShare, Chance, ChanceTotal, Own, Whole;
      IntervalIsChance(State(), b);
      var w := Weigh();
      lo, hi := LiteralModel.QueryCdf(w, bank.tables[ctx], bank.tables[ctx], b);
    }

    method DecodeSymbol(f: freq) returns (b: byte, lo: nat, hi: nat)
      requires Valid()
      ensures Resolves(RleTable(State()), f, (b, lo, hi))
    {
      var w := Weigh();
      b, lo, hi := LiteralModel.DecodeSymbol(w, bank.tables[ctx], bank.tables[ctx], f);
    }

    method Update(b: byte)
      requires Valid()
      modifies Repr()
      ensures Valid() && State() == RleLearned(old(State()), b)
    {
      if b <= 1 {
        Advance(Counted(run, ctx, true), Counted(runa, ctx, b == 0), CTX_IN_RUN);
      } else {
        bank.Bump(ctx, b - 2, RLE_LIMIT);
        Advance(Counted(run, ctx, false), runa, CTX_AFTER_LIT);
      }
    }

    method Advance(run': seq<Counter>, runa': seq<Counter>, next: nat)
      requires Valid() && |run'| == |runa'| == NUM_CONTEXTS && next < NUM_CONTEXTS
      modifies this
      ensures Valid() && State() == RleState(run', runa', old(bank.Counts()), next)
    {
      ghost var c := bank.Counts();
      run, runa, ctx := run', runa', next;
      assert bank.Counts() == c;
    }
  }
}
