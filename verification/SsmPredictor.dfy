/**
 The neural predictor (`entropy/neural_ssm.rs`): a run-length predictor and 64 order-2 contexts, mixed by
 weights a learner supplies. The learner stands for all floating-point state; it may be any functions.
 */
module SsmPrediction {
  import opened Bytes
  import opened Fenwick
  import opened RangeEncoding
  import opened Predictors
  import opened LiteralModel
  import opened TableBanks
  import opened RlePrediction

  const NUM_O2_CTX: nat := 64
  const O2_LIMIT: nat := 100_000
  const NO_BYTE: byte := 0xFF

  function RankBucket(b: byte): (k: nat)
    ensures k < 8
  {
    if b <= 3 then b
    else if b <= 5 then 4
    else if b <= 9 then 5
    else if b <= 19 then 6
    else 7
  }

  function O2Context(prev: byte, prevPrev: byte): (k: nat)
    ensures k < NUM_O2_CTX
  {
    RankBucket(prev) * 8 + RankBucket(prevPrev)
  }

  type Positives = w: Weights | Positive(w) witness Weights(1.0, 1.0, 0.0, 0.0, 1.0)

  /**
   `weigh` gives the mixing weights from the learned state, the run-length predictor's two counters and
   the totals of the two selected tables; `learn` takes in a byte with the counters it was predicted by.
   */
  datatype Learner<!L> = Learner(
    initial: L,
    weigh: (L, Counter, Counter, nat, nat) -> Positives,
    learn: (L, Counter, Counter, byte) -> L)

  /** The order-2 counts and the two bytes that select among them. */
  datatype O2State = O2State(lits: seq<Lits>, prev: byte, prevPrev: byte) {
    ghost predicate WellFormed() {
      |lits| == NUM_O2_CTX
    }

    function Context(): (k: nat)
      ensures k < NUM_O2_CTX
    {
      O2Context(prev, prevPrev)
    }
  }

  type O2 = s: O2State | s.WellFormed() ghost witness O2Untrained()

  function O2Untrained(): (s: O2State)
    ensures s.WellFormed()
  {
    O2State(Empty(NUM_O2_CTX), NO_BYTE, NO_BYTE)
  }

  /** A literal is counted in the context of the two bytes before it; then the context moves on. */
  function O2Learned(s: O2, b: byte): O2 {
    O2State(if b <= 1 then s.lits else s.lits[s.Context() := Bumped(s.lits[s.Context()], b - 2, O2_LIMIT)], b, s.prev)
  }

  datatype SsmState<L> = SsmState(learned: L, rle: Rle, o2: O2)

  function SsmWeighed<L>(l: Learner<L>, s: SsmState<L>): Positives {
    l.weigh(s.learned, s.rle.run[s.rle.ctx], s.rle.runa[s.rle.ctx],
            Sum(s.rle.lits[s.rle.ctx], 0, NUM_LITS), Sum(s.o2.lits[s.o2.Context()], 0, NUM_LITS))
  }

  /** The selected run-length and order-2 tables. */
  function SsmCounts<L>(s: SsmState<L>): (Lits, Lits) {
    (s.rle.lits[s.rle.ctx], s.o2.lits[s.o2.Context()])
  }

  function SsmTable<L>(l: Learner<L>, s: SsmState<L>): Cdf {
    Table(SsmWeighed(l, s), s.rle.lits[s.rle.ctx], s.o2.lits[s.o2.Context()])
  }

  function SsmLearned<L>(l: Learner<L>, s: SsmState<L>, b: byte): SsmState<L> {
    SsmState(l.learn(s.learned, s.rle.run[s.rle.ctx], s.rle.runa[s.rle.ctx], b), RleLearned(s.rle, b),
             O2Learned(s.o2, b))
  }

  function SsmUntrained<L>(l: Learner<L>): SsmState<L> {
    SsmState(l.initial, Untrained(), O2Untrained())
  }

  function SsmDefault<L>(l: Learner<L>): Predictor<SsmState<L>> {
    FromTable<SsmState<L>>(SsmUntrained(l), (s: SsmState<L>) => SsmTable(l, s),
                           (s: SsmState<L>, b: byte) => SsmLearned(l, s, b))
  }

  /** `p` has this predictor's table and update, however it queries and searches. */
  ghost predicate IsSsm<L(!new)>(p: Predictor<SsmState<L>>, l: Learner<L>) {
    && Lawful(p)
    && p.initial == SsmUntrained(l)
    && (forall s: SsmState<L> :: p.cdf(s) == SsmTable(l, s))
    && (forall s: SsmState<L>, b: byte :: p.update(s, b) == SsmLearned(l, s, b))
  }

  lemma SsmIsLawful<L(!new)>(l: Learner<L>)
    ensures IsSsm(SsmDefault(l), l)
  {
    TableDefaultsAreLawful<SsmState<L>>(SsmUntrained(l), (s: SsmState<L>) => SsmTable(l, s),
                                        (s: SsmState<L>, b: byte) => SsmLearned(l, s, b));
  }

  // ---------------------------------------------------------------------------------------------
  // What the counts are counts of
  // ---------------------------------------------------------------------------------------------

  /** Ranks up to 3 one by one, then 4-5, 6-9, 10-19 and the rest. */
  const BUCKETS: seq<nat> := [0, 1, 2, 3, 4, 6, 10, 20, 256]

  predicate InBucket(b: byte, k: nat)
    requires k < 8
  {
    BUCKETS[k] <= b < BUCKETS[k + 1]
  }

  /** The context names the buckets of the two bytes before. */
  lemma ContextNamesBuckets(prev: byte, prevPrev: byte, u: nat, v: nat)
    requires u < 8 && v < 8
    ensures O2Context(prev, prevPrev) == 8 * u + v <==> InBucket(prev, u) && InBucket(prevPrev, v)
  {
    assert RankBucket(prev) == u <==> InBucket(prev, u);
    assert RankBucket(prevPrev) == v <==> InBucket(prevPrev, v);
  }

  /** The byte `d` before position `i`, 0xFF before the data. */
  function ByteBefore(data: seq<byte>, i: nat, d: nat): byte
    requires 0 < d && i <= |data|
  {
    if d <= i then data[i - d] else 0xFF
  }

  /** How many bytes between `lo` and `hi` followed bytes of buckets `v` and `u`. */
  function O2Times(data: seq<byte>, u: nat, v: nat, lo: nat, hi: nat): (n: nat)
    requires u < 8 && v < 8
    ensures n <= |data|
  {
    if data == [] then 0 else
    var i := |data| - 1;
    O2Times(data[..i], u, v, lo, hi)
        + if InBucket(ByteBefore(data, i, 1), u) && InBucket(ByteBefore(data, i, 2), v) && lo <= data[i] as nat <= hi
        then 1 else 0
  }

  ghost predicate LitsTimes(c: Lits, data: seq<byte>, u: nat, v: nat)
    requires u < 8 && v < 8
  {
    && (forall m :: 0 <= m < NUM_LITS ==> c[m] == O2Times(data, u, v, m + 2, m + 2))
    && Sum(c, 0, NUM_LITS) == O2Times(data, u, v, 2, 255)
  }

  ghost predicate O2CountsTimes(s: O2, data: seq<byte>, u: nat, v: nat)
    requires u < 8 && v < 8
  {
    LitsTimes(s.lits[8 * u + v], data, u, v)
  }

  ghost predicate O2History(s: O2, data: seq<byte>) {
    && s.prev == ByteBefore(data, |data|, 1) && s.prevPrev == ByteBefore(data, |data|, 2)
    && forall u, v :: 0 <= u < 8 && 0 <= v < 8 ==> O2CountsTimes(s, data, u, v)
  }

  /** Up to 100 000 bytes every order-2 count is the number of times its literal followed its two buckets. */
  lemma {:induction false} O2CountsAreTimes<L(!new)>(p: Predictor<SsmState<L>>, l: Learner<L>, data: seq<byte>)
    requires IsSsm(p, l) && |data| <= 100_000
    ensures O2History(After(p, p.initial, data).o2, data)
    decreases |data|
  {
    if data == [] {
      SumBounds(Zeros(), 0, 0, 0, NUM_LITS);
    } else {
      hide O2CountsTimes, O2Learned, Lawful;
      var front, last := data[..|data| - 1], data[|data| - 1];
      O2CountsAreTimes(p, l, front);
      O2Step(After(p, p.initial, front).o2, data);
    }
  }

  lemma O2Step(s: O2, data: seq<byte>)
    requires 0 < |data| <= 100_000 && O2History(s, data[..|data| - 1])
    ensures O2History(O2Learned(s, data[|data| - 1]), data)
  {
    hide O2CountsTimes;
    var next := O2Learned(s, data[|data| - 1]);
    forall u, v | 0 <= u < 8 && 0 <= v < 8
      ensures O2CountsTimes(next, data, u, v)
    {
      ContextNamesBuckets(s.prev, s.prevPrev, u, v);
      O2StepAt(s, data, u, v);
    }
  }

  lemma O2StepAt(s: O2, data: seq<byte>, u: nat, v: nat)
    requires 0 < |data| <= 100_000 && u < 8 && v < 8 && O2CountsTimes(s, data[..|data| - 1], u, v)
    requires s.Context() == 8 * u + v
             <==> InBucket(ByteBefore(data, |data| - 1, 1), u) && InBucket(ByteBefore(data, |data| - 1, 2), v)
    ensures O2CountsTimes(O2Learned(s, data[|data| - 1]), data, u, v)
  {
    hide InBucket;
    var b := data[|data| - 1];
    if b >= 2 && s.Context() == 8 * u + v {
      BumpCountsOrHalves(s.lits[8 * u + v], b - 2, O2_LIMIT);
    }
  }

  /** The run-length predictor inside evolves as it would alone. */
  lemma {:induction false} InnerIsRle<L(!new)>(p: Predictor<SsmState<L>>, l: Learner<L>, q: Predictor<Rle>,
                                               data: seq<byte>)
    requires IsSsm(p, l) && IsRle(q)
    ensures After(p, p.initial, data).rle == After(q, q.initial, data)
    decreases |data|
  {
    if data != [] {
      InnerIsRle(p, l, q, data[..|data| - 1]);
    }
  }

  /** What the learner is shown before and after the byte `b` that follows `data`. */
  lemma LearnerSees<L(!new)>(p: Predictor<SsmState<L>>, l: Learner<L>, data: seq<byte>, b: byte, u: nat, v: nat)
    requires IsSsm(p, l) && |data| <= 100_000 && u < 8 && v < 8
    requires InBucket(ByteBefore(data, |data|, 1), u) && InBucket(ByteBefore(data, |data|, 2), v)
    ensures var k := ContextAt(data, |data|);
            var run := Binary(Times(data, k, 0, 1), Times(data, k, 0, 255));
            var runa := Binary(Times(data, k, 0, 0), Times(data, k, 0, 1));
            var s := After(p, p.initial, data);
            && run.InBounds() && runa.InBounds()
            && SsmWeighed(l, s) == l.weigh(s.learned, run, runa, Times(data, k, 2, 255), O2Times(data, u, v, 2, 255))
            && After(p, p.initial, data + [b]).learned == l.learn(s.learned, run, runa, b)
  {
    hide Lawful, RleLearned, O2Learned, Times, O2Times, InBucket, O2Context, O2State.Context;
    InnerCounters(p, l, data);
    SelectedTotal(p, l, data, u, v);
    AfterPush(p, p.initial, data, b);
  }

  lemma InnerCounters<L(!new)>(p: Predictor<SsmState<L>>, l: Learner<L>, data: seq<byte>)
    requires IsSsm(p, l) && |data| <= 100_000
    ensures var s := After(p, p.initial, data).rle;
            s.ctx == ContextAt(data, |data|) && CountsTimes(s, data, s.ctx)
  {
    hide CountsTimes;
    RleIsLawful();
    InnerIsRle(p, l, RleDefault(), data);
    CountsAreTimes(RleDefault(), data);
  }

  lemma SelectedTotal<L(!new)>(p: Predictor<SsmState<L>>, l: Learner<L>, data: seq<byte>, u: nat, v: nat)
    requires IsSsm(p, l) && |data| <= 100_000 && u < 8 && v < 8
    requires InBucket(ByteBefore(data, |data|, 1), u) && InBucket(ByteBefore(data, |data|, 2), v)
    ensures var o := After(p, p.initial, data).o2;
            Sum(o.lits[o.Context()], 0, NUM_LITS) == O2Times(data, u, v, 2, 255)
  {
    hide Lawful, InBucket, O2Context;
    O2CountsAreTimes(p, l, data);
    var o := After(p, p.initial, data).o2;
    ContextNamesBuckets(o.prev, o.prevPrev, u, v);
    assert O2CountsTimes(o, data, u, v);
  }

  // ---------------------------------------------------------------------------------------------
  // The predictor in place
  // ---------------------------------------------------------------------------------------------

  class SsmPredictor<L(!new)> {
    const learner: Learner<L>
    var learned: L
    const rle: RlePredictor
    const bank: TableBank
    var prev: byte
    var prevPrev: byte

    ghost function Repr(): set<object> {
      {this} + rle.Repr() + bank.repr
    }

    ghost predicate Valid()
      reads Repr()
    {
      && this !in rle.Repr() && this !in bank.repr && rle.Repr() !! bank.repr
      && rle.Valid() && bank.Valid() && |bank.tables| == NUM_O2_CTX
    }

    ghost function State(): SsmState<L>
      requires Valid()
      reads Repr()
    {
      SsmState(learned, rle.State(), O2State(bank.Counts(), prev, prevPrev))
    }

    constructor (l: Learner<L>)
      ensures Valid() && fresh(Repr()) && learner == l && State() == SsmUntrained(l)
    {
      hide Untrained, Empty;
      learner, learned, prev, prevPrev := l, l.initial, NO_BYTE, NO_BYTE;
      rle := new RlePredictor();
      bank := new TableBank(NUM_O2_CTX);
    }

    method Reset()
      requires Valid()
      modifies Repr()
      ensures Valid() && State() == SsmUntrained(learner)
    {
      ClearO2();
      ResetRle();
      Advance(learner.initial, NO_BYTE, NO_BYTE);
    }

    method ClearO2()
      requires Valid()
      modifies bank.repr
      ensures Valid() && bank.Counts() == Empty(NUM_O2_CTX)
    {
      bank.Clear();
    }

    method ResetRle()
      requires Valid()
      modifies rle.Repr()
      ensures Valid() && rle.State() == Untrained() && bank.Counts() == old(bank.Counts())
    {
      rle.Reset();
    }

    method Weigh() returns (w: Weights)
      requires Valid()
      ensures w == SsmWeighed(learner, State())
    {
      w := learner.weigh(learned, rle.run[rle.ctx], rle.runa[rle.ctx],
                         rle.bank.tables[rle.ctx].total, bank.tables[O2Context(prev, prevPrev)].total);
    }

    method PredictCdf() returns (cdf: seq<nat>)
      requires Valid()
      ensures cdf == SsmTable(learner, State())
    {
      var w := Weigh();
      cdf := LiteralModel.PredictCdf(w, rle.bank.tables[rle.ctx], bank.tables[O2Context(prev, prevPrev)]);
    }

    /** In every reachable state, the table's entries at the byte. */
    method QueryCdf(b: byte) returns (lo: nat, hi: nat)
      requires Valid()
      ensures lo == SsmTable(learner, State())[b] && hi == SsmTable(learner, State())[b + 1]
      ensures var w := SsmWeighed(learner, State());
              var (r, o) := SsmCounts(State());
              IsShare(lo, hi, Own(w, r, o, b), Whole(w, r, o))
    {
      hide IsShare, Own, Whole;
      var w := Weigh();
      lo, hi := LiteralModel.QueryCdf(w, rle.bank.tables[rle.ctx], bank.tables[O2Context(prev, prevPrev)], b);
    }

    method DecodeSymbol(f: freq) returns (b: byte, lo: nat, hi: nat)
      requires Valid()
      ensures Resolves(SsmTable(learner, State()), f, (b, lo, hi))
    {
      var w := Weigh();
      b, lo, hi := LiteralModel.DecodeSymbol(w, rle.bank.tables[rle.ctx], bank.tables[O2Context(prev, prevPrev)], f);
    }

    method Update(b: byte)
      requires Valid()
      modifies Repr()
      ensures Valid() && State() == SsmLearned(learner, old(State()), b)
    {
      hide RleLearned, Bumped, O2Context;
      var next := learner.learn(learned, rle.run[rle.ctx], rle.runa[rle.ctx], b);
      UpdateRle(b);
      CountO2(b);
      Advance(next, b, prev);
    }

    method UpdateRle(b: byte)
      requires Valid()
      modifies rle.Repr()
      ensures Valid() && rle.State() == RleLearned(old(rle.State()), b) && bank.Counts() == old(bank.Counts())
    {
      hide RleLearned;
      rle.Update(b);
    }

    /** Only the selected order-2 table changes, and only for a literal. */
    method CountO2(b: byte)
      requires Valid()
      modifies bank.repr
      ensures Valid() && rle.State() == old(rle.State())
      ensures bank.Counts() == O2Learned(O2State(old(bank.Counts()), prev, prevPrev), b).lits
    {
      if b >= 2 {
        bank.Bump(O2Context(prev, prevPrev), b - 2, O2_LIMIT);
      }
    }

    method Advance(next: L, b: byte, c: byte)
      requires Valid()
      modifies this
      ensures Valid() && State() == SsmState(next, old(rle.State()), O2State(old(bank.Counts()), b, c))
    {
      learned, prev, prevPrev := next, b, c;
    }
  }
}
