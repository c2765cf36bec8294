/** The contract between a byte predictor and the range coder (`entropy/traits.rs`). */
module Predictors {
  import opened Bytes
  import opened RangeEncoding

  /** Cumulative frequencies: strictly rising from 0 to 32768, so every byte is encodable. */
  ghost predicate IsCdf(c: seq<nat>) {
    |c| == 257 && c[0] == 0 && c[256] == PROB_TOTAL && forall i :: 0 <= i < 256 ==> c[i] < c[i + 1]
  }

  type Cdf = c: seq<nat> | IsCdf(c) ghost witness seq(257, i => i * 128)

  type freq = f: nat | f < PROB_TOTAL

  /**
   A deterministic predictor. `update(s, b)` is the state after one `query_cdf` or `decode_symbol`
   call followed by `update(b)`, so a predictor may also change state while predicting.
   */
  datatype Predictor<!S> = Predictor(
    initial: S,
    cdf: S -> Cdf,
    query: (S, byte) -> (nat, nat),
    decode: (S, freq) -> (byte, nat, nat),
    update: (S, byte) -> S)

  /** The two fast paths agree with the table. */
  ghost predicate Lawful<S(!new)>(p: Predictor<S>) {
    && (forall s: S, b: byte :: p.query(s, b) == (p.cdf(s)[b], p.cdf(s)[b + 1]))
    && (forall s: S, f: freq :: Resolves(p.cdf(s), f, p.decode(s, f)))
  }

  /** The state after the bytes of `data`. */
  function After<S>(p: Predictor<S>, s: S, data: seq<byte>): S {
    if data == [] then s else p.update(After(p, s, data[..|data| - 1]), data[|data| - 1])
  }

  lemma AfterPush<S>(p: Predictor<S>, s: S, data: seq<byte>, b: byte)
    ensures After(p, s, data + [b]) == p.update(After(p, s, data), b)
  {
    assert (data + [b])[..|data|] == data;
  }

  lemma QueryIsInterval<S(!new)>(p: Predictor<S>, s: S, b: byte)
    requires Lawful(p)
    ensures p.query(s, b).0 < p.query(s, b).1 <= PROB_TOTAL
  {
    var next: nat := b + 1 as int;
    CdfRises(p.cdf(s), next, 256);
  }

  /** `d` is a symbol with its own interval of the table, and that interval contains `f`. */
  ghost predicate Resolves(c: Cdf, f: nat, d: (byte, nat, nat)) {
    d.1 == c[d.0] && d.2 == c[d.0 + 1] && d.1 <= f < d.2
  }

  lemma {:induction false} CdfRises(c: Cdf, i: nat, j: nat)
    requires i <= j <= 256
    ensures c[i] + (j - i) <= c[j]
    decreases j - i
  {
    if i < j {
      CdfRises(c, i, j - 1);
    }
  }

  /** A frequency lies in one interval only. */
  lemma ResolvesUnique(c: Cdf, f: nat, d: (byte, nat, nat), e: (byte, nat, nat))
    requires Resolves(c, f, d) && Resolves(c, f, e)
    ensures d == e
  {
    if d.0 < e.0 {
      CdfRises(c, d.0 + 1, e.0);
    } else if e.0 < d.0 {
      CdfRises(c, e.0 + 1, d.0);
    }
  }

  /** A frequency inside the interval `query` gives for `b` decodes to `b`. */
  lemma DecodesTo<S(!new)>(p: Predictor<S>, s: S, b: byte, f: freq)
    requires Lawful(p) && p.query(s, b).0 <= f < p.query(s, b).1
    ensures p.decode(s, f) == (b, p.query(s, b).0, p.query(s, b).1)
  {
    var q := p.query(s, b);
    assert q == (p.cdf(s)[b], p.cdf(s)[b + 1]);
    ResolvesUnique(p.cdf(s), f, (b, q.0, q.1), p.decode(s, f));
  }

  function FindSymbolFrom(c: Cdf, f: freq, s: nat): (b: byte)
    requires s <= 255 && c[s] <= f
    ensures c[b] <= f < c[b + 1]
    decreases 256 - s, c
  {
    if f < c[s + 1] then s else FindSymbolFrom(c, f, s + 1)
  }

  /** The symbol whose interval contains `f`, found by a plain scan. */
  function FindSymbol(c: Cdf, f: freq): (b: byte)
    ensures c[b] <= f < c[b + 1]
  {
    FindSymbolFrom(c, f, 0)
  }

  /** `find_symbol`: two prefix checks, then a binary search from symbol 2. */
  method SearchSymbol(c: Cdf, f: freq) returns (s: byte)
    ensures s == FindSymbol(c, f)
    ensures Resolves(c, f, (s, c[s], c[s + 1]))
  {
    if f < c[1] {
      s := 0;
    } else if f < c[2] {
      s := 1;
    } else {
      var lo: nat, hi: nat := 2, 256;
      while lo < hi
        invariant 2 <= lo <= hi <= 256
        invariant c[lo] <= f && (hi < 256 ==> f < c[hi + 1])
      {
        var mid := (lo + hi) / 2;
        if c[mid + 1] <= f {
          lo := mid + 1;
        } else {
          hi := mid;
        }
      }
      s := lo;
    }
    FoundSymbol(c, f, s);
  }

  lemma FoundSymbol(c: Cdf, f: freq, s: byte)
    requires c[s] <= f < c[s + 1]
    ensures s == FindSymbol(c, f)
  {
    var t := FindSymbol(c, f);
    ResolvesUnique(c, f, (s, c[s], c[s + 1]), (t, c[t], c[t + 1]));
  }

  /** The trait's default `query_cdf` and `decode_symbol`, which slice and search the table. */
  function FromTable<S>(initial: S, cdf: S -> Cdf, update: (S, byte) -> S): Predictor<S> {
    Predictor(initial,
              cdf,
              (s: S, b: byte) => (cdf(s)[b], cdf(s)[b + 1]),
              (s: S, f: freq) => var b := FindSymbol(cdf(s), f); (b, cdf(s)[b], cdf(s)[b + 1]),
              update)
  }

  /** A predictor that overrides nothing but its table honours the contract. */
  lemma TableDefaultsAreLawful<S(!new)>(initial: S, cdf: S -> Cdf, update: (S, byte) -> S)
    ensures Lawful(FromTable(initial, cdf, update))
  {
    var p := FromTable(initial, cdf, update);
    forall s: S, f: freq
      ensures Resolves(p.cdf(s), f, p.decode(s, f))
    {
      var b := FindSymbol(cdf(s), f);
      assert p.decode(s, f) == (b, cdf(s)[b], cdf(s)[b + 1]);
    }
  }
}
