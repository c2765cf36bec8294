/**
 What the match finder and the lazy rule (`coding/lz77_preprocess.rs`) find, said of the bytes alone:
 neither hash nor chains appear in these results.
 */
module Lz77Searching {
  import opened Bytes
  import opened Lz77
  import opened Lz77Chains
  import opened Lz77Parsing

  // ---------------------------------------------------------------------------------------------
  // The hash
  // ---------------------------------------------------------------------------------------------

  /** Three bytes as one number. */
  function Number(data: seq<byte>, p: nat): (v: nat)
    requires p + 2 < |data|
    ensures v < 0x100_0000
  {
    data[p] as nat * 65536 + data[p + 1] as nat * 256 + data[p + 2] as nat
  }

  /**
   The positions before `n` in the window of `pos` that the search may have to look at: those where the
   multiple by 2654435761, modulo 2^32, has the same top 16 bits.
   */
  ghost function Rivals(data: seq<byte>, n: nat, pos: nat): (s: set<nat>)
    requires n <= pos && pos + 2 < |data|
  {
    set p: nat | p < n && pos - p < 65536
                 && Number(data, p) * 2654435761 % 0x1_0000_0000 / 65536
                    == Number(data, pos) * 2654435761 % 0x1_0000_0000 / 65536
  }

  ghost predicate DistinctWithin(c: seq<nat>, s: set<nat>) {
    (forall x :: x in c ==> x in s) && (forall i, j :: 0 <= i < j < |c| ==> c[i] != c[j])
  }

  lemma {:induction false} CandidatesAreRivals(data: seq<byte>, n: nat, m: nat, pos: nat, count: nat)
    requires m <= n <= pos && pos + 2 < |data| <= MAX_LZ77_INPUT_SIZE
    ensures var c := Candidates(data, Hash3(data, pos), m, pos, count);
            DistinctWithin(c, Rivals(data, n, pos)) && forall x :: x in c ==> x < m
    decreases count
  {
    var h := Hash3(data, pos);
    var p := Last(data, h, m);
    if p != EMPTY && count > 0 && pos - p < WINDOW_SIZE {
      CandidatesAreRivals(data, n, p, pos, count - 1);
      assert p in Rivals(data, n, pos);
      var rest := Candidates(data, h, p, pos, count - 1);
      assert p !in rest;
      assert Candidates(data, h, m, pos, count) == [p] + rest;
    }
  }

  lemma {:induction false} DistinctInside(c: seq<nat>, s: set<nat>)
    requires DistinctWithin(c, s)
    ensures |c| <= |s|
    decreases |c|
  {
    if c != [] {
      var front, last := c[..|c| - 1], c[|c| - 1];
      assert last in c && last !in front;
      DistinctInside(front, s - {last});
    }
  }

  /** The multiplier is near the golden ratio of 2^32: no multiple below the 256th comes close to a multiple of it. */
  lemma NeverNear(d: nat, j: nat)
    requires 0 < d < 256
    ensures d * 2654435761 - j * TWO32 <= -65536 || d * 2654435761 - j * TWO32 >= 65536
  {
    var a, b := 233 * j - 144 * d, 89 * d - 144 * j;
    assert d == 144 * a + 233 * b;
    assert d * 2654435761 - j * TWO32 == -13339760 * a + 8241689 * b;
    assert (a <= 0 && b >= 0) || (a >= 0 && b <= 0);
    assert a != 0 || b != 0;
  }

  lemma MultiplesApart(d: nat)
    requires 0 < d < 256
    ensures 65536 <= d * 2654435761 % TWO32 <= TWO32 - 65536
  {
    var x := d * 2654435761;
    NeverNear(d, x / TWO32);
    NeverNear(d, x / TWO32 + 1);
  }

  /** Positions that differ in their third byte only are never on one chain. */
  lemma ThirdByteSeparates(data: seq<byte>, p: nat, q: nat)
    requires p + 2 < |data| && q + 2 < |data| && data[p] == data[q] && data[p + 1] == data[q + 1]
    requires data[p + 2] < data[q + 2]
    ensures Hash3(data, p) != Hash3(data, q)
  {
    var d: nat := data[q + 2] as int - data[p + 2] as int;
    MultiplesApart(d);
    var a, b := Number(data, p) * 2654435761, Number(data, q) * 2654435761;
    assert b == a + d * 2654435761;
    TopBitsDiffer(a, d * 2654435761);
  }

  lemma TopBitsDiffer(a: nat, x: nat)
    requires 65536 <= x % TWO32 <= TWO32 - 65536
    ensures a % TWO32 / 65536 != (a + x) % TWO32 / 65536
  {
    var r, y := a % TWO32, x % TWO32;
    assert (a + x) % TWO32 == if r + y < TWO32 then r + y else r + y - TWO32;
  }

  /**
   Completeness of the search: whatever repeats three bytes or more somewhere in the window is found, or
   something at least as long, or something of at least 258 bytes, unless 256 rivals crowd it out.
   */
  lemma FindsRepeats(data: seq<byte>, n: nat, pos: nat, best: Option<(nat, nat)>, q: nat, k: nat)
    requires q < n <= pos && pos - q < 65536 && 3 <= k <= 65538 && pos + k <= |data| <= MAX_LZ77_INPUT_SIZE
    requires data[q..q + k] == data[pos..pos + k]
    requires |Rivals(data, n, pos)| < 256 && IsBestAt(data, n, pos, best)
    ensures best.Some? && (best.value.1 >= k || best.value.1 >= 258)
  {
    hide Rivals, Hash3, Candidates, IsBestAt, NoLonger, Repeats;
    FewCandidates(data, n, pos);
    NothingLonger(data, n, pos, best, q);
    RepeatsThere(data, pos, q, k);
    if LengthOf(best) < k && LengthOf(best) < 258 {
      RepeatsLess(data, pos, pos - q, k, LengthOf(best) + 1);
      SomethingLonger(data, pos, q, LengthOf(best));
    }
  }

  lemma FewCandidates(data: seq<byte>, n: nat, pos: nat)
    requires n <= pos && pos + 2 < |data| <= MAX_LZ77_INPUT_SIZE
    ensures |Candidates(data, Hash3(data, pos), n, pos, MAX_CHAIN)| <= |Rivals(data, n, pos)|
  {
    hide Rivals, Hash3, Candidates, DistinctWithin;
    CandidatesAreRivals(data, n, n, pos, MAX_CHAIN);
    DistinctInside(Candidates(data, Hash3(data, pos), n, pos, MAX_CHAIN), Rivals(data, n, pos));
  }

  lemma SomethingLonger(data: seq<byte>, pos: nat, q: nat, len: nat)
    requires q <= pos && len < 65538 && pos + len < |data| && Repeats(data, pos, pos - q, len + 1)
    ensures !NoLonger(data, pos, q, len)
  {
  }

  lemma RepeatsThere(data: seq<byte>, pos: nat, q: nat, k: nat)
    requires q <= pos && pos + k <= |data| && data[q..q + k] == data[pos..pos + k]
    ensures Repeats(data, pos, pos - q, k)
  {
    forall j | pos <= j < pos + k
      ensures data[j] == data[j - (pos - q)]
    {
      assert data[pos..pos + k][j - pos] == data[q..q + k][j - pos];
    }
  }

  /** The bytes at `pos` repeat those `offset` before, as far as they go or 65538 are reached. */
  ghost predicate IsCopy(data: seq<byte>, pos: nat, offset: nat, len: nat) {
    && 1 <= offset <= pos && offset <= 65535 && 3 <= len <= 65538 && pos + len <= |data|
    && data[pos..pos + len] == data[pos - offset..pos - offset + len]
    && (pos + len < |data| && len < 65538 ==> data[pos + len] != data[pos + len - offset])
  }

  lemma MatchIsCopy(data: seq<byte>, pos: nat, offset: nat, len: nat)
    requires pos <= |data| && IsMatch(data, pos, offset, len)
    ensures IsCopy(data, pos, offset, len)
  {
  }

  /** Every match the encoder takes repeats earlier bytes of the window. */
  lemma TokenIsCopy(data: seq<byte>, tokens: seq<Token>, i: nat)
    requires IsParse(data, 0, false, tokens) && i < |tokens| && |data| <= MAX_LZ77_INPUT_SIZE
    ensures IsCopy(data, tokens[i].pos, tokens[i].offset, tokens[i].len)
  {
    hide IsParse, IsBestAt, IsMatch, IsCopy;
    var t := tokens[i];
    TokensAreBest(data, 0, false, tokens, i);
    BestIsMatch(data, t.pos, t.pos, Some((t.offset, t.len)));
    MatchIsCopy(data, t.pos, t.offset, t.len);
  }

  /** Every match the encoder takes is as long as any repetition in its window, under the same conditions. */
  lemma TokensAreLongest(data: seq<byte>, tokens: seq<Token>, i: nat, q: nat, k: nat)
    requires IsParse(data, 0, false, tokens) && i < |tokens| && |data| <= MAX_LZ77_INPUT_SIZE
    requires var p := tokens[i].pos;
             && q < p < q + 65536 && 3 <= k <= 65538 && p + k <= |data|
             && data[q..q + k] == data[p..p + k] && |Rivals(data, p, p)| < 256
    ensures tokens[i].len >= k || tokens[i].len >= 258
  {
    hide IsParse, IsBestAt, Rivals;
    var t := tokens[i];
    TokensAreBest(data, 0, false, tokens, i);
    FindsRepeats(data, t.pos, t.pos, Some((t.offset, t.len)), q, k);
  }

  /** Three bytes that are repeated stay literals only when a longer match at the next position comes first. */
  lemma LiteralsAreNew(data: seq<byte>, tokens: seq<Token>, p: nat, q: nat)
    requires IsParse(data, 0, false, tokens) && !InMatch(tokens, p) && p + 2 < |data| <= MAX_LZ77_INPUT_SIZE
    requires q < p < q + 65536 && data[q..q + 3] == data[p..p + 3] && |Rivals(data, p, p)| < 256
    ensures LongerNext(data, p, 3)
  {
    hide IsParse, IsBestAt, Rivals, InMatch;
    var best := LiteralSearched(data, 0, false, tokens, p);
    FindsRepeats(data, p, p, best, q, 3);
    LiteralPosition(data, 0, false, tokens, p, best);
  }
}
