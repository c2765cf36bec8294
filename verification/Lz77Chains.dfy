/**
 The match finder of the LZ77 encoder (`coding/lz77_preprocess.rs`). Any match it returns is a true
 one, whatever the hash chains hold. Filled by inserting every position in order, the chains list
 exactly the earlier positions of the same hash, newest first, and the search finds the longest match.
 */
module Lz77Chains {
  import opened Bytes
  import opened Lz77

  const HASH_SIZE: nat := 65536
  const MAX_CHAIN: nat := 256
  const NICE_MATCH: nat := 258
  /** The "no entry" sentinel. */
  const EMPTY: nat := 0xFFFF_FFFF

  /** Knuth multiplicative hash of three bytes, in 32 bits. */
  function Hash3(data: seq<byte>, pos: nat): (h: nat)
    requires pos + 2 < |data|
    ensures h < HASH_SIZE
  {
    var v := data[pos] as nat * 65536 + data[pos + 1] as nat * 256 + data[pos + 2] as nat;
    v * 2654435761 % TWO32 / 65536
  }

  function MaxLength(data: seq<byte>, pos: nat): nat
    requires pos <= |data|
  {
    if |data| - pos < MAX_MATCH then |data| - pos else MAX_MATCH
  }

  /** The bytes at `pos` repeat those `offset` before it, for `len` bytes. */
  ghost predicate Repeats(data: seq<byte>, pos: nat, offset: nat, len: nat)
    requires offset <= pos && pos + len <= |data|
  {
    forall j :: pos <= j < pos + len ==> data[j] == data[j - offset]
  }

  /** A true match: representable offset and length, inside the data, and not extendable. */
  ghost predicate IsMatch(data: seq<byte>, pos: nat, offset: nat, len: nat)
    requires pos <= |data|
  {
    && 1 <= offset < WINDOW_SIZE && offset <= pos
    && MIN_MATCH <= len <= MaxLength(data, pos)
    && Repeats(data, pos, offset, len)
    && NoLonger(data, pos, pos - offset, len)
  }

  /** At most `len` bytes at `pos` repeat those from `start` on. */
  ghost predicate NoLonger(data: seq<byte>, pos: nat, start: nat, len: nat)
    requires start <= pos <= |data|
  {
    len < MaxLength(data, pos) ==> !Repeats(data, pos, pos - start, len + 1)
  }

  // ---------------------------------------------------------------------------------------------
  // Chains
  // ---------------------------------------------------------------------------------------------

  datatype Chains = Chains(head: seq<nat>, prev: seq<nat>) {
    ghost predicate WellFormed() {
      |head| == HASH_SIZE && |prev| == WINDOW_SIZE
    }
  }

  function Slot(pos: nat): (k: nat)
    ensures k < WINDOW_SIZE
  {
    pos % WINDOW_SIZE
  }

  lemma SlotsDiffer(p: nat, q: nat)
    requires p < q < p + WINDOW_SIZE
    ensures Slot(p) != Slot(q)
  {
  }

  function Inserted(c: Chains, pos: nat, hash: nat): (d: Chains)
    requires c.WellFormed() && hash < HASH_SIZE
    ensures d.WellFormed()
  {
    if pos > MAX_LZ77_INPUT_SIZE then c
    else Chains(c.head[hash := pos], c.prev[Slot(pos) := c.head[hash]])
  }

  /** The positions `find_best` compares with: links are followed until one leads out of the window or not backwards. */
  function Visited(c: Chains, pos: nat, at: nat, last: nat, count: nat): (v: seq<nat>)
    requires c.WellFormed()
    ensures |v| <= count
    ensures forall i :: 0 <= i < |v| ==> v[i] < pos && pos - v[i] < WINDOW_SIZE
    decreases count, at
  {
    if at == EMPTY || count == 0 || at >= pos || pos - at >= WINDOW_SIZE || at >= last then []
    else [at] + Visited(c, pos, c.prev[Slot(at)], at, count - 1)
  }

  /** The newest position before `n` with hash `h`. */
  function Last(data: seq<byte>, h: nat, n: nat): (p: nat)
    requires n == 0 || n + 1 < |data|
    ensures p == EMPTY || (p < n && Hash3(data, p) == h)
  {
    if n == 0 then EMPTY
    else if Hash3(data, n - 1) == h then n - 1
    else Last(data, h, n - 1)
  }

  /** The chains after every position below `n` was inserted: entries that fell out of the window may be lost. */
  ghost predicate Indexed(c: Chains, data: seq<byte>, n: nat)
    requires n == 0 || n + 1 < |data|
  {
    && c.WellFormed()
    && (forall h :: 0 <= h < HASH_SIZE ==> c.head[h] == Last(data, h, n))
    && (forall p: nat {:trigger Slot(p)} :: p < n <= p + WINDOW_SIZE ==>
          c.prev[Slot(p)] == Last(data, Hash3(data, p), p))
  }

  lemma EmptyIndexed(c: Chains, data: seq<byte>)
    requires c.WellFormed() && forall h :: 0 <= h < HASH_SIZE ==> c.head[h] == EMPTY
    ensures Indexed(c, data, 0)
  {
  }

  lemma InsertIndexed(c: Chains, data: seq<byte>, n: nat)
    requires n + 2 < |data| <= MAX_LZ77_INPUT_SIZE && Indexed(c, data, n)
    ensures Indexed(Inserted(c, n, Hash3(data, n)), data, n + 1)
  {
    hide Hash3, Slot;
    var d := Inserted(c, n, Hash3(data, n));
    forall p: nat | p < n + 1 < p + WINDOW_SIZE + 1
      ensures d.prev[Slot(p)] == Last(data, Hash3(data, p), p)
    {
      if p < n {
        SlotsDiffer(p, n);
      }
    }
  }

  /** The positions worth comparing with: same hash, in the window, newest first, at most `count`. */
  function Candidates(data: seq<byte>, h: nat, n: nat, pos: nat, count: nat): (v: seq<nat>)
    requires n == 0 || n + 1 < |data|
    requires n <= pos
    ensures |v| <= count
    decreases count, n
  {
    var p := Last(data, h, n);
    if p == EMPTY || count == 0 || pos - p >= WINDOW_SIZE then [] else [p] + Candidates(data, h, p, pos, count - 1)
  }

  /** On an index the walk meets exactly the candidates: it is never cut short by a link that goes forwards. */
  lemma {:induction false} VisitsCandidates(c: Chains, data: seq<byte>, h: nat, n: nat, m: nat, pos: nat, last: nat,
                                            count: nat)
    requires n <= pos && m <= n && m <= last && |data| <= MAX_LZ77_INPUT_SIZE
    requires (n == 0 || n + 1 < |data|) && Indexed(c, data, n)
    ensures Visited(c, pos, Last(data, h, m), last, count) == Candidates(data, h, m, pos, count)
    decreases count
  {
    hide Hash3, Slot;
    var p := Last(data, h, m);
    if p != EMPTY && count > 0 && pos - p < WINDOW_SIZE {
      assert c.prev[Slot(p)] == Last(data, h, p);
      VisitsCandidates(c, data, h, n, p, pos, p, count - 1);
    }
  }

  /** Fewer candidates than the limit means all of them. */
  lemma {:induction false} CandidatesComplete(data: seq<byte>, h: nat, n: nat, pos: nat, count: nat, q: nat)
    requires n <= pos && |data| <= MAX_LZ77_INPUT_SIZE && n + 1 < |data|
    requires q < n && Hash3(data, q) == h && pos - q < WINDOW_SIZE
    requires |Candidates(data, h, n, pos, count)| < count
    ensures q in Candidates(data, h, n, pos, count)
    decreases count
  {
    hide Hash3;
    var p := Last(data, h, n);
    LastIsNewest(data, h, n, q);
    if q < p {
      CandidatesComplete(data, h, p, pos, count - 1, q);
    }
  }

  lemma {:induction false} LastIsNewest(data: seq<byte>, h: nat, n: nat, q: nat)
    requires n + 1 < |data| <= MAX_LZ77_INPUT_SIZE && q < n && Hash3(data, q) == h
    ensures Last(data, h, n) != EMPTY && q <= Last(data, h, n)
    decreases n
  {
    if q < n - 1 && Hash3(data, n - 1) != h {
      LastIsNewest(data, h, n - 1, q);
    }
  }

  lemma RepeatsHash(data: seq<byte>, pos: nat, q: nat)
    requires q <= pos && pos + 3 <= |data| && Repeats(data, pos, pos - q, 3)
    ensures Hash3(data, q) == Hash3(data, pos)
  {
    assert data[pos] == data[pos - (pos - q)] && data[pos + 1] == data[pos + 1 - (pos - q)]
           && data[pos + 2] == data[pos + 2 - (pos - q)];
  }

  // ---------------------------------------------------------------------------------------------
  // Searching
  // ---------------------------------------------------------------------------------------------

  /** No match has length `MIN_MATCH - 1`. */
  function LengthOf(best: Option<(nat, nat)>): nat {
    if best.Some? then best.value.1 else MIN_MATCH - 1
  }

  /** What an earlier position of the chain may at most match if the search went on to a match of `len`. */
  function Shorter(len: nat): (k: nat)
    requires len > 0
    ensures k < len && k < NICE_MATCH
  {
    if len < NICE_MATCH then len - 1 else NICE_MATCH - 1
  }

  ghost predicate AllNoLonger(data: seq<byte>, pos: nat, chain: seq<nat>, from: nat, to: nat, len: nat)
    requires pos <= |data| && to <= |chain|
  {
    forall i :: from <= i < to ==> chain[i] <= pos && NoLonger(data, pos, chain[i], len)
  }

  /**
   Position `i` of the chain is where the best match starts: a true match, longer than any the chain
   offers before it and, unless it is long enough to stop at, at least as long as any after it.
   */
  ghost predicate IsBestAtIndex(data: seq<byte>, pos: nat, chain: seq<nat>, i: nat, offset: nat, len: nat)
    requires pos <= |data|
  {
    && i < |chain| && offset <= pos && chain[i] == pos - offset
    && IsMatch(data, pos, offset, len)
    && AllNoLonger(data, pos, chain, 0, i, Shorter(len))
    && (len < NICE_MATCH ==> AllNoLonger(data, pos, chain, i + 1, |chain|, len))
  }

  /** The outcome of a search along `chain`: its best match, or none when it offers none at all. */
  ghost predicate IsBest(data: seq<byte>, pos: nat, chain: seq<nat>, best: Option<(nat, nat)>)
    requires pos <= |data|
  {
    match best
    case None => AllNoLonger(data, pos, chain, 0, |chain|, MIN_MATCH - 1)
    case Some(m) => exists i :: IsBestAtIndex(data, pos, chain, i, m.0, m.1)
  }

  /** A match is as long as the bytes repeat. */
  lemma MatchBounds(data: seq<byte>, pos: nat, offset: nat, len: nat, other: nat)
    requires pos <= |data| && IsMatch(data, pos, offset, len) && NoLonger(data, pos, pos - offset, other)
    ensures len <= other
  {
    RepeatsLess(data, pos, offset, len, if other < len then other + 1 else len);
  }

  lemma RepeatsLess(data: seq<byte>, pos: nat, offset: nat, len: nat, k: nat)
    requires offset <= pos && k <= len && pos + len <= |data| && Repeats(data, pos, offset, len)
    ensures Repeats(data, pos, offset, k)
  {
  }

  /** A chain has one best match. */
  lemma BestUnique(data: seq<byte>, pos: nat, chain: seq<nat>, a: Option<(nat, nat)>, b: Option<(nat, nat)>)
    requires pos + 2 < |data| && IsBest(data, pos, chain, a) && IsBest(data, pos, chain, b)
    ensures a == b
  {
    if a.Some? && b.Some? {
      var i :| IsBestAtIndex(data, pos, chain, i, a.value.0, a.value.1);
      var j :| IsBestAtIndex(data, pos, chain, j, b.value.0, b.value.1);
      BestIndexUnique(data, pos, chain, i, a.value.0, a.value.1, j, b.value.0, b.value.1);
      BestIndexUnique(data, pos, chain, j, b.value.0, b.value.1, i, a.value.0, a.value.1);
    } else if a.Some? {
      SomeIsNotNone(data, pos, chain, a.value.0, a.value.1);
    } else if b.Some? {
      SomeIsNotNone(data, pos, chain, b.value.0, b.value.1);
    }
  }

  lemma SomeIsNotNone(data: seq<byte>, pos: nat, chain: seq<nat>, offset: nat, len: nat)
    requires pos <= |data| && IsBest(data, pos, chain, Some((offset, len)))
    ensures !IsBest(data, pos, chain, None)
  {
    var i :| IsBestAtIndex(data, pos, chain, i, offset, len);
    if IsBest(data, pos, chain, None) {
      MatchBounds(data, pos, offset, len, MIN_MATCH - 1);
    }
  }

  lemma BestIndexUnique(data: seq<byte>, pos: nat, chain: seq<nat>, i: nat, offset: nat, len: nat, j: nat,
                        offset': nat, len': nat)
    requires pos <= |data|
    requires IsBestAtIndex(data, pos, chain, i, offset, len) && IsBestAtIndex(data, pos, chain, j, offset', len')
    ensures i >= j && (i == j ==> offset == offset' && len == len')
  {
    hide IsMatch, NoLonger;
    if i < j {
      MatchBounds(data, pos, offset, len, Shorter(len'));
      MatchBounds(data, pos, offset', len', len);
    } else if i == j {
      MatchSelf(data, pos, offset, len);
      MatchSelf(data, pos, offset', len');
      MatchBounds(data, pos, offset, len, len');
      MatchBounds(data, pos, offset', len', len);
    }
  }

  lemma MatchSelf(data: seq<byte>, pos: nat, offset: nat, len: nat)
    requires pos <= |data| && IsMatch(data, pos, offset, len)
    ensures offset <= pos && NoLonger(data, pos, pos - offset, len)
  {
  }

  /** The outcome of a search at `pos` when every position below `n` has been inserted: it depends on the data only. */
  ghost predicate IsBestAt(data: seq<byte>, n: nat, pos: nat, best: Option<(nat, nat)>)
    requires n <= pos && pos + 2 < |data|
  {
    IsBest(data, pos, Candidates(data, Hash3(data, pos), n, pos, MAX_CHAIN), best)
  }

  /**
   Completeness. With fewer than 256 candidates and no match of 258 bytes or more, nowhere in the
   window before `n` is there a longer match than the one found, and when none was found, none at all.
   */
  lemma NothingLonger(data: seq<byte>, n: nat, pos: nat, best: Option<(nat, nat)>, q: nat)
    requires q < n <= pos && pos + 2 < |data| <= MAX_LZ77_INPUT_SIZE && pos - q < WINDOW_SIZE
    ensures
      && IsBestAt(data, n, pos, best)
      && |Candidates(data, Hash3(data, pos), n, pos, MAX_CHAIN)| < MAX_CHAIN
      && LengthOf(best) < NICE_MATCH
      ==> NoLonger(data, pos, q, LengthOf(best))
  {
    hide Candidates, Hash3, NoLonger;
    var h, len := Hash3(data, pos), LengthOf(best);
    var chain := Candidates(data, h, n, pos, MAX_CHAIN);
    if IsBestAt(data, n, pos, best) && |chain| < MAX_CHAIN && len < NICE_MATCH {
      if q in chain {
        BestMember(data, pos, chain, best, q);
      } else {
        NotCandidate(data, h, n, pos, q, len);
      }
    }
  }

  lemma BestMember(data: seq<byte>, pos: nat, chain: seq<nat>, best: Option<(nat, nat)>, q: nat)
    requires pos <= |data| && IsBest(data, pos, chain, best) && q in chain && q <= pos && LengthOf(best) < NICE_MATCH
    ensures NoLonger(data, pos, q, LengthOf(best))
  {
    var len := LengthOf(best);
    var j :| 0 <= j < |chain| && chain[j] == q;
    if best.Some? {
      var i :| IsBestAtIndex(data, pos, chain, i, best.value.0, len);
      if j < i {
        LongerCovers(data, pos, q, Shorter(len), len);
      }
    }
  }

  /** A position of the window that is no candidate repeats fewer than three bytes. */
  lemma NotCandidate(data: seq<byte>, h: nat, n: nat, pos: nat, q: nat, len: nat)
    requires q < n <= pos && pos + 2 < |data| <= MAX_LZ77_INPUT_SIZE && pos - q < WINDOW_SIZE
    requires h == Hash3(data, pos) && |Candidates(data, h, n, pos, MAX_CHAIN)| < MAX_CHAIN
    requires q !in Candidates(data, h, n, pos, MAX_CHAIN) && len >= MIN_MATCH - 1
    ensures NoLonger(data, pos, q, len)
  {
    hide Candidates;
    if len < MaxLength(data, pos) && Repeats(data, pos, pos - q, len + 1) {
      RepeatsHash(data, pos, q);
      CandidatesComplete(data, h, n, pos, MAX_CHAIN, q);
    }
  }

  /** On an index, the search along the links is the search over the candidates. */
  lemma IndexedBest(c: Chains, data: seq<byte>, n: nat, pos: nat, best: Option<(nat, nat)>)
    requires c.WellFormed() && n <= pos && pos + 2 < |data| <= MAX_LZ77_INPUT_SIZE && Indexed(c, data, n)
    requires IsBest(data, pos, Visited(c, pos, c.head[Hash3(data, pos)], pos, MAX_CHAIN), best)
    ensures IsBestAt(data, n, pos, best)
  {
    hide Candidates, Visited, Hash3, IsBest;
    HeadIsLast(c, data, n, Hash3(data, pos));
    VisitsCandidates(c, data, Hash3(data, pos), n, n, pos, pos, MAX_CHAIN);
  }

  lemma HeadIsLast(c: Chains, data: seq<byte>, n: nat, h: nat)
    requires (n == 0 || n + 1 < |data|) && Indexed(c, data, n) && h < HASH_SIZE
    ensures c.head[h] == Last(data, h, n)
  {
  }

  method CommonLength(data: seq<byte>, a: nat, b: nat, limit: nat) returns (len: nat)
    requires a <= b && b + limit <= |data|
    ensures len <= limit && Repeats(data, b, b - a, len)
    ensures len < limit ==> data[b + len] != data[a + len]
  {
    len := 0;
    while len < limit && data[a + len] == data[b + len]
      invariant len <= limit && Repeats(data, b, b - a, len)
    {
      len := len + 1;
    }
  }

  lemma ExtendMatch(data: seq<byte>, pos: nat, offset: nat, more: nat)
    requires 1 <= offset < WINDOW_SIZE && offset <= pos && pos + 2 < |data|
    requires 2 + more <= MaxLength(data, pos)
    requires data[pos - offset] == data[pos] && data[pos - offset + 1] == data[pos + 1]
    requires Repeats(data, pos + 2, offset, more)
    requires more < MaxLength(data, pos) - 2 ==> data[pos + 2 + more] != data[pos - offset + 2 + more]
    ensures 2 + more >= MIN_MATCH ==> IsMatch(data, pos, offset, 2 + more)
    ensures NoLonger(data, pos, pos - offset, 2 + more)
  {
    forall j | pos <= j < pos + 2 + more
      ensures data[j] == data[j - offset]
    {
    }
    if 2 + more < MaxLength(data, pos) {
      assert data[pos + 2 + more] != data[pos + 2 + more - offset];
    }
  }

  lemma Differs(data: seq<byte>, pos: nat, start: nat, j: nat, len: nat)
    requires start <= pos && j <= len && pos + j < |data| && data[start + j] != data[pos + j]
    ensures NoLonger(data, pos, start, len)
  {
    if len < MaxLength(data, pos) {
      assert data[pos + j] != data[pos + j - (pos - start)];
    }
  }

  lemma LongerCovers(data: seq<byte>, pos: nat, start: nat, len: nat, longer: nat)
    requires start <= pos <= |data| && len <= longer && NoLonger(data, pos, start, len)
    ensures NoLonger(data, pos, start, longer)
  {
  }

  /** Head and predecessor arrays, overwritten in place. */
  class MatchFinder {
    const head: array<nat>
    const prev: array<nat>

    predicate Valid()
    {
      head.Length == HASH_SIZE && prev.Length == WINDOW_SIZE && head != prev
    }

    ghost function State(): (c: Chains)
      requires Valid()
      reads head, prev
      ensures c.WellFormed()
    {
      Chains(head[..], prev[..])
    }

    constructor ()
      ensures Valid() && fresh(head) && fresh(prev)
      ensures forall h :: 0 <= h < HASH_SIZE ==> head[h] == EMPTY
    {
      head := new nat[HASH_SIZE](_ => EMPTY);
      prev := new nat[WINDOW_SIZE](_ => EMPTY);
    }

    /** The slot of an older position is overwritten. */
    method Insert(pos: nat, hash: nat)
      requires Valid() && hash < HASH_SIZE
      modifies head, prev
      ensures State() == Inserted(old(State()), pos, hash)
    {
      if pos > MAX_LZ77_INPUT_SIZE {
        return;
      }
      prev[Slot(pos)] := head[hash];
      head[hash] := pos;
    }

    /** Links are followed whatever they hold; the first of the longest matches wins. */
    method FindBest(data: seq<byte>, pos: nat, hash: nat) returns (best: Option<(nat, nat)>)
      requires Valid() && hash < HASH_SIZE && pos + 2 < |data|
      ensures IsBest(data, pos, Visited(State(), pos, head[hash], pos, MAX_CHAIN), best)
    {
      hide Visited, Kept, IsBest, NoLonger, IsMatch, Slot;
      ghost var c := State();
      ghost var chain := Visited(c, pos, head[hash], pos, MAX_CHAIN);
      var bestLen: nat, bestOffset: nat := MIN_MATCH - 1, 0;
      var chainPos: nat := head[hash];
      var chainCount: nat := 0;
      var lastRefPos: nat := pos;
      KeptNone(data, pos, chain);
      while chainPos != EMPTY && chainCount < MAX_CHAIN
        invariant 2 <= bestLen < MaxLength(data, pos) && bestLen < NICE_MATCH && chainCount <= MAX_CHAIN
        invariant OnChain(c, pos, chain, chainCount, chainPos, lastRefPos)
        invariant Kept(data, pos, chain, chainCount, bestOffset, bestLen)
        decreases MAX_CHAIN - chainCount
      {
        var refPos: nat := chainPos;
        if refPos >= pos || pos - refPos >= WINDOW_SIZE {
          break;
        }
        if refPos >= lastRefPos {
          break;
        }
        ChainNext(c, pos, chain, chainCount, refPos, lastRefPos);
        lastRefPos := refPos;
        var len := Compare(data, pos, refPos, bestLen);
        if len > bestLen {
          KeepNew(data, pos, chain, chainCount, bestOffset, bestLen, len);
          bestLen, bestOffset := len, pos - refPos;
          if len >= NICE_MATCH || len == MaxLength(data, pos) {
            StopIsBest(data, pos, chain, chainCount + 1, bestOffset, bestLen);
            return Some((bestOffset, bestLen));
          }
        } else {
          KeepOld(data, pos, chain, chainCount, bestOffset, bestLen);
        }
        chainPos := prev[Slot(refPos)];
        chainCount := chainCount + 1;
      }
      ChainEnd(c, pos, chain, chainCount, chainPos, lastRefPos);
      EndIsBest(data, pos, chain, bestOffset, bestLen);
      if bestLen >= MIN_MATCH {
        return Some((bestOffset, bestLen));
      }
      return None;
    }

    /** How long the match at `refPos` is, as far as that matters for beating `bestLen`. */
    static method Compare(data: seq<byte>, pos: nat, refPos: nat, bestLen: nat) returns (len: nat)
      requires pos + 2 < |data| && refPos < pos && pos - refPos < WINDOW_SIZE && 2 <= bestLen < MaxLength(data, pos)
      ensures len <= MaxLength(data, pos) && NoLonger(data, pos, refPos, if len > bestLen then len else bestLen)
      ensures len > bestLen ==> IsMatch(data, pos, pos - refPos, len)
    {
      hide IsMatch, NoLonger, Repeats;
      if data[refPos + bestLen] == data[pos + bestLen] && data[refPos] == data[pos]
          && data[refPos + 1] == data[pos + 1] {
        var more := CommonLength(data, refPos + 2, pos + 2, MaxLength(data, pos) - 2);
        ExtendMatch(data, pos, pos - refPos, more);
        len := 2 + more;
        if len <= bestLen {
          LongerCovers(data, pos, refPos, len, bestLen);
        }
      } else {
        len := 0;
        var at := if data[refPos + bestLen] != data[pos + bestLen] then bestLen
                  else if data[refPos] != data[pos] then 0 else 1;
        Differs(data, pos, refPos, at, bestLen);
      }
    }
  }

  /** The best of the first `k` positions of the chain, found at position `at`. */
  ghost predicate KeptAt(data: seq<byte>, pos: nat, chain: seq<nat>, k: nat, at: nat, offset: nat, len: nat)
    requires pos <= |data|
  {
    && at < k <= |chain| && offset <= pos && chain[at] == pos - offset
    && IsMatch(data, pos, offset, len)
    && AllNoLonger(data, pos, chain, 0, at, Shorter(len))
    && AllNoLonger(data, pos, chain, at + 1, k, len)
  }

  ghost predicate Kept(data: seq<byte>, pos: nat, chain: seq<nat>, k: nat, offset: nat, len: nat)
    requires pos <= |data|
  {
    && k <= |chain|
    && if len == MIN_MATCH - 1 then AllNoLonger(data, pos, chain, 0, k, MIN_MATCH - 1)
       else exists at :: KeptAt(data, pos, chain, k, at, offset, len)
  }

  lemma KeptNone(data: seq<byte>, pos: nat, chain: seq<nat>)
    requires pos <= |data|
    ensures Kept(data, pos, chain, 0, 0, MIN_MATCH - 1)
  {
  }

  lemma KeepOld(data: seq<byte>, pos: nat, chain: seq<nat>, k: nat, offset: nat, len: nat)
    requires pos <= |data| && k < |chain| && chain[k] <= pos && Kept(data, pos, chain, k, offset, len)
    requires NoLonger(data, pos, chain[k], len)
    ensures Kept(data, pos, chain, k + 1, offset, len)
  {
    hide NoLonger, IsMatch;
    if len != MIN_MATCH - 1 {
      var at :| KeptAt(data, pos, chain, k, at, offset, len);
      assert KeptAt(data, pos, chain, k + 1, at, offset, len);
    }
  }

  /** Whatever was kept is shorter than a new, longer match. */
  lemma KeepNew(data: seq<byte>, pos: nat, chain: seq<nat>, k: nat, offset: nat, len: nat, longer: nat)
    requires pos <= |data| && k < |chain| && chain[k] < pos && Kept(data, pos, chain, k, offset, len)
    requires MIN_MATCH - 1 <= len < longer && len < NICE_MATCH && IsMatch(data, pos, pos - chain[k], longer)
    ensures Kept(data, pos, chain, k + 1, pos - chain[k], longer)
  {
    forall i | 0 <= i < k
      ensures chain[i] <= pos && NoLonger(data, pos, chain[i], Shorter(longer))
    {
      SeenNoLonger(data, pos, chain, k, offset, len, i);
      LongerCovers(data, pos, chain[i], len, Shorter(longer));
    }
    hide NoLonger, IsMatch;
    assert KeptAt(data, pos, chain, k + 1, k, pos - chain[k], longer);
  }

  lemma SeenNoLonger(data: seq<byte>, pos: nat, chain: seq<nat>, k: nat, offset: nat, len: nat, i: nat)
    requires pos <= |data| && Kept(data, pos, chain, k, offset, len) && i < k && len > 0
    ensures chain[i] <= pos && NoLonger(data, pos, chain[i], len)
  {
    if len != MIN_MATCH - 1 {
      var at :| KeptAt(data, pos, chain, k, at, offset, len);
      if i < at {
        LongerCovers(data, pos, chain[i], Shorter(len), len);
      } else if i == at {
        MatchSelf(data, pos, offset, len);
      }
    }
  }

  /** A match as long as can be, or long enough to stop at. */
  lemma StopIsBest(data: seq<byte>, pos: nat, chain: seq<nat>, k: nat, offset: nat, len: nat)
    requires pos <= |data| && len >= MIN_MATCH && Kept(data, pos, chain, k, offset, len)
    requires len >= NICE_MATCH || len == MaxLength(data, pos)
    requires forall i :: 0 <= i < |chain| ==> chain[i] <= pos
    ensures IsBest(data, pos, chain, Some((offset, len)))
  {
    var at :| KeptAt(data, pos, chain, k, at, offset, len);
    assert IsBestAtIndex(data, pos, chain, at, offset, len);
  }

  lemma EndIsBest(data: seq<byte>, pos: nat, chain: seq<nat>, offset: nat, len: nat)
    requires pos <= |data| && len >= MIN_MATCH - 1 && Kept(data, pos, chain, |chain|, offset, len)
    ensures IsBest(data, pos, chain, if len >= MIN_MATCH then Some((offset, len)) else None)
  {
    hide NoLonger, IsMatch;
    if len >= MIN_MATCH {
      var at :| KeptAt(data, pos, chain, |chain|, at, offset, len);
      assert IsBestAtIndex(data, pos, chain, at, offset, len);
    }
  }

  /** The walk has followed `k` links and is about to follow `at`. */
  ghost predicate OnChain(c: Chains, pos: nat, chain: seq<nat>, k: nat, at: nat, last: nat)
    requires c.WellFormed() && k <= MAX_CHAIN
  {
    k <= |chain| && chain[k..] == Visited(c, pos, at, last, MAX_CHAIN - k)
  }

  lemma ChainNext(c: Chains, pos: nat, chain: seq<nat>, k: nat, at: nat, last: nat)
    requires c.WellFormed() && k < MAX_CHAIN && OnChain(c, pos, chain, k, at, last)
    requires at != EMPTY && at < pos && pos - at < WINDOW_SIZE && at < last
    ensures k < |chain| && chain[k] == at && OnChain(c, pos, chain, k + 1, c.prev[Slot(at)], at)
  {
    assert chain[k] == chain[k..][0] && chain[k + 1..] == chain[k..][1..];
  }

  lemma ChainEnd(c: Chains, pos: nat, chain: seq<nat>, k: nat, at: nat, last: nat)
    requires c.WellFormed() && k <= MAX_CHAIN && OnChain(c, pos, chain, k, at, last)
    requires at == EMPTY || k == MAX_CHAIN || at >= pos || pos - at >= WINDOW_SIZE || at >= last
    ensures k == |chain|
  {
  }
}
