/**
 The parse the LZ77 encoder makes of its input (`coding/lz77_preprocess.rs`, main loop): which matches
 are taken and which positions stay literal. It is determined by the data alone.
 */
module Lz77Parsing {
  import opened Bytes
  import opened Lz77
  import opened Lz77Chains

  /** A match taken at `pos`; the bytes since the previous one are literals. */
  datatype Token = Token(pos: nat, offset: nat, len: nat)

  /** The next position starts a match longer by two or more. */
  ghost predicate Defers(data: seq<byte>, pos: nat, len: nat)
    requires pos + 2 < |data|
  {
    && pos + 3 < |data|
    && exists next: Option<(nat, nat)> :: IsBestAt(data, pos, pos + 1, next) && next.Some? && next.value.1 > len + 1
  }

  /** A match is taken unless it is put off, which never happens twice running. */
  ghost predicate Takes(data: seq<byte>, pos: nat, deferred: bool, best: Option<(nat, nat)>)
    requires pos + 2 < |data|
  {
    best.Some? && (deferred || !Defers(data, pos, best.value.1))
  }

  /**
   `tokens` are the matches taken from `pos` on. At each position the best match among all earlier
   positions decides: taken, it becomes a token and the parse goes on behind it; put off or missing,
   the position stays literal.
   */
  ghost predicate IsParse(data: seq<byte>, pos: nat, deferred: bool, tokens: seq<Token>)
    requires pos <= |data|
    decreases |data| - pos
  {
    if pos + 2 >= |data| then tokens == [] else
    exists best: Option<(nat, nat)> :: IsBestAt(data, pos, pos, best) &&
      if Takes(data, pos, deferred, best) then
        && tokens != [] && tokens[0] == Token(pos, best.value.0, best.value.1)
        && 0 < best.value.1 <= |data| - pos
        && IsParse(data, pos + best.value.1, false, tokens[1..])
      else IsParse(data, pos + 1, best.Some?, tokens)
  }

  /** The rules leave no choice: an input has one parse. */
  lemma {:induction false} ParseUnique(data: seq<byte>, pos: nat, deferred: bool, a: seq<Token>, b: seq<Token>)
    requires pos <= |data| && IsParse(data, pos, deferred, a) && IsParse(data, pos, deferred, b)
    ensures a == b
    decreases |data| - pos
  {
    hide IsParse, Defers, IsBestAt;
    if pos + 2 >= |data| {
      ParseOver(data, pos, deferred, a);
      ParseOver(data, pos, deferred, b);
    } else {
      var best := ParseBest(data, pos, deferred, a);
      var other := ParseBest(data, pos, deferred, b);
      BestAtUnique(data, pos, pos, best, other);
      if Takes(data, pos, deferred, best) {
        ParseUnique(data, pos + best.value.1, false, a[1..], b[1..]);
        assert a == [a[0]] + a[1..] && b == [b[0]] + b[1..];
      } else {
        ParseUnique(data, pos + 1, best.Some?, a, b);
      }
    }
  }

  /** The best match a parse goes by at its first position. */
  lemma ParseBest(data: seq<byte>, pos: nat, deferred: bool, tokens: seq<Token>) returns (best: Option<(nat, nat)>)
    requires pos + 2 < |data| && IsParse(data, pos, deferred, tokens)
    ensures IsBestAt(data, pos, pos, best)
    ensures if Takes(data, pos, deferred, best) then
              && tokens != [] && tokens[0] == Token(pos, best.value.0, best.value.1)
              && 0 < best.value.1 <= |data| - pos
              && IsParse(data, pos + best.value.1, false, tokens[1..])
            else IsParse(data, pos + 1, best.Some?, tokens)
  {
    hide Defers, IsBestAt;
    best :| IsBestAt(data, pos, pos, best) &&
      if Takes(data, pos, deferred, best) then
        && tokens != [] && tokens[0] == Token(pos, best.value.0, best.value.1)
        && 0 < best.value.1 <= |data| - pos
        && IsParse(data, pos + best.value.1, false, tokens[1..])
      else IsParse(data, pos + 1, best.Some?, tokens);
  }

  lemma BestAtUnique(data: seq<byte>, n: nat, pos: nat, a: Option<(nat, nat)>, b: Option<(nat, nat)>)
    requires n <= pos && pos + 2 < |data| && IsBestAt(data, n, pos, a) && IsBestAt(data, n, pos, b)
    ensures a == b
  {
    hide Candidates, Hash3, IsBest;
    BestUnique(data, pos, Candidates(data, Hash3(data, pos), n, pos, MAX_CHAIN), a, b);
  }

  /** With the search at the next position done, whether to put off is known. */
  lemma DefersIs(data: seq<byte>, pos: nat, len: nat, next: Option<(nat, nat)>)
    requires pos + 3 < |data| && IsBestAt(data, pos, pos + 1, next)
    ensures Defers(data, pos, len) <==> next.Some? && next.value.1 > len + 1
  {
    hide IsBestAt;
    if Defers(data, pos, len) {
      var other: Option<(nat, nat)> :| IsBestAt(data, pos, pos + 1, other) && other.Some? && other.value.1 > len + 1;
      BestAtUnique(data, pos, pos + 1, next, other);
    }
  }

  lemma BestIsMatch(data: seq<byte>, n: nat, pos: nat, best: Option<(nat, nat)>)
    requires n <= pos && pos + 2 < |data| && IsBestAt(data, n, pos, best) && best.Some?
    ensures IsMatch(data, pos, best.value.0, best.value.1) && pos + best.value.1 <= |data|
  {
  }

  // ---------------------------------------------------------------------------------------------
  // Parses from the left
  // ---------------------------------------------------------------------------------------------

  /** Where the matches end so far. */
  function End(tokens: seq<Token>): nat {
    if tokens == [] then 0 else var t := tokens[|tokens| - 1]; t.pos + t.len
  }

  /** True matches in order, none overlapping the next. */
  ghost predicate IsLayout(data: seq<byte>, tokens: seq<Token>)
    ensures IsLayout(data, tokens) ==> End(tokens) <= |data|
  {
    tokens == [] ||
    var front, t := tokens[..|tokens| - 1], tokens[|tokens| - 1];
    IsLayout(data, front) && End(front) <= t.pos <= |data| && IsMatch(data, t.pos, t.offset, t.len)
  }

  lemma LayoutPush(data: seq<byte>, tokens: seq<Token>, t: Token)
    requires IsLayout(data, tokens) && End(tokens) <= t.pos <= |data| && IsMatch(data, t.pos, t.offset, t.len)
    ensures IsLayout(data, tokens + [t]) && End(tokens + [t]) == t.pos + t.len
  {
    assert (tokens + [t])[..|tokens|] == tokens;
  }

  /** A parse consists of true matches that do not overlap. */
  lemma {:induction false} ParseIsLayout(data: seq<byte>, done: seq<Token>, pos: nat, deferred: bool, rest: seq<Token>)
    requires IsLayout(data, done) && End(done) <= pos <= |data| && IsParse(data, pos, deferred, rest)
    ensures IsLayout(data, done + rest)
    decreases |data| - pos
  {
    hide IsLayout, IsParse, Defers, IsBestAt, IsMatch;
    if pos + 2 >= |data| {
      ParseOver(data, pos, deferred, rest);
      assert done + rest == done;
    } else {
      var best := ParseBest(data, pos, deferred, rest);
      if Takes(data, pos, deferred, best) {
        BestIsMatch(data, pos, pos, best);
        LayoutPush(data, done, rest[0]);
        ParseIsLayout(data, done + [rest[0]], pos + best.value.1, false, rest[1..]);
        assert (done + [rest[0]]) + rest[1..] == done + rest;
      } else {
        ParseIsLayout(data, done, pos + 1, best.Some?, rest);
      }
    }
  }

  lemma ParseOver(data: seq<byte>, pos: nat, deferred: bool, tokens: seq<Token>)
    requires pos <= |data| <= pos + 2
    ensures IsParse(data, pos, deferred, tokens) <==> tokens == []
  {
  }

  /** Every match taken is the best at its position, with every position before it to choose from. */
  lemma {:induction false} TokensAreBest(data: seq<byte>, pos: nat, deferred: bool, tokens: seq<Token>, k: nat)
    requires pos <= |data| && IsParse(data, pos, deferred, tokens) && k < |tokens|
    ensures var t := tokens[k];
            pos <= t.pos && t.pos + 2 < |data| && IsBestAt(data, t.pos, t.pos, Some((t.offset, t.len)))
    decreases |data| - pos
  {
    hide IsParse, Defers, IsBestAt;
    if pos + 2 >= |data| {
      ParseOver(data, pos, deferred, tokens);
    } else {
      var best := ParseBest(data, pos, deferred, tokens);
      if !Takes(data, pos, deferred, best) {
        TokensAreBest(data, pos + 1, best.Some?, tokens, k);
      } else if k > 0 {
        TokensAreBest(data, pos + best.value.1, false, tokens[1..], k - 1);
      }
    }
  }

  // ---------------------------------------------------------------------------------------------
  // The lazy rule, said of the finished parse
  // ---------------------------------------------------------------------------------------------

  ghost predicate InMatch(tokens: seq<Token>, p: nat) {
    exists i :: 0 <= i < |tokens| && tokens[i].pos <= p < tokens[i].pos + tokens[i].len
  }

  /** The next position, with only the positions before `p` to choose from, starts a match longer by two or more. */
  ghost predicate LongerNext(data: seq<byte>, p: nat, len: nat) {
    p + 3 < |data|
    && exists next: Option<(nat, nat)> :: IsBestAt(data, p, p + 1, next) && next.Some? && next.value.1 >= len + 2
  }

  lemma OutsideTail(tokens: seq<Token>, p: nat)
    requires tokens != [] && tokens[0].pos <= p && !InMatch(tokens, p)
    ensures tokens[0].pos + tokens[0].len <= p && !InMatch(tokens[1..], p)
  {
    forall i | 0 <= i < |tokens[1..]|
      ensures !(tokens[1..][i].pos <= p < tokens[1..][i].pos + tokens[1..][i].len)
    {
      assert tokens[i + 1] == tokens[1..][i];
    }
  }

  /** A position outside all matches has no match, or was put off for a longer one, and not after another one was. */
  lemma {:induction false} LiteralPosition(data: seq<byte>, pos: nat, deferred: bool, tokens: seq<Token>, p: nat,
                                           best: Option<(nat, nat)>)
    requires pos <= p && p + 2 < |data| && IsParse(data, pos, deferred, tokens) && !InMatch(tokens, p)
    requires IsBestAt(data, p, p, best)
    ensures best == None || LongerNext(data, p, best.value.1)
    ensures p == pos && deferred ==> best == None
    decreases |data| - pos
  {
    hide IsParse, IsBestAt, Defers;
    var found := ParseBest(data, pos, deferred, tokens);
    var takes := Takes(data, pos, deferred, found);
    if takes {
      OutsideTail(tokens, p);
      LiteralPosition(data, pos + found.value.1, false, tokens[1..], p, best);
    } else if p > pos {
      LiteralPosition(data, pos + 1, found.Some?, tokens, p, best);
    } else {
      BestAtUnique(data, p, p, best, found);
      if best.Some? {
        DeferredLonger(data, p, best.value.1);
      }
    }
  }

  lemma DeferredLonger(data: seq<byte>, p: nat, len: nat)
    requires p + 2 < |data| && Defers(data, p, len)
    ensures LongerNext(data, p, len)
  {
    hide IsBestAt;
    var next: Option<(nat, nat)> :| IsBestAt(data, p, p + 1, next) && next.Some? && next.value.1 > len + 1;
    assert next.value.1 >= len + 2;
  }

  /** Every position outside all matches was searched. */
  lemma {:induction false} LiteralSearched(data: seq<byte>, pos: nat, deferred: bool, tokens: seq<Token>, p: nat)
    returns (best: Option<(nat, nat)>)
    requires pos <= p && p + 2 < |data| && IsParse(data, pos, deferred, tokens) && !InMatch(tokens, p)
    ensures IsBestAt(data, p, p, best)
    decreases |data| - pos
  {
    hide IsParse, IsBestAt, Defers;
    best := ParseBest(data, pos, deferred, tokens);
    if Takes(data, pos, deferred, best) {
      OutsideTail(tokens, p);
      best := LiteralSearched(data, pos + best.value.1, false, tokens[1..], p);
    } else if p > pos {
      best := LiteralSearched(data, pos + 1, best.Some?, tokens, p);
    }
  }

  /** Of two neighbouring positions outside all matches one has no match. */
  lemma {:induction false} NeverTwiceRunning(data: seq<byte>, pos: nat, deferred: bool, tokens: seq<Token>, p: nat,
                                             a: Option<(nat, nat)>, b: Option<(nat, nat)>)
    requires pos <= p && p + 3 < |data| && IsParse(data, pos, deferred, tokens)
    requires !InMatch(tokens, p) && !InMatch(tokens, p + 1)
    requires IsBestAt(data, p, p, a) && IsBestAt(data, p + 1, p + 1, b)
    ensures a == None || b == None
    decreases |data| - pos
  {
    hide IsParse, IsBestAt, Defers;
    var found := ParseBest(data, pos, deferred, tokens);
    if Takes(data, pos, deferred, found) {
      OutsideTail(tokens, p);
      OutsideTail(tokens, p + 1);
      NeverTwiceRunning(data, pos + found.value.1, false, tokens[1..], p, a, b);
    } else if p == pos {
      BestAtUnique(data, p, p, a, found);
      LiteralPosition(data, pos + 1, found.Some?, tokens, p + 1, b);
    } else {
      NeverTwiceRunning(data, pos + 1, found.Some?, tokens, p, a, b);
    }
  }

  /** The position before `p` starts a match, and no match before the `i`-th reaches up to `p`. */
  ghost predicate WasPutOff(data: seq<byte>, tokens: seq<Token>, i: nat, p: nat)
    requires i <= |tokens| && 0 < p && p + 1 < |data|
  {
    && (forall j :: 0 <= j < i ==> tokens[j].pos + tokens[j].len < p)
    && exists best: Option<(nat, nat)> :: IsBestAt(data, p - 1, p - 1, best) && best.Some?
  }

  /** A match is taken in spite of a longer one at the next position only when one had just been put off. */
  lemma {:induction false} TakenNow(data: seq<byte>, pos: nat, deferred: bool, tokens: seq<Token>, i: nat)
    requires pos <= |data| && IsParse(data, pos, deferred, tokens) && i < |tokens|
    ensures var t := tokens[i];
            && pos <= t.pos && t.pos + 2 < |data|
            && (!LongerNext(data, t.pos, t.len) || (t.pos == pos && deferred)
                || (t.pos > pos && WasPutOff(data, tokens, i, t.pos)))
    decreases |data| - pos
  {
    hide IsParse, IsBestAt, Defers;
    if pos + 2 >= |data| {
      ParseOver(data, pos, deferred, tokens);
    } else {
      var best := ParseBest(data, pos, deferred, tokens);
      var t := tokens[i];
      if !Takes(data, pos, deferred, best) {
        TakenNow(data, pos + 1, best.Some?, tokens, i);
        if t.pos == pos + 1 && best.Some? {
          NoneBefore(data, pos + 1, best.Some?, tokens, i);
          assert IsBestAt(data, t.pos - 1, t.pos - 1, best);
        }
      } else if i > 0 {
        TakenNow(data, pos + best.value.1, false, tokens[1..], i - 1);
        ShiftPutOff(data, tokens, i, pos + best.value.1);
      } else if LongerNext(data, pos, t.len) {
        LongerDefers(data, pos, t.len);
      }
    }
  }

  lemma LongerDefers(data: seq<byte>, p: nat, len: nat)
    requires p + 2 < |data| && LongerNext(data, p, len)
    ensures Defers(data, p, len)
  {
    hide IsBestAt;
    var next: Option<(nat, nat)> :| IsBestAt(data, p, p + 1, next) && next.Some? && next.value.1 >= len + 2;
    assert next.value.1 > len + 1;
  }

  lemma ShiftPutOff(data: seq<byte>, tokens: seq<Token>, i: nat, end: nat)
    requires 0 < i < |tokens| && tokens[0].pos + tokens[0].len == end <= tokens[i].pos && tokens[i].pos + 2 < |data|
    ensures end < tokens[i].pos && WasPutOff(data, tokens[1..], i - 1, tokens[i].pos)
            ==> WasPutOff(data, tokens, i, tokens[i].pos)
  {
    hide IsBestAt;
    if end < tokens[i].pos && WasPutOff(data, tokens[1..], i - 1, tokens[i].pos) {
      forall j | 0 <= j < i
        ensures tokens[j].pos + tokens[j].len < tokens[i].pos
      {
        if j > 0 {
          assert tokens[1..][j - 1] == tokens[j];
        }
      }
    }
  }

  /** A match at the first position of a parse is its first. */
  lemma NoneBefore(data: seq<byte>, pos: nat, deferred: bool, tokens: seq<Token>, i: nat)
    requires pos <= |data| && IsParse(data, pos, deferred, tokens) && i < |tokens| && tokens[i].pos == pos
    ensures i == 0
  {
    hide IsParse, IsBestAt, Defers;
    if pos + 2 >= |data| {
      ParseOver(data, pos, deferred, tokens);
    } else {
      var best := ParseBest(data, pos, deferred, tokens);
      if !Takes(data, pos, deferred, best) {
        TokensAreBest(data, pos + 1, best.Some?, tokens, i);
      } else if i > 0 {
        TokensAreBest(data, pos + best.value.1, false, tokens[1..], i - 1);
      }
    }
  }

  /** However a parse goes on from `pos`, `done` before it makes a parse of the whole. */
  ghost predicate Leads(data: seq<byte>, done: seq<Token>, pos: nat, deferred: bool)
    requires pos <= |data|
  {
    forall rest {:trigger done + rest} :: IsParse(data, pos, deferred, rest) ==> IsParse(data, 0, false, done + rest)
  }

  lemma LeadsStart(data: seq<byte>)
    ensures Leads(data, [], 0, false)
  {
    hide IsParse;
    forall rest: seq<Token> | IsParse(data, 0, false, rest)
      ensures IsParse(data, 0, false, [] + rest)
    {
      assert [] + rest == rest;
    }
  }

  lemma LeadsTake(data: seq<byte>, done: seq<Token>, pos: nat, deferred: bool, best: Option<(nat, nat)>)
    requires pos + 2 < |data| && Leads(data, done, pos, deferred)
    requires IsBestAt(data, pos, pos, best) && Takes(data, pos, deferred, best) && 0 < best.value.1 <= |data| - pos
    ensures Leads(data, done + [Token(pos, best.value.0, best.value.1)], pos + best.value.1, false)
  {
    hide IsBestAt, Takes, Defers, IsParse;
    assert best.Some? by { TakesSome(data, pos, deferred, best); }
    var t := Token(pos, best.value.0, best.value.1);
    forall rest | IsParse(data, pos + best.value.1, false, rest)
      ensures IsParse(data, 0, false, (done + [t]) + rest)
    {
      ParseTake(data, pos, deferred, best, rest);
      assert IsParse(data, 0, false, done + ([t] + rest));
      assert done + ([t] + rest) == (done + [t]) + rest;
    }
  }

  lemma TakesSome(data: seq<byte>, pos: nat, deferred: bool, best: Option<(nat, nat)>)
    requires pos + 2 < |data| && Takes(data, pos, deferred, best)
    ensures best.Some?
  {
  }

  lemma ParseTake(data: seq<byte>, pos: nat, deferred: bool, best: Option<(nat, nat)>, rest: seq<Token>)
    requires pos + 2 < |data| && IsBestAt(data, pos, pos, best) && Takes(data, pos, deferred, best)
    requires 0 < best.value.1 <= |data| - pos && IsParse(data, pos + best.value.1, false, rest)
    ensures IsParse(data, pos, deferred, [Token(pos, best.value.0, best.value.1)] + rest)
  {
    hide IsBestAt, Defers;
    assert ([Token(pos, best.value.0, best.value.1)] + rest)[1..] == rest;
  }

  lemma LeadsSkip(data: seq<byte>, done: seq<Token>, pos: nat, deferred: bool, best: Option<(nat, nat)>)
    requires pos + 2 < |data| && Leads(data, done, pos, deferred)
    requires IsBestAt(data, pos, pos, best) && !Takes(data, pos, deferred, best)
    ensures Leads(data, done, pos + 1, best.Some?)
  {
    hide IsBestAt, Defers;
    forall rest | IsParse(data, pos + 1, best.Some?, rest)
      ensures IsParse(data, 0, false, done + rest)
    {
      assert IsParse(data, pos, deferred, rest);
    }
  }

  lemma LeadsEnd(data: seq<byte>, done: seq<Token>, pos: nat, deferred: bool)
    requires pos <= |data| <= pos + 2 && Leads(data, done, pos, deferred)
    ensures IsParse(data, 0, false, done)
  {
    ParseOver(data, pos, deferred, []);
    hide IsParse;
    assert done + [] == done;
  }
}
