/**
 The parse state machine of the LZ-aware predictor (`entropy/lz4_aware.rs`) and its synchronisation
 with the LZ77 decoder: on every stream the decoder accepts, the machine knows each byte's role.
 */
module Lz4Fsm {
  import opened Bytes
  import opened Lz77
  import Lz77Encoding
  import Lz77Parsing

  const MAX_LIT_LEN: nat := 256 * 1024 * 1024

  datatype ParseState =
    | SizePrefix(byteIndex: nat)
    | Token
    | LitLenExt
    | Literals(remaining: nat)
    | MatchOffsetLow
    | MatchOffsetHigh
    | MatchLenExt

  datatype Fsm = Fsm(state: ParseState, litLenAccum: nat, matchLenNibble: nat)

  const START: Fsm := Fsm(SizePrefix(0), 0, 0)

  /** `next_state`, after the counters have been updated. */
  function NextState(f: Fsm, b: byte): ParseState {
    match f.state
    case SizePrefix(i) => if i < 3 then SizePrefix(i + 1) else Token
    case Token =>
      if b / 16 == 15 then LitLenExt
      else if b / 16 > 0 then Literals(b / 16)
      else MatchOffsetLow
    case LitLenExt =>
      if b == 255 then LitLenExt
      else if f.litLenAccum > 0 then Literals(f.litLenAccum)
      else MatchOffsetLow
    case Literals(remaining) => if remaining > 1 then Literals(remaining - 1) else MatchOffsetLow
    case MatchOffsetLow => MatchOffsetHigh
    case MatchOffsetHigh => if f.matchLenNibble == 15 then MatchLenExt else Token
    case MatchLenExt => if b == 255 then MatchLenExt else Token
  }

  /** The counters `update` maintains. */
  function Counted(f: Fsm, b: byte): Fsm {
    match f.state
    case Token => f.(matchLenNibble := b % 16, litLenAccum := if b / 16 == 15 then 15 else f.litLenAccum)
    case LitLenExt => f.(litLenAccum := if f.litLenAccum + b < MAX_LIT_LEN then f.litLenAccum + b else MAX_LIT_LEN)
    case _ => f
  }

  function Updated(f: Fsm, b: byte): Fsm {
    var c := Counted(f, b);
    c.(state := NextState(c, b))
  }

  /** `Lz4AwarePredictor`, without its frequency tables. */
  class Lz4AwarePredictor {
    var state: ParseState
    var litLenAccum: nat
    var matchLenNibble: nat
    var lastToken: byte

    ghost function Machine(): Fsm
      reads this
    {
      Fsm(state, litLenAccum, matchLenNibble)
    }

    constructor ()
      ensures Machine() == START && lastToken == 0
    {
      state, litLenAccum, matchLenNibble, lastToken := SizePrefix(0), 0, 0, 0;
    }

    method Reset()
      modifies this
      ensures Machine() == START && lastToken == 0
    {
      state, litLenAccum, matchLenNibble, lastToken := SizePrefix(0), 0, 0, 0;
    }

    method Update(b: byte)
      modifies this
      ensures Machine() == Updated(old(Machine()), b)
      ensures lastToken == if old(state).Token? then b else old(lastToken)
    {
      match state {
        case Token =>
          matchLenNibble := b % 16;
          if b / 16 == 15 {
            litLenAccum := 15;
          }
          lastToken := b;
        case LitLenExt =>
          litLenAccum := if litLenAccum + b < MAX_LIT_LEN then litLenAccum + b else MAX_LIT_LEN;
        case _ =>
      }
      state := NextState(Fsm(state, litLenAccum, matchLenNibble), b);
    }
  }

  /** The machine after a whole byte string. */
  function Run(f: Fsm, bytes: seq<byte>): Fsm
    decreases |bytes|
  {
    if bytes == [] then f else Run(Updated(f, bytes[0]), bytes[1..])
  }

  /** Whatever it is fed, the machine never waits for more than 256 MiB of literals. */
  ghost predicate Bounded(f: Fsm) {
    && f.litLenAccum <= 256 * 1024 * 1024 && f.matchLenNibble <= 15
    && match f.state
       case SizePrefix(i) => i <= 3
       case Literals(remaining) => 0 < remaining <= 256 * 1024 * 1024
       case _ => true
  }

  lemma {:induction false} RunBounded(f: Fsm, bytes: seq<byte>)
    requires Bounded(f)
    ensures Bounded(Run(f, bytes))
    decreases |bytes|
  {
    if bytes != [] {
      RunBounded(Updated(f, bytes[0]), bytes[1..]);
    }
  }

  /** Before each byte the machine is in the state that names the byte's role. */
  ghost predicate Follows(f: Fsm, bytes: seq<byte>, roles: seq<ParseState>)
    decreases |bytes|
  {
    if bytes == [] then roles == []
    else roles != [] && f.state == roles[0] && Follows(Updated(f, bytes[0]), bytes[1..], roles[1..])
  }

  lemma {:induction false} FollowsAt(f: Fsm, bytes: seq<byte>, roles: seq<ParseState>, i: nat)
    requires Follows(f, bytes, roles) && i < |bytes|
    ensures |roles| == |bytes| && Run(f, bytes[..i]).state == roles[i]
    decreases |bytes|
  {
    var g := Updated(f, bytes[0]);
    if i > 0 {
      FollowsAt(g, bytes[1..], roles[1..], i - 1);
      assert bytes[..i][1..] == bytes[1..][..i - 1];
    } else {
      FollowsLength(f, bytes, roles);
    }
  }

  lemma {:induction false} FollowsLength(f: Fsm, bytes: seq<byte>, roles: seq<ParseState>)
    requires Follows(f, bytes, roles)
    ensures |roles| == |bytes|
    decreases |bytes|
  {
    if bytes != [] {
      FollowsLength(Updated(f, bytes[0]), bytes[1..], roles[1..]);
    }
  }

  lemma {:induction false} FollowsJoin(f: Fsm, a: seq<byte>, ra: seq<ParseState>, b: seq<byte>, rb: seq<ParseState>)
    requires Follows(f, a, ra) && Follows(Run(f, a), b, rb)
    ensures Follows(f, a + b, ra + rb) && Run(f, a + b) == Run(Run(f, a), b)
    decreases |a|
  {
    if a == [] {
      assert a + b == b && ra + rb == rb;
    } else {
      FollowsJoin(Updated(f, a[0]), a[1..], ra[1..], b, rb);
      assert (a + b)[1..] == a[1..] + b && (ra + rb)[1..] == ra[1..] + rb;
    }
  }

  // ---------------------------------------------------------------------------------------------
  // The roles, as the decoder sees them
  // ---------------------------------------------------------------------------------------------

  /** `n` literals left, `n - 1` left, ..., one left. */
  function CountDown(n: nat): (r: seq<ParseState>)
    ensures |r| == n
  {
    if n == 0 then [] else [ParseState.Literals(n)] + CountDown(n - 1)
  }

  /** Token, length extensions and literals of the sequence at `pos`. */
  function LiteralRoles(e: seq<byte>, pos: nat, out: seq<byte>, size: nat): seq<ParseState>
    requires pos < |e| && |out| < size && !LiteralStep(e, pos, out, size).Bad?
  {
    var l := ReadLen(e, pos + 1, e[pos] / 16, e[pos] / 16, size - |out|);
    [Token] + Repeat(LitLenExt, l.pos - (pos + 1)) + CountDown(l.len)
  }

  /** Offset bytes and length extensions of the match at `pos`. */
  function MatchRoles(e: seq<byte>, pos: nat, out: seq<byte>, size: nat, nibble: nat): seq<ParseState>
    requires pos <= |e| && |out| < size && nibble <= 15 && !MatchStep(e, pos, out, size, nibble).Bad?
  {
    var m := ReadLen(e, pos + 2, nibble, MIN_MATCH + nibble, size - |out|);
    [MatchOffsetLow, MatchOffsetHigh] + Repeat(MatchLenExt, m.pos - (pos + 2))
  }

  function SequenceRoles(e: seq<byte>, pos: nat, out: seq<byte>, size: nat): seq<ParseState>
    requires pos < |e| && |out| < size && !SequenceStep(e, pos, out, size).Bad?
  {
    var l := LiteralStep(e, pos, out, size);
    LiteralRoles(e, pos, out, size) + if l.More? then MatchRoles(e, l.pos, l.out, size, e[pos] % 16) else []
  }

  /** The roles of all bytes from `pos` to where decoding ends. */
  function Roles(e: seq<byte>, pos: nat, out: seq<byte>, size: nat): seq<ParseState>
    requires pos <= |e| && Decoded(e, pos, out, size).Some?
    decreases |e| - pos
  {
    if |out| >= size then []
    else
      var s := SequenceStep(e, pos, out, size);
      SequenceRoles(e, pos, out, size) + if s.More? then Roles(e, s.pos, s.out, size) else []
  }

  // ---------------------------------------------------------------------------------------------
  // Synchronisation
  // ---------------------------------------------------------------------------------------------

  /** Literal length extensions: the machine adds up the same length as the decoder. */
  lemma {:induction false} LitExtFollows(f: Fsm, e: seq<byte>, pos: nat, limit: nat)
    requires f.state == LitLenExt && 0 < f.litLenAccum && limit < MAX_LIT_LEN && pos <= |e|
    requires ReadExt(e, pos, f.litLenAccum, limit).Ext?
    ensures var r := ReadExt(e, pos, f.litLenAccum, limit);
            && Follows(f, e[pos..r.pos], Repeat(LitLenExt, r.pos - pos))
            && Run(f, e[pos..r.pos]) == Fsm(ParseState.Literals(r.len), r.len, f.matchLenNibble)
    decreases |e| - pos
  {
    var r := ReadExt(e, pos, f.litLenAccum, limit);
    var g := Updated(f, e[pos]);
    assert e[pos..r.pos][1..] == e[pos + 1..r.pos];
    assert Repeat(LitLenExt, r.pos - pos)[1..] == Repeat(LitLenExt, r.pos - pos - 1);
    if e[pos] == 255 {
      LitExtFollows(g, e, pos + 1, limit);
    } else {
      assert e[pos + 1..r.pos] == [];
    }
  }

  lemma {:induction false} MatchExtFollows(f: Fsm, e: seq<byte>, pos: nat, len: nat, limit: nat)
    requires f.state == MatchLenExt && pos <= |e| && ReadExt(e, pos, len, limit).Ext?
    ensures var r := ReadExt(e, pos, len, limit);
            && Follows(f, e[pos..r.pos], Repeat(MatchLenExt, r.pos - pos))
            && Run(f, e[pos..r.pos]) == f.(state := Token)
    decreases |e| - pos
  {
    var r := ReadExt(e, pos, len, limit);
    assert e[pos..r.pos][1..] == e[pos + 1..r.pos];
    assert Repeat(MatchLenExt, r.pos - pos)[1..] == Repeat(MatchLenExt, r.pos - pos - 1);
    if e[pos] == 255 {
      MatchExtFollows(f, e, pos + 1, len + 255, limit);
    } else {
      assert e[pos + 1..r.pos] == [];
    }
  }

  lemma {:induction false} LiteralsFollow(f: Fsm, bytes: seq<byte>)
    requires bytes != [] && f.state == ParseState.Literals(|bytes|)
    ensures Follows(f, bytes, CountDown(|bytes|)) && Run(f, bytes) == f.(state := MatchOffsetLow)
    decreases |bytes|
  {
    var g := Updated(f, bytes[0]);
    if |bytes| > 1 {
      LiteralsFollow(g, bytes[1..]);
    } else {
      assert bytes[1..] == [];
    }
    assert CountDown(|bytes|)[1..] == CountDown(|bytes| - 1);
  }

  /** From a token to the end of its literals. */
  lemma LiteralPartFollows(f: Fsm, e: seq<byte>, pos: nat, out: seq<byte>, size: nat)
    requires f.state == Token && pos < |e| && |out| < size <= MAX_LZ77_INPUT_SIZE
    requires !LiteralStep(e, pos, out, size).Bad?
    ensures var l := LiteralStep(e, pos, out, size);
            && Follows(f, e[pos..l.pos], LiteralRoles(e, pos, out, size))
            && Run(f, e[pos..l.pos]).state == MatchOffsetLow
            && Run(f, e[pos..l.pos]).matchLenNibble == e[pos] % 16
  {
    hide Run, Follows;
    var nibble := e[pos] / 16;
    var x := ReadLen(e, pos + 1, nibble, nibble, size - |out|);
    var g := Updated(f, e[pos]);
    var last := x.pos + x.len;
    TokenFollows(f, e, pos);
    if nibble == 15 {
      LitExtFollows(g, e, pos + 1, size - |out|);
    } else {
      assert e[pos + 1..x.pos] == [];
      RunNothing(g);
    }
    var h := Run(g, e[pos + 1..x.pos]);
    if x.len > 0 {
      LiteralsFollow(h, e[x.pos..last]);
    } else {
      assert e[x.pos..last] == [];
      RunNothing(h);
    }
    ThreeParts(f, e, pos, x.pos, last, Repeat(LitLenExt, x.pos - (pos + 1)), CountDown(x.len));
  }

  lemma TokenFollows(f: Fsm, e: seq<byte>, pos: nat)
    requires f.state == Token && pos < |e|
    ensures Follows(f, [e[pos]], [Token]) && Run(f, [e[pos]]) == Updated(f, e[pos])
  {
    assert [e[pos]][1..] == [];
    assert [Token][1..] == [];
  }

  lemma ThreeParts(f: Fsm, e: seq<byte>, pos: nat, mid: nat, last: nat, roles: seq<ParseState>, more: seq<ParseState>)
    requires pos < mid <= last <= |e| && f.state == Token
    requires Follows(Updated(f, e[pos]), e[pos + 1..mid], roles)
    requires Follows(Run(Updated(f, e[pos]), e[pos + 1..mid]), e[mid..last], more)
    ensures Follows(f, e[pos..last], [Token] + roles + more)
    ensures Run(f, e[pos..last]) == Run(Run(Updated(f, e[pos]), e[pos + 1..mid]), e[mid..last])
  {
    TokenFollows(f, e, pos);
    FollowsJoin(f, [e[pos]], [Token], e[pos + 1..mid], roles);
    assert [e[pos]] + e[pos + 1..mid] == e[pos..mid];
    FollowsJoin(f, e[pos..mid], [Token] + roles, e[mid..last], more);
    assert e[pos..mid] + e[mid..last] == e[pos..last];
  }

  /** From an offset to the next token. */
  lemma MatchPartFollows(f: Fsm, e: seq<byte>, pos: nat, out: seq<byte>, size: nat, nibble: nat)
    requires f.state == MatchOffsetLow && f.matchLenNibble == nibble <= 15 && pos <= |e| && |out| < size
    requires !MatchStep(e, pos, out, size, nibble).Bad?
    ensures var m := MatchStep(e, pos, out, size, nibble);
            && Follows(f, e[pos..m.pos], MatchRoles(e, pos, out, size, nibble))
            && Run(f, e[pos..m.pos]).state == Token
  {
    hide CopyMatch, OffsetAt, Run, Follows;
    var m := ReadLen(e, pos + 2, nibble, MIN_MATCH + nibble, size - |out|);
    var g := Updated(f, e[pos]);
    var h := Updated(g, e[pos + 1]);
    OffsetFollows(f, e, pos);
    if nibble == 15 {
      MatchExtFollows(h, e, pos + 2, MIN_MATCH + nibble, size - |out|);
    } else {
      assert e[pos + 2..m.pos] == [];
      RunNothing(h);
    }
    FollowsJoin(f, e[pos..pos + 2], [MatchOffsetLow, MatchOffsetHigh], e[pos + 2..m.pos],
                Repeat(MatchLenExt, m.pos - (pos + 2)));
    assert e[pos..pos + 2] + e[pos + 2..m.pos] == e[pos..m.pos];
  }

  lemma RunNothing(f: Fsm)
    ensures Run(f, []) == f && Follows(f, [], [])
  {
  }

  lemma OffsetFollows(f: Fsm, e: seq<byte>, pos: nat)
    requires f.state == MatchOffsetLow && pos + 2 <= |e|
    ensures Follows(f, e[pos..pos + 2], [MatchOffsetLow, MatchOffsetHigh])
    ensures Run(f, e[pos..pos + 2]) == Updated(Updated(f, e[pos]), e[pos + 1])
  {
    var s := e[pos..pos + 2];
    assert s[1..] == [e[pos + 1]] && s[1..][1..] == [];
    var g := Updated(f, e[pos]);
    assert Run(f, s) == Run(g, [e[pos + 1]]) == Run(Updated(g, e[pos + 1]), []);
    assert [MatchOffsetLow, MatchOffsetHigh][1..] == [MatchOffsetHigh] && [MatchOffsetHigh][1..] == [];
  }

  lemma SequenceFollows(f: Fsm, e: seq<byte>, pos: nat, out: seq<byte>, size: nat)
    requires f.state == Token && pos < |e| && |out| < size <= MAX_LZ77_INPUT_SIZE
    requires !SequenceStep(e, pos, out, size).Bad?
    ensures var s := SequenceStep(e, pos, out, size);
            && Follows(f, e[pos..s.pos], SequenceRoles(e, pos, out, size))
            && (s.More? ==> Run(f, e[pos..s.pos]).state == Token)
  {
    var l := LiteralStep(e, pos, out, size);
    LiteralPartFollows(f, e, pos, out, size);
    var g := Run(f, e[pos..l.pos]);
    if l.More? {
      var m := MatchStep(e, l.pos, l.out, size, e[pos] % 16);
      MatchPartFollows(g, e, l.pos, l.out, size, e[pos] % 16);
      FollowsJoin(f, e[pos..l.pos], LiteralRoles(e, pos, out, size), e[l.pos..m.pos],
                  MatchRoles(e, l.pos, l.out, size, e[pos] % 16));
      assert e[pos..l.pos] + e[l.pos..m.pos] == e[pos..m.pos];
    } else {
      assert LiteralRoles(e, pos, out, size) + [] == LiteralRoles(e, pos, out, size);
    }
  }

  lemma {:induction false} LoopFollows(f: Fsm, e: seq<byte>, pos: nat, out: seq<byte>, size: nat)
    requires f.state == Token && pos <= |e| && size <= MAX_LZ77_INPUT_SIZE
    requires Decoded(e, pos, out, size).Some?
    ensures Follows(f, e[pos..Decoded(e, pos, out, size).value.0], Roles(e, pos, out, size))
    decreases |e| - pos
  {
    hide SequenceStep, SequenceRoles, Run, Updated, Follows;
    if |out| < size {
      var s := SequenceStep(e, pos, out, size);
      var last := Decoded(e, pos, out, size).value.0;
      SequenceFollows(f, e, pos, out, size);
      if s.More? {
        LoopFollows(Run(f, e[pos..s.pos]), e, s.pos, s.out, size);
        FollowsJoin(f, e[pos..s.pos], SequenceRoles(e, pos, out, size), e[s.pos..last], Roles(e, s.pos, s.out, size));
        assert e[pos..s.pos] + e[s.pos..last] == e[pos..last];
      } else {
        assert SequenceRoles(e, pos, out, size) + [] == SequenceRoles(e, pos, out, size);
      }
    } else {
      NothingFollows(f, e[pos..pos]);
    }
  }

  lemma NothingFollows(f: Fsm, bytes: seq<byte>)
    requires bytes == []
    ensures Follows(f, bytes, [])
  {
  }

  /** The roles of a whole accepted stream, size prefix included. */
  function StreamRoles(e: seq<byte>, size: nat): seq<ParseState>
    requires 4 <= |e| && Decoded(e, 4, [], size).Some?
  {
    [SizePrefix(0), SizePrefix(1), SizePrefix(2), SizePrefix(3)] + Roles(e, 4, [], size)
  }

  /**
   Synchronisation: on every stream the decoder accepts, and for every byte it consumes, the machine
   that has been fed the bytes before it is in exactly the state that names the byte's role.
   */
  lemma Synchronised(e: seq<byte>, size: nat, i: nat)
    requires DecodeResult(e, size).Ok? && i < Decoded(e, 4, [], size).value.0
    ensures |StreamRoles(e, size)| == Decoded(e, 4, [], size).value.0
    ensures Run(START, e[..i]).state == StreamRoles(e, size)[i]
  {
    var last := Decoded(e, 4, [], size).value.0;
    StreamFollows(e, size);
    hide Decoded, Roles, StreamRoles, Run, Updated, Follows;
    FollowsLength(START, e[..last], StreamRoles(e, size));
    FollowsAt(START, e[..last], StreamRoles(e, size), i);
    assert e[..last][..i] == e[..i];
  }

  /** On a stream the encoder made, that is every byte: nothing is left over at the end. */
  lemma EncoderSynchronised(data: seq<byte>, tokens: seq<Lz77Parsing.Token>, i: nat)
    requires MIN_MATCH <= |data| <= MAX_LZ77_INPUT_SIZE && Lz77Parsing.IsParse(data, 0, false, tokens)
    ensures Lz77Parsing.IsLayout(data, tokens)
    ensures var e := Lz77Encoding.Stream(data, tokens);
            i < |e| ==>
              && Decoded(e, 4, [], |data|).Some?
              && |StreamRoles(e, |data|)| == |e|
              && Run(START, e[..i]).state == StreamRoles(e, |data|)[i]
  {
    hide Lz77Parsing.IsParse, Decoded, DecodeResult, Lz77Encoding.Stream, StreamRoles, Run;
    Lz77Parsing.ParseIsLayout(data, [], 0, false, tokens);
    assert [] + tokens == tokens;
    Lz77Encoding.StreamDecodes(data, tokens);
    var e := Lz77Encoding.Stream(data, tokens);
    if i < |e| {
      Synchronised(e, |data|, i);
    }
  }

  lemma StreamFollows(e: seq<byte>, size: nat)
    requires DecodeResult(e, size).Ok?
    ensures Follows(START, e[..Decoded(e, 4, [], size).value.0], StreamRoles(e, size))
  {
    hide Decoded, Roles, Run, Updated, Follows;
    var last := Decoded(e, 4, [], size).value.0;
    PrefixFollows(e);
    LoopFollows(Run(START, e[..4]), e, 4, [], size);
    FollowsJoin(START, e[..4], [SizePrefix(0), SizePrefix(1), SizePrefix(2), SizePrefix(3)], e[4..last],
                Roles(e, 4, [], size));
    assert e[..4] + e[4..last] == e[..last];
  }

  lemma PrefixFollows(e: seq<byte>)
    requires 4 <= |e|
    ensures Follows(START, e[..4], [SizePrefix(0), SizePrefix(1), SizePrefix(2), SizePrefix(3)])
    ensures Run(START, e[..4]).state == Token
  {
    var s := e[..4];
    assert s[1..] == e[1..4] && e[1..4][1..] == e[2..4] && e[2..4][1..] == e[3..4] && e[3..4][1..] == [];
    var r := [SizePrefix(0), SizePrefix(1), SizePrefix(2), SizePrefix(3)];
    assert r[1..] == [SizePrefix(1), SizePrefix(2), SizePrefix(3)];
    assert r[1..][1..] == [SizePrefix(2), SizePrefix(3)] && r[1..][1..][1..] == [SizePrefix(3)]
           && [SizePrefix(3)][1..] == [];
    var f1 := Updated(START, s[0]);
    var f2 := Updated(f1, s[1]);
    var f3 := Updated(f2, s[2]);
    var f4 := Updated(f3, s[3]);
    assert Follows(f3, e[3..4], [SizePrefix(3)]) && Run(f3, e[3..4]) == f4;
    assert Follows(f2, e[2..4], [SizePrefix(2), SizePrefix(3)]) && Run(f2, e[2..4]) == f4;
    assert Follows(f1, e[1..4], [SizePrefix(1), SizePrefix(2), SizePrefix(3)]) && Run(f1, e[1..4]) == f4;
  }
}
