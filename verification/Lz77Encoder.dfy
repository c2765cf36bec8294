/**
 The LZ77 encoder (`coding/lz77_preprocess.rs`): lazy matching over the hash chains, the emitted
 tokens, and the proof that whatever is emitted decodes to the input.
 */
module Lz77Encoding {
  import opened Bytes
  import opened Lz77
  import opened Lz77Chains
  import opened Lz77Parsing

  // ---------------------------------------------------------------------------------------------
  // Emitting
  // ---------------------------------------------------------------------------------------------

  function Literals(lits: seq<byte>, matchNibble: nat): (e: seq<byte>)
    requires matchNibble <= 15
    ensures |e| > 0 && e[0] / 16 == Nibble(|lits|) && e[0] % 16 == matchNibble
  {
    [Nibble(|lits|) * 16 + matchNibble] + LengthTail(|lits|) + lits
  }

  /** `emit_sequence`. */
  function Emitted(lits: seq<byte>, offset: nat, len: nat): (e: seq<byte>)
    requires 1 <= offset < WINDOW_SIZE && len >= MIN_MATCH
  {
    Literals(lits, Nibble(len - MIN_MATCH)) + MatchBytes(offset, len)
  }

  method EmitLiterals(output: seq<byte>, lits: seq<byte>, matchNibble: nat) returns (out: seq<byte>)
    requires matchNibble <= 15
    ensures out == output + Literals(lits, matchNibble)
  {
    hide Extension, Nibble;
    var n := |lits|;
    out := output + [Nibble(n) * 16 + matchNibble];
    if n >= 15 {
      out := PushExtension(out, n - 15);
    }
    out := out + lits;
  }

  method EmitSequence(output: seq<byte>, lits: seq<byte>, offset: nat, len: nat) returns (out: seq<byte>)
    requires 1 <= offset < WINDOW_SIZE && len >= MIN_MATCH
    ensures out == output + Emitted(lits, offset, len)
  {
    hide LowByte, HighByte, Literals, Extension;
    var m := len - MIN_MATCH;
    out := EmitLiterals(output, lits, Nibble(m));
    out := out + [LowByte(offset)];
    out := out + [HighByte(offset)];
    if m >= 15 {
      out := PushExtension(out, m - 15);
    }
  }

  // ---------------------------------------------------------------------------------------------
  // The decoder reads back what was emitted
  // ---------------------------------------------------------------------------------------------

  lemma ReadLiteralLength(e: seq<byte>, pos: nat, lits: seq<byte>, matchNibble: nat, limit: nat) returns (at: nat)
    requires matchNibble <= 15 && |lits| <= limit
    requires At(e, pos, Literals(lits, matchNibble))
    ensures pos < |e| && e[pos] / 16 == Nibble(|lits|) && e[pos] % 16 == matchNibble
    ensures at + |lits| == pos + |Literals(lits, matchNibble)|
    ensures ReadLen(e, pos + 1, Nibble(|lits|), Nibble(|lits|), limit) == Ext(at, |lits|)
    ensures At(e, at, lits)
  {
    var n, tail := |lits|, LengthTail(|lits|);
    var head := [Nibble(n) * 16 + matchNibble] + tail;
    AtByte(e, pos, Literals(lits, matchNibble), 0);
    AtSplit(e, pos, head, lits);
    AtSplit(e, pos, [Nibble(n) * 16 + matchNibble], tail);
    ReadWritten(e, pos + 1, n, 0, limit);
    at := pos + 1 + |tail|;
  }

  lemma ReadLiterals(e: seq<byte>, pos: nat, out: seq<byte>, size: nat, lits: seq<byte>, matchNibble: nat)
    requires matchNibble <= 15 && |out| < size && |out| + |lits| <= size
    requires At(e, pos, Literals(lits, matchNibble))
    ensures var p := pos + |Literals(lits, matchNibble)|;
            && e[pos] % 16 == matchNibble
            && LiteralStep(e, pos, out, size) == if |out| + |lits| == size then Done(p, out + lits)
               else More(p, out + lits)
  {
    hide Nibble, Literals, ReadLen, At;
    var at := ReadLiteralLength(e, pos, lits, matchNibble, size - |out|);
    AtSlice(e, at, lits);
  }

  lemma AtSlice(e: seq<byte>, pos: nat, s: seq<byte>)
    requires At(e, pos, s)
    ensures pos + |s| <= |e| && e[pos..pos + |s|] == s
  {
  }

  function LowByte(offset: nat): byte {
    offset % 256
  }

  function HighByte(offset: nat): byte
    requires offset < WINDOW_SIZE
  {
    offset / 256
  }

  lemma OffsetBytes(offset: nat)
    requires offset < WINDOW_SIZE
    ensures LowByte(offset) as nat + HighByte(offset) as nat * 256 == offset
  {
  }

  function MatchBytes(offset: nat, len: nat): (e: seq<byte>)
    requires 1 <= offset < WINDOW_SIZE && len >= MIN_MATCH
  {
    [LowByte(offset), HighByte(offset)] + LengthTail(len - MIN_MATCH)
  }

  lemma ReadOffset(e: seq<byte>, pos: nat, offset: nat, len: nat)
    requires 1 <= offset < WINDOW_SIZE && MIN_MATCH <= len && At(e, pos, MatchBytes(offset, len))
    ensures pos + 2 <= |e| && OffsetAt(e, pos) == offset
    ensures At(e, pos + 2, LengthTail(len - MIN_MATCH))
  {
    AtByte(e, pos, MatchBytes(offset, len), 0);
    AtByte(e, pos, MatchBytes(offset, len), 1);
    OffsetBytes(offset);
    AtSplit(e, pos, [LowByte(offset), HighByte(offset)], LengthTail(len - MIN_MATCH));
  }

  lemma ReadMatch(e: seq<byte>, pos: nat, out: seq<byte>, size: nat, offset: nat, len: nat)
    requires 1 <= offset < WINDOW_SIZE && offset <= |out| < size && MIN_MATCH <= len && |out| + len <= size
    requires At(e, pos, MatchBytes(offset, len))
    ensures MatchStep(e, pos, out, size, Nibble(len - MIN_MATCH))
            == More(pos + |MatchBytes(offset, len)|, CopyMatch(out, offset, len))
  {
    hide MatchStep, CopyMatch, LowByte, HighByte, At, ReadLen, OffsetAt, Extension;
    var n: nat := len - MIN_MATCH;
    ReadOffset(e, pos, offset, len);
    ReadWritten(e, pos + 2, n, MIN_MATCH, size - |out|);
    MatchStepIs(e, pos, out, size, Nibble(n), offset, Ext(pos + 2 + |LengthTail(n)|, len));
  }

  lemma ReadSequence(e: seq<byte>, pos: nat, out: seq<byte>, size: nat, lits: seq<byte>, offset: nat, len: nat)
    requires 1 <= offset < WINDOW_SIZE && len >= MIN_MATCH
    requires offset <= |out| + |lits| && |out| + |lits| + len <= size
    requires At(e, pos, Emitted(lits, offset, len))
    ensures SequenceStep(e, pos, out, size)
            == More(pos + |Emitted(lits, offset, len)|, CopyMatch(out + lits, offset, len))
  {
    hide SequenceStep, LiteralStep, MatchStep, CopyMatch, Literals, MatchBytes, At, Nibble, LengthTail, Extension;
    var l := Literals(lits, Nibble(len - MIN_MATCH));
    AtSplit(e, pos, l, MatchBytes(offset, len));
    ReadLiterals(e, pos, out, size, lits, Nibble(len - MIN_MATCH));
    ReadMatch(e, pos + |l|, out + lits, size, offset, len);
    SequenceStepIs(e, pos, out, size, More(pos + |l|, out + lits));
    assert |Emitted(lits, offset, len)| == |l| + |MatchBytes(offset, len)|;
  }

  /** Copying a true match appends the data it matches. */
  lemma CopyOfMatch(data: seq<byte>, pos: nat, offset: nat, len: nat)
    requires 1 <= offset <= pos && pos + len <= |data| && Repeats(data, pos, offset, len)
    ensures CopyMatch(data[..pos], offset, len) == data[..pos + len]
  {
    var r := data[..pos + len];
    CopyUnique(data[..pos], offset, r);
  }

  lemma PassSequence(e: seq<byte>, p: nat, data: seq<byte>, litStart: nat, pos: nat, offset: nat, len: nat)
    requires litStart <= pos && pos + len <= |data|
    requires IsMatch(data, pos, offset, len)
    requires At(e, p, Emitted(data[litStart..pos], offset, len))
    ensures Decoded(e, p, data[..litStart], |data|)
            == Decoded(e, p + |Emitted(data[litStart..pos], offset, len)|, data[..pos + len], |data|)
  {
    hide SequenceStep, CopyMatch, Decoded, Emitted;
    var x := Emitted(data[litStart..pos], offset, len);
    ReadSequence(e, p, data[..litStart], |data|, data[litStart..pos], offset, len);
    assert data[..litStart] + data[litStart..pos] == data[..pos];
    CopyOfMatch(data, pos, offset, len);
    DecodedStep(e, p, data[..litStart], |data|, More(p + |x|, data[..pos + len]));
  }

  // ---------------------------------------------------------------------------------------------
  // The stream of a parse
  // ---------------------------------------------------------------------------------------------

  /** The sequences of all matches, each with the literals before it. */
  function Written(data: seq<byte>, tokens: seq<Token>): (e: seq<byte>)
    requires IsLayout(data, tokens)
  {
    if tokens == [] then [] else
    var front, t := tokens[..|tokens| - 1], tokens[|tokens| - 1];
    Written(data, front) + Emitted(data[End(front)..t.pos], t.offset, t.len)
  }

  lemma WrittenPush(data: seq<byte>, tokens: seq<Token>, t: Token)
    requires IsLayout(data, tokens) && End(tokens) <= t.pos <= |data| && IsMatch(data, t.pos, t.offset, t.len)
    ensures IsLayout(data, tokens + [t])
    ensures Written(data, tokens + [t]) == Written(data, tokens) + Emitted(data[End(tokens)..t.pos], t.offset, t.len)
  {
    LayoutPush(data, tokens, t);
    assert (tokens + [t])[..|tokens|] == tokens;
  }

  /** `emit_final_literals`, unless a match ends the data. */
  function FinalLiterals(data: seq<byte>, from: nat): (e: seq<byte>)
    requires from <= |data|
  {
    if from < |data| then Literals(data[from..], 0) else []
  }

  /** Size, sequences, final literals. */
  function Stream(data: seq<byte>, tokens: seq<Token>): (e: seq<byte>)
    requires IsLayout(data, tokens) && |data| < TWO32
    ensures |e| >= 4 && e[..4] == ToLe32(|data|)
  {
    ToLe32(|data|) + Written(data, tokens) + FinalLiterals(data, End(tokens))
  }

  /** Decoding a stream that begins with the sequences of a layout passes behind them with their data written. */
  lemma {:induction false} WrittenDecodes(e: seq<byte>, data: seq<byte>, tokens: seq<Token>)
    requires IsLayout(data, tokens) && 4 <= |e| && At(e, 4, Written(data, tokens))
    ensures Decoded(e, 4, [], |data|) == Decoded(e, 4 + |Written(data, tokens)|, data[..End(tokens)], |data|)
    decreases |tokens|
  {
    hide Decoded, Emitted, IsMatch;
    if tokens == [] {
      assert data[..0] == [];
    } else {
      var front, t := tokens[..|tokens| - 1], tokens[|tokens| - 1];
      MatchFacts(data, t.pos, t.offset, t.len);
      var x := Emitted(data[End(front)..t.pos], t.offset, t.len);
      AtSplit(e, 4, Written(data, front), x);
      WrittenDecodes(e, data, front);
      PassSequence(e, 4 + |Written(data, front)|, data, End(front), t.pos, t.offset, t.len);
    }
  }

  lemma MatchFacts(data: seq<byte>, pos: nat, offset: nat, len: nat)
    requires pos <= |data| && IsMatch(data, pos, offset, len)
    ensures 1 <= offset < WINDOW_SIZE && len >= MIN_MATCH && pos + len <= |data|
  {
  }

  lemma FinalDecodes(e: seq<byte>, p: nat, data: seq<byte>, litStart: nat)
    requires litStart <= |data| && At(e, p, FinalLiterals(data, litStart)) && |e| == p + |FinalLiterals(data, litStart)|
    ensures Decoded(e, p, data[..litStart], |data|) == Some((|e|, data))
  {
    hide Literals, LiteralStep, SequenceStep, MatchStep, Decoded, At;
    assert data[..litStart] + data[litStart..] == data;
    if litStart < |data| {
      ReadLiterals(e, p, data[..litStart], |data|, data[litStart..], 0);
      SequenceStepIs(e, p, data[..litStart], |data|, Done(|e|, data));
      DecodedStep(e, p, data[..litStart], |data|, Done(|e|, data));
    } else {
      assert data[..litStart] == data;
      DecodedWhole(e, p, data);
    }
  }

  lemma DecodedWhole(e: seq<byte>, p: nat, data: seq<byte>)
    requires p == |e|
    ensures Decoded(e, p, data, |data|) == Some((p, data))
  {
  }

  /** Every layout, not only the encoder's, makes a stream that decodes to the data, all bytes consumed. */
  lemma StreamDecodes(data: seq<byte>, tokens: seq<Token>)
    requires IsLayout(data, tokens) && |data| <= MAX_LZ77_INPUT_SIZE
    ensures var e := Stream(data, tokens);
            && Decoded(e, 4, [], |data|) == Some((|e|, data))
            && DecodeResult(e, |data|) == Ok(data)
  {
    hide Decoded, Written, FinalLiterals, IsLayout;
    var e, w, f := Stream(data, tokens), Written(data, tokens), FinalLiterals(data, End(tokens));
    StreamParts(ToLe32(|data|), w, f);
    WrittenDecodes(e, data, tokens);
    FinalDecodes(e, 4 + |w|, data, End(tokens));
    Le32RoundTrip(|data|);
  }

  lemma StreamParts(header: seq<byte>, w: seq<byte>, f: seq<byte>)
    requires |header| == 4
    ensures At(header + w + f, 4, w) && At(header + w + f, 4 + |w|, f)
  {
    AtSplit(header + w + f, 4, w, f);
  }

  // ---------------------------------------------------------------------------------------------
  // The encoder
  // ---------------------------------------------------------------------------------------------

  /** The match at `pos` and whether to take it now, or put it off for a clearly longer one at the next position. */
  method ChooseMatch(finder: MatchFinder, data: seq<byte>, pos: nat, hash: nat, deferred: bool)
    returns (current: Option<(nat, nat)>, take: bool)
    requires finder.Valid() && pos + 2 < |data| <= MAX_LZ77_INPUT_SIZE && hash == Hash3(data, pos)
    requires Indexed(finder.State(), data, pos)
    ensures IsBestAt(data, pos, pos, current)
    ensures take <==> Takes(data, pos, deferred, current)
  {
    hide IsBest, IsBestAt, Visited, Hash3, Indexed;
    current := finder.FindBest(data, pos, hash);
    IndexedBest(finder.State(), data, pos, pos, current);
    if current == None {
      return current, false;
    }
    if deferred {
      return current, true;
    }
    if pos + 3 < |data| {
      var next := finder.FindBest(data, pos + 1, Hash3(data, pos + 1));
      IndexedBest(finder.State(), data, pos, pos + 1, next);
      DefersIs(data, pos, current.value.1, next);
      if next.Some? {
        return current, next.value.1 <= current.value.1 + 1;
      }
    }
    return current, true;
  }

  /** How many positions the encoder has inserted when it stands at `pos`. */
  function InsertedUpto(data: seq<byte>, pos: nat): (n: nat)
    requires |data| >= MIN_MATCH
    ensures n + 1 < |data|
  {
    if pos < |data| - 2 then pos else |data| - 2
  }

  method InsertAll(finder: MatchFinder, data: seq<byte>, from: nat, to: nat)
    requires finder.Valid() && from <= to && to + 1 < |data| <= MAX_LZ77_INPUT_SIZE
    requires Indexed(finder.State(), data, from)
    modifies finder.head, finder.prev
    ensures Indexed(finder.State(), data, to)
  {
    hide Indexed, Hash3;
    for i := from to to
      invariant Indexed(finder.State(), data, i)
    {
      InsertIndexed(finder.State(), data, i);
      var h := Hash3(data, i);
      finder.Insert(i, h);
    }
  }

  method TakeMatch(finder: MatchFinder, data: seq<byte>, output: seq<byte>, litStart: nat, pos: nat, offset: nat,
                   len: nat)
    returns (out: seq<byte>)
    requires finder.Valid() && litStart <= pos && pos + 2 < |data| <= MAX_LZ77_INPUT_SIZE
    requires IsMatch(data, pos, offset, len) && Indexed(finder.State(), data, pos)
    modifies finder.head, finder.prev
    ensures out == output + Emitted(data[litStart..pos], offset, len)
    ensures Indexed(finder.State(), data, InsertedUpto(data, pos + len))
  {
    hide Indexed, Emitted;
    out := EmitSequence(output, data[litStart..pos], offset, len);
    InsertAll(finder, data, pos, InsertedUpto(data, pos + len));
  }

  /** A position that starts no match taken now is inserted and becomes a literal. */
  method SkipPosition(finder: MatchFinder, data: seq<byte>, pos: nat, hash: nat)
    requires finder.Valid() && pos + 2 < |data| <= MAX_LZ77_INPUT_SIZE && hash == Hash3(data, pos)
    requires Indexed(finder.State(), data, pos)
    modifies finder.head, finder.prev
    ensures Indexed(finder.State(), data, InsertedUpto(data, pos + 1))
  {
    hide Indexed, Hash3;
    InsertIndexed(finder.State(), data, pos);
    finder.Insert(pos, hash);
  }

  /** The main loop's position: matches taken and written so far, and a parse whatever follows. */
  ghost predicate Progress(data: seq<byte>, header: seq<byte>, output: seq<byte>, tokens: seq<Token>, pos: nat,
                           deferred: bool) {
    && End(tokens) <= pos <= |data|
    && IsLayout(data, tokens)
    && output == header + Written(data, tokens)
    && Leads(data, tokens, pos, deferred)
  }

  lemma ProgressTake(data: seq<byte>, header: seq<byte>, output: seq<byte>, tokens: seq<Token>, deferred: bool,
                     t: Token)
    requires Progress(data, header, output, tokens, t.pos, deferred)
    requires t.pos <= |data| && IsMatch(data, t.pos, t.offset, t.len) && t.pos + t.len <= |data|
    requires Leads(data, tokens + [t], t.pos + t.len, false)
    ensures End(tokens) <= t.pos && 1 <= t.offset < WINDOW_SIZE && t.len >= MIN_MATCH
    ensures Progress(data, header, output + Emitted(data[End(tokens)..t.pos], t.offset, t.len), tokens + [t],
                     t.pos + t.len, false)
  {
    hide Leads, IsLayout, Written, Emitted, End, Repeats, NoLonger;
    LayoutPush(data, tokens, t);
    WrittenPush(data, tokens, t);
    var w, x := Written(data, tokens), Emitted(data[End(tokens)..t.pos], t.offset, t.len);
    assert header + (w + x) == (header + w) + x;
  }

  lemma ProgressSkip(data: seq<byte>, header: seq<byte>, output: seq<byte>, tokens: seq<Token>, pos: nat,
                     deferred: bool,
                     best: Option<(nat, nat)>)
    requires pos + 2 < |data| && Progress(data, header, output, tokens, pos, deferred)
    requires IsBestAt(data, pos, pos, best) && !Takes(data, pos, deferred, best)
    ensures Progress(data, header, output, tokens, pos + 1, best.Some?)
  {
    hide IsBestAt, Takes, Leads, IsLayout, Written;
    LeadsSkip(data, tokens, pos, deferred, best);
  }

  lemma TakenFacts(data: seq<byte>, pos: nat, deferred: bool, best: Option<(nat, nat)>)
    requires pos + 2 < |data| && IsBestAt(data, pos, pos, best) && Takes(data, pos, deferred, best)
    ensures best.Some? && IsMatch(data, pos, best.value.0, best.value.1)
    ensures 1 <= best.value.0 < WINDOW_SIZE && MIN_MATCH <= best.value.1 <= |data| - pos
  {
    BestIsMatch(data, pos, pos, best);
  }

  lemma ProgressEnds(data: seq<byte>, header: seq<byte>, output: seq<byte>, tokens: seq<Token>, pos: nat,
                     deferred: bool)
    requires Progress(data, header, output, tokens, pos, deferred)
    ensures End(tokens) <= pos <= |data| && Leads(data, tokens, pos, deferred)
  {
  }

  /** One trip round the main loop. */
  method EncodeStep(data: seq<byte>, finder: MatchFinder, ghost header: seq<byte>, output: seq<byte>, litStart: nat,
                    pos: nat,
                    deferred: bool, ghost tokens: seq<Token>)
    returns (out: seq<byte>, litStart': nat, pos': nat, deferred': bool, ghost tokens': seq<Token>)
    requires finder.Valid() && pos + 2 < |data| <= MAX_LZ77_INPUT_SIZE && litStart == End(tokens)
    requires Progress(data, header, output, tokens, pos, deferred)
             && Indexed(finder.State(), data, InsertedUpto(data, pos))
    modifies finder.head, finder.prev
    ensures pos < pos' <= |data| && litStart' == End(tokens')
    ensures Progress(data, header, out, tokens', pos', deferred')
            && Indexed(finder.State(), data, InsertedUpto(data, pos'))
  {
    hide Hash3, Indexed, IsBestAt, Takes, Progress, IsMatch, Emitted, End, Leads;
    ProgressEnds(data, header, output, tokens, pos, deferred);
    var hash := Hash3(data, pos);
    var current, take := ChooseMatch(finder, data, pos, hash, deferred);
    if take {
      TakenFacts(data, pos, deferred, current);
      var (offset, len) := current.value;
      LeadsTake(data, tokens, pos, deferred, current);
      ProgressTake(data, header, output, tokens, deferred, Token(pos, offset, len));
      out := TakeMatch(finder, data, output, litStart, pos, offset, len);
      tokens' := tokens + [Token(pos, offset, len)];
      EndPush(tokens, Token(pos, offset, len));
      pos' := pos + len;
      litStart' := pos';
      deferred' := false;
    } else {
      ProgressSkip(data, header, output, tokens, pos, deferred, current);
      SkipPosition(finder, data, pos, hash);
      out, litStart', tokens' := output, litStart, tokens;
      pos' := pos + 1;
      deferred' := current.Some?;
    }
  }

  lemma EndPush(tokens: seq<Token>, t: Token)
    ensures End(tokens + [t]) == t.pos + t.len
  {
  }

  lemma ProgressStart(data: seq<byte>, header: seq<byte>)
    ensures Progress(data, header, header, [], 0, false)
  {
    hide Leads;
    LeadsStart(data);
    assert header + [] == header;
  }

  lemma ProgressEnd(data: seq<byte>, header: seq<byte>, output: seq<byte>, tokens: seq<Token>, pos: nat, deferred: bool)
    requires pos <= |data| <= pos + 2 && Progress(data, header, output, tokens, pos, deferred)
    ensures IsParse(data, 0, false, tokens) && IsLayout(data, tokens) && output == header + Written(data, tokens)
  {
    LeadsEnd(data, tokens, pos, deferred);
  }

  method EncodeMatches(data: seq<byte>, finder: MatchFinder, header: seq<byte>)
    returns (output: seq<byte>, litStart: nat, ghost tokens: seq<Token>)
    requires finder.Valid() && MIN_MATCH <= |data| <= MAX_LZ77_INPUT_SIZE
    requires Indexed(finder.State(), data, 0)
    modifies finder.head, finder.prev
    ensures IsParse(data, 0, false, tokens)
    ensures IsLayout(data, tokens) && litStart == End(tokens) && output == header + Written(data, tokens)
    ensures Indexed(finder.State(), data, |data| - 2)
  {
    hide Indexed, Progress;
    output, litStart, tokens := header, 0, [];
    var pos: nat := 0;
    var deferred := false;
    ProgressStart(data, header);
    while pos + 2 < |data|
      invariant pos <= |data| && litStart == End(tokens)
      invariant Progress(data, header, output, tokens, pos, deferred)
      invariant Indexed(finder.State(), data, InsertedUpto(data, pos))
      decreases |data| - pos
    {
      output, litStart, pos, deferred, tokens :=
        EncodeStep(data, finder, header, output, litStart, pos, deferred, tokens);
    }
    ProgressEnd(data, header, output, tokens, pos, deferred);
  }

  /**
   `lz77_encode`. Within the limits the input's one parse is written out; its stream is returned exactly
   when it is shorter than the input.
   */
  method Encode(data: seq<byte>) returns (r: Option<seq<byte>>, ghost tokens: seq<Token>)
    ensures |data| < 3 || |data| > 64 * 1024 * 1024 ==> r == None
    ensures 3 <= |data| <= 64 * 1024 * 1024 ==>
              && IsParse(data, 0, false, tokens) && IsLayout(data, tokens)
              && r == if |Stream(data, tokens)| < |data| then Some(Stream(data, tokens)) else None
    ensures r.Some? ==> DecodeResult(r.value, |data|) == Ok(data)
  {
    hide IsParse, IsLayout, Written, Literals, DecodeResult, Decoded, Indexed, End;
    tokens := [];
    if |data| < MIN_MATCH {
      return None, tokens;
    }
    if |data| > MAX_LZ77_INPUT_SIZE {
      return None, tokens;
    }
    var finder := new MatchFinder();
    EmptyIndexed(finder.State(), data);
    var output := ToLe32(|data|);
    var litStart;
    output, litStart, tokens := EncodeMatches(data, finder, output);
    StreamDecodes(data, tokens);
    output := EncodeFinal(data, output, litStart);
    r := if |output| < |data| then Some(output) else None;
  }

  method EncodeFinal(data: seq<byte>, output: seq<byte>, litStart: nat) returns (out: seq<byte>)
    requires litStart <= |data|
    ensures out == output + FinalLiterals(data, litStart)
  {
    out := output;
    if litStart < |data| {
      out := EmitLiterals(output, data[litStart..], 0);
    }
  }

  /** What `lz77_encode` returns is settled by the data: any two parses give the same stream. */
  lemma StreamUnique(data: seq<byte>, a: seq<Token>, b: seq<Token>)
    requires |data| < TWO32 && IsParse(data, 0, false, a) && IsParse(data, 0, false, b)
    ensures IsLayout(data, a) && IsLayout(data, b) && Stream(data, a) == Stream(data, b)
  {
    hide IsParse;
    ParseIsLayout(data, [], 0, false, a);
    assert [] + a == a;
    ParseUnique(data, 0, false, a, b);
  }
}
