/**
 The LZ77 stream format (`coding/lz77_preprocess.rs`), byte by byte, and the streams the decoder accepts:
 exactly the encodings of literals and copies that make up the output.
 */
module Lz77Format {
  import opened Bytes
  import opened Lz77
  import opened Lz77Encoding

  // ---------------------------------------------------------------------------------------------
  // The bytes of a sequence
  // ---------------------------------------------------------------------------------------------

  /** What follows a nibble to make it the length `n`: nothing below 15, else bytes that add up to the rest. */
  ghost predicate Extends(e: seq<byte>, n: nat) {
    if n < 15 then e == []
    else
      && |e| == (n - 15) / 255 + 1
      && (forall i :: 0 <= i < |e| - 1 ==> e[i] == 255)
      && e[|e| - 1] == (n - 15) % 255
  }

  lemma {:induction false} ExtensionBytes(rem: nat)
    ensures Extends(Extension(rem), rem + 15)
  {
    if rem >= 255 {
      ExtensionBytes(rem - 255);
    }
  }

  /** Token, literal length, literals, offset low byte first, match length less three. */
  lemma EmittedBytes(lits: seq<byte>, offset: nat, len: nat) returns (a: seq<byte>, b: seq<byte>)
    requires 1 <= offset < 65536 && len >= 3
    ensures Extends(a, |lits|) && Extends(b, len - 3)
    ensures var high := if |lits| < 15 then |lits| else 15;
            var low := if len - 3 < 15 then len - 3 else 15;
            Emitted(lits, offset, len) == [16 * high + low] + a + lits + [offset % 256, offset / 256] + b
  {
    hide LengthTail, Extends;
    a, b := LengthTail(|lits|), LengthTail(len - 3);
    TailExtends(|lits|);
    TailExtends(len - 3);
    TokenFirst(|lits|, len - 3);
  }

  lemma TokenFirst(n: nat, m: nat)
    ensures Nibble(n) * 16 + Nibble(m) == 16 * (if n < 15 then n else 15) + if m < 15 then m else 15
  {
  }

  lemma TailExtends(n: nat)
    ensures Extends(LengthTail(n), n)
  {
    if n >= 15 {
      ExtensionBytes(n - 15);
    }
  }

  /** The literals at the end of a stream have no match after them. */
  lemma FinalBytes(lits: seq<byte>) returns (a: seq<byte>)
    ensures Extends(a, |lits|)
    ensures var high := if |lits| < 15 then |lits| else 15;
            Literals(lits, 0) == [16 * high] + a + lits
  {
    a := LengthTail(|lits|);
    TailExtends(|lits|);
  }

  // ---------------------------------------------------------------------------------------------
  // What a stream stands for
  // ---------------------------------------------------------------------------------------------

  /** Literals, then a copy from what is already there. */
  datatype Item = Item(lits: seq<byte>, offset: nat, len: nat)

  /** What items stand for; `None` when a copy would reach before the start or cannot be written. */
  function Meaning(items: seq<Item>): Option<seq<byte>> {
    if items == [] then Some([]) else
    var before, t := Meaning(items[..|items| - 1]), items[|items| - 1];
    if before.Some? && 1 <= t.offset < 65536 && t.offset <= |before.value| + |t.lits| && t.len >= 3 then
      Some(CopyMatch(before.value + t.lits, t.offset, t.len))
    else None
  }

  lemma MeaningPush(items: seq<Item>, t: Item)
    requires Meaning(items).Some? && 1 <= t.offset < 65536 && t.offset <= |Meaning(items).value| + |t.lits|
             && t.len >= 3
    ensures Meaning(items + [t]) == Some(CopyMatch(Meaning(items).value + t.lits, t.offset, t.len))
  {
    assert (items + [t])[..|items|] == items;
  }

  function Coded(items: seq<Item>): seq<byte>
    requires Meaning(items).Some?
  {
    if items == [] then [] else
    var t := items[|items| - 1];
    Coded(items[..|items| - 1]) + Emitted(t.lits, t.offset, t.len)
  }

  lemma CodedPush(items: seq<Item>, t: Item)
    requires Meaning(items).Some? && Meaning(items + [t]).Some?
    ensures 1 <= t.offset < 65536 && t.len >= 3
    ensures Coded(items + [t]) == Coded(items) + Emitted(t.lits, t.offset, t.len)
  {
    assert (items + [t])[..|items|] == items;
  }

  /** The literals after the last copy; the low half of their token is not looked at. */
  function Tail(last: seq<byte>, nibble: nat): seq<byte>
    requires nibble <= 15
  {
    if last == [] then [] else Literals(last, nibble)
  }

  /** `e` begins with the size of `out` and an encoding of it. */
  ghost predicate IsStream(e: seq<byte>, out: seq<byte>, items: seq<Item>, last: seq<byte>, nibble: nat) {
    && 4 <= |e| && FromLe32(e[..4]) == |out| <= 64 * 1024 * 1024
    && nibble <= 15
    && Meaning(items).Some? && out == Meaning(items).value + last
    && At(e, 4, Coded(items) + Tail(last, nibble))
  }

  /** `items` are written from the fifth byte of `e` up to `pos` and stand for `out`. */
  ghost predicate Reads(e: seq<byte>, items: seq<Item>, pos: nat, out: seq<byte>) {
    4 <= |e| && Meaning(items) == Some(out) && At(e, 4, Coded(items)) && pos == 4 + |Coded(items)|
  }

  /** The copy an item makes can be written and stays inside what it copies from. */
  ghost predicate Fits(t: Item, out: seq<byte>) {
    1 <= t.offset < 65536 && t.offset <= |out| + |t.lits| && t.len >= 3
  }

  lemma ReadsStart(e: seq<byte>)
    requires 4 <= |e|
    ensures Reads(e, [], 4, [])
  {
  }

  lemma ReadsPush(e: seq<byte>, items: seq<Item>, pos: nat, out: seq<byte>, t: Item, end: nat)
    requires Reads(e, items, pos, out) && Fits(t, out)
    requires pos <= end <= |e| && e[pos..end] == Emitted(t.lits, t.offset, t.len)
    ensures Reads(e, items + [t], end, CopyMatch(out + t.lits, t.offset, t.len))
  {
    hide Emitted, CopyMatch, At;
    MeaningPush(items, t);
    CodedPush(items, t);
    AtPush(e, Coded(items), Emitted(t.lits, t.offset, t.len), end);
  }

  lemma ReadsPop(e: seq<byte>, items: seq<Item>, pos: nat, out: seq<byte>)
    returns (t: Item, mid: nat, before: seq<byte>)
    requires items != [] && Reads(e, items, pos, out)
    ensures Reads(e, items[..|items| - 1], mid, before) && Fits(t, before)
    ensures out == CopyMatch(before + t.lits, t.offset, t.len)
    ensures At(e, mid, Emitted(t.lits, t.offset, t.len)) && pos == mid + |Emitted(t.lits, t.offset, t.len)|
  {
    var front := items[..|items| - 1];
    t, mid, before := items[|items| - 1], 4 + |Coded(front)|, Meaning(front).value;
    AtSplit(e, 4, Coded(front), Emitted(t.lits, t.offset, t.len));
  }

  lemma AtPush(e: seq<byte>, x: seq<byte>, y: seq<byte>, end: nat)
    requires 4 <= |e| && At(e, 4, x) && 4 + |x| <= end <= |e| && e[4 + |x|..end] == y
    ensures At(e, 4, x + y) && end == 4 + |x + y|
  {
    assert e[4..end] == e[4..4 + |x|] + e[4 + |x|..end];
  }

  // ---------------------------------------------------------------------------------------------
  // Every such stream is accepted
  // ---------------------------------------------------------------------------------------------

  lemma {:induction false} ReadsDecodes(e: seq<byte>, items: seq<Item>, pos: nat, out: seq<byte>, size: nat)
    requires Reads(e, items, pos, out) && |out| <= size
    ensures pos <= |e| && Decoded(e, 4, [], size) == Decoded(e, pos, out, size)
    decreases |items|
  {
    hide Decoded, Emitted, CopyMatch;
    if items != [] {
      var t, mid, before := ReadsPop(e, items, pos, out);
      hide Reads;
      ReadsDecodes(e, items[..|items| - 1], mid, before, size);
      ItemDecodes(e, mid, before, t, size);
    }
  }

  lemma ItemDecodes(e: seq<byte>, pos: nat, out: seq<byte>, t: Item, size: nat)
    requires Fits(t, out)
    requires |CopyMatch(out + t.lits, t.offset, t.len)| <= size && At(e, pos, Emitted(t.lits, t.offset, t.len))
    ensures Decoded(e, pos, out, size)
            == Decoded(e, pos + |Emitted(t.lits, t.offset, t.len)|, CopyMatch(out + t.lits, t.offset, t.len), size)
  {
    hide Decoded, SequenceStep, CopyMatch, Literals, MatchBytes;
    var x := Emitted(t.lits, t.offset, t.len);
    ReadSequence(e, pos, out, size, t.lits, t.offset, t.len);
    DecodedStep(e, pos, out, size, More(pos + |x|, CopyMatch(out + t.lits, t.offset, t.len)));
  }

  lemma TailDecodes(e: seq<byte>, pos: nat, out: seq<byte>, last: seq<byte>, nibble: nat)
    requires nibble <= 15 && At(e, pos, Tail(last, nibble))
    ensures Decoded(e, pos, out, |out + last|) == Some((pos + |Tail(last, nibble)|, out + last))
  {
    if last != [] {
      var size := |out + last|;
      hide Decoded, Literals, LiteralStep, SequenceStep, MatchStep;
      ReadLiterals(e, pos, out, size, last, nibble);
      SequenceStepIs(e, pos, out, size, Done(pos + |Tail(last, nibble)|, out + last));
      DecodedStep(e, pos, out, size, Done(pos + |Tail(last, nibble)|, out + last));
    } else {
      assert out + last == out;
    }
  }

  lemma StreamAccepted(e: seq<byte>, out: seq<byte>, items: seq<Item>, last: seq<byte>, nibble: nat)
    requires IsStream(e, out, items, last, nibble)
    ensures DecodeResult(e, |out|) == Ok(out)
  {
    hide Decoded, Coded, Tail, Meaning, At;
    AtSplit(e, 4, Coded(items), Tail(last, nibble));
    ReadsDecodes(e, items, 4 + |Coded(items)|, Meaning(items).value, |out|);
    TailDecodes(e, 4 + |Coded(items)|, Meaning(items).value, last, nibble);
  }

  // ---------------------------------------------------------------------------------------------
  // And nothing else is
  // ---------------------------------------------------------------------------------------------

  lemma {:induction false} ExtensionBack(e: seq<byte>, pos: nat, len: nat, limit: nat)
    requires ReadExt(e, pos, len, limit).Ext?
    ensures var r := ReadExt(e, pos, len, limit);
            e[pos..r.pos] == Extension(r.len - len)
    decreases |e| - pos
  {
    var r := ReadExt(e, pos, len, limit);
    if e[pos] == 255 {
      ExtensionBack(e, pos + 1, len + 255, limit);
      assert e[pos..r.pos] == [255] + e[pos + 1..r.pos];
    }
  }

  /** A length that was read is written the same way. */
  lemma LengthBack(e: seq<byte>, pos: nat, nibble: nat, base: nat, limit: nat)
    requires pos <= |e| && nibble <= 15 && ReadLen(e, pos, nibble, base + nibble, limit).Ext?
    ensures var r := ReadLen(e, pos, nibble, base + nibble, limit);
            nibble == Nibble(r.len - base) && e[pos..r.pos] == LengthTail(r.len - base)
  {
    if nibble == 15 {
      ExtensionBack(e, pos, base + 15, limit);
    }
  }

  lemma LiteralsBack(e: seq<byte>, pos: nat, out: seq<byte>, size: nat) returns (lits: seq<byte>)
    requires pos < |e| && |out| < size && !LiteralStep(e, pos, out, size).Bad?
    ensures var l := LiteralStep(e, pos, out, size);
            l.out == out + lits && e[pos..l.pos] == Literals(lits, e[pos] % 16)
  {
    hide LiteralStep, Literals, ReadLen, LengthTail, Nibble;
    var mid := LiteralParts(e, pos, out, size);
    var end := LiteralStep(e, pos, out, size).pos;
    LengthBack(e, pos + 1, e[pos] / 16, 0, size - |out|);
    lits := e[mid..end];
    LiteralsAre(e, pos, mid, end);
  }

  lemma LiteralParts(e: seq<byte>, pos: nat, out: seq<byte>, size: nat) returns (mid: nat)
    requires pos < |e| && |out| < size && !LiteralStep(e, pos, out, size).Bad?
    ensures var l := LiteralStep(e, pos, out, size);
            && pos < mid <= l.pos <= |e| && l.out == out + e[mid..l.pos]
            && ReadLen(e, pos + 1, e[pos] / 16, e[pos] / 16, size - |out|) == Ext(mid, l.pos - mid)
  {
    hide ReadLen;
    mid := ReadLen(e, pos + 1, e[pos] / 16, e[pos] / 16, size - |out|).pos;
  }

  lemma LiteralsAre(e: seq<byte>, pos: nat, mid: nat, end: nat)
    requires pos < mid <= end <= |e| && e[pos] / 16 == Nibble(end - mid) && e[pos + 1..mid] == LengthTail(end - mid)
    ensures e[pos..end] == Literals(e[mid..end], e[pos] % 16)
  {
    hide LengthTail, Nibble;
    TokenIs(e[pos], Nibble(end - mid));
    assert e[pos..end] == [e[pos]] + e[pos + 1..mid] + e[mid..end];
  }

  lemma TokenIs(b: byte, nibble: nat)
    requires nibble == b / 16
    ensures b == nibble * 16 + b % 16
  {
  }

  lemma MatchBack(e: seq<byte>, pos: nat, out: seq<byte>, size: nat, nibble: nat) returns (offset: nat, len: nat)
    requires pos <= |e| && |out| < size && nibble <= 15 && !MatchStep(e, pos, out, size, nibble).Bad?
    ensures 1 <= offset < 65536 && offset <= |out| && len >= 3 && nibble == Nibble(len - 3)
    ensures var m := MatchStep(e, pos, out, size, nibble);
            m.out == CopyMatch(out, offset, len) && e[pos..m.pos] == MatchBytes(offset, len)
  {
    hide MatchStep, MatchBytes, CopyMatch, ReadLen, LengthTail, Nibble;
    offset, len := MatchParts(e, pos, out, size, nibble);
    LengthBack(e, pos + 2, nibble, 3, size - |out|);
    MatchBytesAre(e, pos, MatchStep(e, pos, out, size, nibble).pos, len);
  }

  lemma MatchParts(e: seq<byte>, pos: nat, out: seq<byte>, size: nat, nibble: nat) returns (offset: nat, len: nat)
    requires pos <= |e| && |out| < size && nibble <= 15 && !MatchStep(e, pos, out, size, nibble).Bad?
    ensures pos + 2 <= |e| && 0 < offset == OffsetAt(e, pos) <= |out| && len >= 3
    ensures var m := MatchStep(e, pos, out, size, nibble);
            && m.out == CopyMatch(out, offset, len) && pos + 2 <= m.pos <= |e|
            && ReadLen(e, pos + 2, nibble, 3 + nibble, size - |out|) == Ext(m.pos, len)
  {
    hide ReadLen, CopyMatch;
    offset := OffsetAt(e, pos);
    len := ReadLen(e, pos + 2, nibble, 3 + nibble, size - |out|).len;
  }

  lemma MatchBytesAre(e: seq<byte>, pos: nat, end: nat, len: nat)
    requires pos + 2 <= end <= |e| && len >= 3 && OffsetAt(e, pos) > 0 && e[pos + 2..end] == LengthTail(len - 3)
    ensures 1 <= OffsetAt(e, pos) < 65536 && e[pos..end] == MatchBytes(OffsetAt(e, pos), len)
  {
    hide LengthTail;
    var offset := OffsetAt(e, pos);
    assert LowByte(offset) == e[pos] && HighByte(offset) == e[pos + 1];
    assert e[pos..end] == [e[pos], e[pos + 1]] + e[pos + 2..end];
  }

  lemma SequenceBack(e: seq<byte>, pos: nat, out: seq<byte>, size: nat) returns (t: Item)
    requires pos < |e| && |out| < size && SequenceStep(e, pos, out, size).More?
    ensures Fits(t, out)
    ensures var s := SequenceStep(e, pos, out, size);
            s.out == CopyMatch(out + t.lits, t.offset, t.len) && e[pos..s.pos] == Emitted(t.lits, t.offset, t.len)
  {
    hide LiteralStep, MatchStep, CopyMatch, Literals, MatchBytes, Nibble;
    var l := LiteralStep(e, pos, out, size);
    var lits := LiteralsBack(e, pos, out, size);
    var offset, len := MatchBack(e, l.pos, l.out, size, e[pos] % 16);
    t := Item(lits, offset, len);
    var s := SequenceStep(e, pos, out, size);
    assert e[pos..s.pos] == e[pos..l.pos] + e[l.pos..s.pos];
  }

  /** The items of an accepted stream, read off one by one. */
  lemma {:induction false} DecodedBack(e: seq<byte>, done: seq<Item>, pos: nat, out: seq<byte>, size: nat)
    returns (items: seq<Item>, at: nat, before: seq<byte>)
    requires Reads(e, done, pos, out) && pos <= |e|
    requires Decoded(e, pos, out, size).Some? && |Decoded(e, pos, out, size).value.1| == size
    ensures Reads(e, items, at, before) && at <= |e|
    ensures Decoded(e, pos, out, size) == Decoded(e, at, before, size)
    ensures |before| == size || (|before| < size && at < |e| && SequenceStep(e, at, before, size).Done?)
    decreases |e| - pos
  {
    items, at, before := done, pos, out;
    if |out| < size {
      var s := SequenceStep(e, pos, out, size);
      DecodedStep(e, pos, out, size, s);
      hide Reads, Decoded, SequenceStep, CopyMatch, Emitted;
      if s.More? {
        var t := SequenceBack(e, pos, out, size);
        ReadsPush(e, done, pos, out, t, s.pos);
        items, at, before := DecodedBack(e, done + [t], s.pos, s.out, size);
      }
    }
  }

  /** After the last item come literals or nothing. */
  lemma DecodedEnd(e: seq<byte>, pos: nat, out: seq<byte>, size: nat) returns (last: seq<byte>, nibble: nat, end: nat)
    requires pos <= |e| && Decoded(e, pos, out, size).Some? && |Decoded(e, pos, out, size).value.1| == size
    requires |out| == size || (|out| < size && pos < |e| && SequenceStep(e, pos, out, size).Done?)
    ensures Decoded(e, pos, out, size).value.1 == out + last
    ensures nibble <= 15 && pos <= end <= |e| && e[pos..end] == Tail(last, nibble)
  {
    last, nibble, end := [], 0, pos;
    if |out| < size {
      var s := SequenceStep(e, pos, out, size);
      DecodedStep(e, pos, out, size, s);
      hide Decoded, LiteralStep, MatchStep, Literals;
      last := LiteralsBack(e, pos, out, size);
      nibble, end := e[pos] % 16, s.pos;
    } else {
      assert out + last == out;
    }
  }

  lemma AcceptedIsStream(e: seq<byte>, out: seq<byte>) returns (items: seq<Item>, last: seq<byte>, nibble: nat)
    requires DecodeResult(e, |out|) == Ok(out)
    ensures IsStream(e, out, items, last, nibble)
  {
    hide Decoded, Tail, SequenceStep;
    ReadsStart(e);
    var at, before;
    items, at, before := DecodedBack(e, [], 4, [], |out|);
    var end;
    last, nibble, end := DecodedEnd(e, at, before, |out|);
    AtPush(e, Coded(items), Tail(last, nibble), end);
  }

  /** The decoder accepts exactly the encodings of its output, with whatever may follow them. */
  lemma AcceptedExactly(e: seq<byte>, out: seq<byte>)
    ensures DecodeResult(e, |out|) == Ok(out)
            <==> exists items: seq<Item>, last: seq<byte>, nibble: nat :: IsStream(e, out, items, last, nibble)
  {
    hide DecodeResult, IsStream;
    if DecodeResult(e, |out|) == Ok(out) {
      var items, last, nibble := AcceptedIsStream(e, out);
    }
    forall items: seq<Item>, last: seq<byte>, nibble: nat | IsStream(e, out, items, last, nibble)
      ensures DecodeResult(e, |out|) == Ok(out)
    {
      StreamAccepted(e, out, items, last, nibble);
    }
  }
}
