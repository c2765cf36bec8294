/** The LZ77 stream (`coding/lz77_preprocess.rs`): lengths, copies and the decoder. */
module Lz77 {
  import opened Bytes

  const WINDOW_SIZE: nat := 65536
  const MIN_MATCH: nat := 3
  const MAX_MATCH: nat := 65538
  const MAX_LZ77_INPUT_SIZE: nat := MAX_DECOMPRESSED_BLOCK_SIZE

  // ---------------------------------------------------------------------------------------------
  // Copying
  // ---------------------------------------------------------------------------------------------

  /** Byte-at-a-time copy from `offset` back; the source may run into what is being written. */
  function CopyMatch(out: seq<byte>, offset: nat, len: nat): (r: seq<byte>)
    requires 0 < offset <= |out|
    ensures |r| == |out| + len
    ensures out <= r
    decreases len
  {
    if len == 0 then out else
    CopyMatch(out + [out[|out| - offset]], offset, len - 1)
  }

  /** Every copied byte repeats the one `offset` before it ... */
  lemma {:induction false} CopyRecurs(out: seq<byte>, offset: nat, len: nat, i: nat)
    requires 0 < offset <= |out| <= i < |out| + len
    ensures CopyMatch(out, offset, len)[i] == CopyMatch(out, offset, len)[i - offset]
    decreases len
  {
    var next := out + [out[|out| - offset]];
    if i > |out| {
      CopyRecurs(next, offset, len - 1, i);
    } else {
      assert next <= CopyMatch(next, offset, len - 1);
    }
  }

  /** ... and that recurrence determines the result. */
  lemma {:induction false} CopyUnique(out: seq<byte>, offset: nat, r: seq<byte>)
    requires 0 < offset <= |out| <= |r| && out <= r
    requires forall i :: |out| <= i < |r| ==> r[i] == r[i - offset]
    ensures r == CopyMatch(out, offset, |r| - |out|)
    decreases |r| - |out|
  {
    if |out| < |r| {
      var next := out + [out[|out| - offset]];
      assert r[|out|] == r[|out| - offset] == out[|out| - offset];
      assert next <= r;
      CopyUnique(next, offset, r);
    }
  }

  /** The decoder's copy: one block when it cannot overlap, else chunks of at most `offset`. */
  method CopyChunks(output: seq<byte>, offset: nat, matchLen: nat) returns (out: seq<byte>)
    requires 0 < offset <= |output|
    ensures out == CopyMatch(output, offset, matchLen)
  {
    out := output;
    if offset >= matchLen {
      var start := |out| - offset;
      out := out + out[start..start + matchLen];
      assert forall i :: |output| <= i < |out| ==> out[i] == out[i - offset];
    } else {
      var remaining: nat := matchLen;
      while remaining > 0
        invariant remaining <= matchLen && |out| + remaining == |output| + matchLen
        invariant output <= out
        invariant forall i :: |output| <= i < |out| ==> out[i] == out[i - offset]
      {
        var chunk := if remaining < offset then remaining else offset;
        var len := |out|;
        out := out + out[len - offset..len - offset + chunk];
        remaining := remaining - chunk;
      }
    }
    CopyUnique(output, offset, out);
  }

  // ---------------------------------------------------------------------------------------------
  // Lengths
  // ---------------------------------------------------------------------------------------------

  /** Extension bytes of a length whose nibble is 15: 255 while it lasts, then the remainder. */
  function Extension(rem: nat): (e: seq<byte>)
    ensures |e| == rem / 255 + 1
  {
    if rem >= 255 then [255] + Extension(rem - 255) else [rem]
  }

  function Nibble(n: nat): (b: nat)
    ensures b <= 15
  {
    if n < 15 then n else 15
  }

  function LengthTail(n: nat): seq<byte> {
    if n >= 15 then Extension(n - 15) else []
  }

  /** The outcome of reading extension bytes: position and length, or the data ran out or got too big. */
  datatype Ext = Ext(pos: nat, len: nat) | BadExt

  /** Extension bytes from `pos` on, added to `len`, which may not exceed `limit`. */
  function ReadExt(e: seq<byte>, pos: nat, len: nat, limit: nat): (r: Ext)
    ensures r.Ext? ==> pos < r.pos <= |e| && len <= r.len <= limit
    decreases |e| - pos
  {
    if pos >= |e| then BadExt
    else
      var total := len + e[pos];
      if total > limit then BadExt
      else if e[pos] < 255 then Ext(pos + 1, total)
      else ReadExt(e, pos + 1, total, limit)
  }

  /** A length: the nibble's share `len`, with extension bytes when the nibble is 15. */
  function ReadLen(e: seq<byte>, pos: nat, nibble: nat, len: nat, limit: nat): (r: Ext)
    requires pos <= |e|
    ensures r.Ext? ==> pos <= r.pos <= |e| && len <= r.len
    ensures r.Ext? && nibble == 15 ==> r.len <= limit
    ensures r.Ext? && nibble != 15 ==> r.len == len
  {
    if nibble == 15 then ReadExt(e, pos, len, limit) else Ext(pos, len)
  }

  /** `e` holds `x` at `pos`. */
  ghost predicate At(e: seq<byte>, pos: nat, x: seq<byte>) {
    pos + |x| <= |e| && e[pos..pos + |x|] == x
  }

  lemma AtSplit(e: seq<byte>, pos: nat, x: seq<byte>, y: seq<byte>)
    requires At(e, pos, x + y)
    ensures At(e, pos, x) && At(e, pos + |x|, y)
  {
    var z := e[pos..pos + |x + y|];
    assert e[pos..pos + |x|] == z[..|x|];
    assert e[pos + |x|..pos + |x| + |y|] == z[|x|..];
  }

  lemma AtByte(e: seq<byte>, pos: nat, x: seq<byte>, i: nat)
    requires At(e, pos, x) && i < |x|
    ensures e[pos + i] == x[i]
  {
    assert e[pos..pos + |x|][i] == e[pos + i];
  }

  lemma {:induction false} ReadExtension(e: seq<byte>, pos: nat, len: nat, limit: nat, rem: nat)
    requires len + rem <= limit && At(e, pos, Extension(rem))
    ensures ReadExt(e, pos, len, limit) == Ext(pos + |Extension(rem)|, len + rem)
    decreases rem
  {
    AtByte(e, pos, Extension(rem), 0);
    if rem >= 255 {
      AtSplit(e, pos, [255], Extension(rem - 255));
      ReadExtension(e, pos + 1, len + 255, limit, rem - 255);
    }
  }

  /** A length that was written is read back. */
  lemma ReadWritten(e: seq<byte>, pos: nat, n: nat, base: nat, limit: nat)
    requires base + n <= limit && At(e, pos, LengthTail(n))
    ensures ReadLen(e, pos, Nibble(n), base + Nibble(n), limit) == Ext(pos + |LengthTail(n)|, base + n)
  {
    if n >= 15 {
      ReadExtension(e, pos, base + 15, limit, n - 15);
    }
  }

  method ReadLength(e: seq<byte>, start: nat, nibble: nat, limit: nat) returns (r: Ext)
    requires start <= |e|
    ensures r == ReadExt(e, start, nibble, limit)
  {
    var pos: nat, len: nat := start, nibble;
    while true
      invariant start <= pos <= |e|
      invariant ReadExt(e, pos, len, limit) == ReadExt(e, start, nibble, limit)
      decreases |e| - pos
    {
      if pos >= |e| {
        return BadExt;
      }
      var ext := e[pos];
      pos := pos + 1;
      len := len + ext;
      if len > limit {
        return BadExt;
      }
      if ext < 255 {
        return Ext(pos, len);
      }
    }
  }

  method PushExtension(output: seq<byte>, n: nat) returns (out: seq<byte>)
    ensures out == output + Extension(n)
  {
    out := output;
    var rem := n;
    while rem >= 255
      invariant out + Extension(rem) == output + Extension(n)
    {
      assert out + ([255] + Extension(rem - 255)) == (out + [255]) + Extension(rem - 255);
      out := out + [255];
      rem := rem - 255;
    }
    out := out + [rem];
  }

  // ---------------------------------------------------------------------------------------------
  // Decoder
  // ---------------------------------------------------------------------------------------------

  /** What one trip round the decoder's loop does. */
  datatype Step = More(pos: nat, out: seq<byte>) | Done(pos: nat, out: seq<byte>) | Bad

  /** The literal part: its length, then the bytes. */
  function LiteralStep(e: seq<byte>, pos: nat, out: seq<byte>, size: nat): (r: Step)
    requires pos < |e| && |out| < size
    ensures !r.Bad? ==> pos < r.pos <= |e| && out <= r.out
    ensures r.More? ==> |r.out| < size
    ensures r.Done? ==> size <= |r.out| <= size + 13
  {
    var nibble := e[pos] / 16;
    var l := ReadLen(e, pos + 1, nibble, nibble, size - |out|);
    if l.BadExt? || l.pos + l.len > |e| then Bad
    else
      var out' := out + e[l.pos..l.pos + l.len];
      if |out'| >= size then Done(l.pos + l.len, out') else More(l.pos + l.len, out')
  }

  function OffsetAt(e: seq<byte>, pos: nat): nat
    requires pos + 2 <= |e|
  {
    e[pos] as nat + e[pos + 1] as nat * 256
  }

  /** The match part: offset, length, copy. `nibble` is the token's low half. */
  function MatchStep(e: seq<byte>, pos: nat, out: seq<byte>, size: nat, nibble: nat): (r: Step)
    requires pos <= |e| && |out| < size && nibble <= 15
    ensures !r.Bad? ==> r.More? && pos < r.pos <= |e| && out <= r.out && |r.out| <= size + 16
  {
    if pos + 2 > |e| then Bad
    else
      var offset := OffsetAt(e, pos);
      if offset == 0 || offset > |out| then Bad
      else
        var m := ReadLen(e, pos + 2, nibble, MIN_MATCH + nibble, size - |out|);
        if m.BadExt? then Bad
        else More(m.pos, CopyMatch(out, offset, m.len))
  }

  /** One sequence: literals and, unless they complete the output, a match. */
  function SequenceStep(e: seq<byte>, pos: nat, out: seq<byte>, size: nat): (r: Step)
    requires pos < |e| && |out| < size
    ensures !r.Bad? ==> pos < r.pos <= |e| && out <= r.out && |r.out| <= size + 16
    ensures r.Done? ==> size <= |r.out|
  {
    var l := LiteralStep(e, pos, out, size);
    if l.More? then MatchStep(e, l.pos, l.out, size, e[pos] % 16) else l
  }

  /** The rest of the loop: where it ends and what it has written, `None` when it fails. */
  function Decoded(e: seq<byte>, pos: nat, out: seq<byte>, size: nat): (r: Option<(nat, seq<byte>)>)
    requires pos <= |e|
    ensures r.Some? ==> pos <= r.value.0 <= |e| && out <= r.value.1 && size <= |r.value.1|
    ensures r.Some? ==> |r.value.1| <= size + 16 || r.value.1 == out
    decreases |e| - pos
  {
    if |out| >= size then Some((pos, out))
    else if pos >= |e| then None
    else
      match SequenceStep(e, pos, out, size)
      case Bad => None
      case Done(pos', out') => Some((pos', out'))
      case More(pos', out') => Decoded(e, pos', out', size)
  }

  lemma MatchStepIs(e: seq<byte>, pos: nat, out: seq<byte>, size: nat, nibble: nat, offset: nat, m: Ext)
    requires pos + 2 <= |e| && nibble <= 15 && 0 < offset <= |out| < size && offset == OffsetAt(e, pos)
    requires m.Ext? && m == ReadLen(e, pos + 2, nibble, MIN_MATCH + nibble, size - |out|)
    ensures MatchStep(e, pos, out, size, nibble) == More(m.pos, CopyMatch(out, offset, m.len))
  {
  }

  lemma SequenceStepIs(e: seq<byte>, pos: nat, out: seq<byte>, size: nat, l: Step)
    requires pos < |e| && |out| < size && l == LiteralStep(e, pos, out, size)
    ensures SequenceStep(e, pos, out, size) == if l.More? then MatchStep(e, l.pos, l.out, size, e[pos] % 16) else l
  {
  }

  lemma DecodedStep(e: seq<byte>, pos: nat, out: seq<byte>, size: nat, step: Step)
    requires pos < |e| && |out| < size && step == SequenceStep(e, pos, out, size)
    ensures step.More? ==> Decoded(e, pos, out, size) == Decoded(e, step.pos, step.out, size)
    ensures step.Done? ==> Decoded(e, pos, out, size) == Some((step.pos, step.out))
    ensures step.Bad? ==> Decoded(e, pos, out, size) == None
  {
  }

  /** What `lz77_decode` returns, on every input. */
  function DecodeResult(e: seq<byte>, expectedSize: nat): (r: Result<seq<byte>>)
    ensures r.Ok? ==> |r.value| == expectedSize <= MAX_LZ77_INPUT_SIZE
  {
    if |e| < 4 then Err(Decompression)
    else
      var size := FromLe32(e[..4]);
      if size != expectedSize || size > MAX_LZ77_INPUT_SIZE then Err(Decompression)
      else
        var d := Decoded(e, 4, [], size);
        if d.None? || |d.value.1| != size then Err(Decompression) else Ok(d.value.1)
  }

  method DecodeSequence(e: seq<byte>, start: nat, output: seq<byte>, size: nat) returns (r: Step)
    requires start < |e| && |output| < size
    ensures r == SequenceStep(e, start, output, size)
  {
    var token := e[start];
    var pos := start + 1;
    var litLen: nat := token / 16;
    if litLen == 15 {
      var x := ReadLength(e, pos, litLen, size - |output|);
      if x.BadExt? {
        return Bad;
      }
      pos, litLen := x.pos, x.len;
    }
    if pos + litLen > |e| {
      return Bad;
    }
    var out := output + e[pos..pos + litLen];
    pos := pos + litLen;
    if |out| >= size {
      return Done(pos, out);
    }
    r := DecodeMatch(e, pos, out, size, token % 16);
  }

  method DecodeMatch(e: seq<byte>, start: nat, output: seq<byte>, size: nat, nibble: nat) returns (r: Step)
    requires start <= |e| && |output| < size && nibble <= 15
    ensures r == MatchStep(e, start, output, size, nibble)
  {
    var pos := start;
    if pos + 2 > |e| {
      return Bad;
    }
    var offset := OffsetAt(e, pos);
    pos := pos + 2;
    if offset == 0 || offset > |output| {
      return Bad;
    }
    var matchLen := nibble + MIN_MATCH;
    if nibble == 15 {
      var x := ReadLength(e, pos, matchLen, size - |output|);
      if x.BadExt? {
        return Bad;
      }
      pos, matchLen := x.pos, x.len;
    }
    var out := CopyChunks(output, offset, matchLen);
    return More(pos, out);
  }

  /** `lz77_decode`: terminates on every input, never writing more than 16 bytes past the size. */
  method Decode(e: seq<byte>, expectedSize: nat) returns (r: Result<seq<byte>>)
    ensures r == DecodeResult(e, expectedSize)
  {
    if |e| < 4 {
      return Err(Decompression);
    }
    var size := FromLe32(e[..4]);
    if size != expectedSize {
      return Err(Decompression);
    }
    if size > MAX_LZ77_INPUT_SIZE {
      return Err(Decompression);
    }
    var output: seq<byte> := [];
    var pos := 4;
    while |output| < size
      invariant 4 <= pos <= |e| && |output| <= size + 16
      invariant Decoded(e, 4, [], size) == Decoded(e, pos, output, size)
      decreases |e| - pos
    {
      if pos >= |e| {
        return Err(Decompression);
      }
      var step := DecodeSequence(e, pos, output, size);
      DecodedStep(e, pos, output, size, step);
      if step.Bad? {
        return Err(Decompression);
      }
      pos, output := step.pos, step.out;
      if step.Done? {
        break;
      }
    }
    if |output| != size {
      return Err(Decompression);
    }
    return Ok(output);
  }
}
