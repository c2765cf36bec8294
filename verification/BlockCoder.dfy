/**
 Predictor-guided coding of a whole block (`coding/rans.rs`, block-level API), for every lawful
 predictor: decoding what was encoded gives the block back, and exactly the bytes written are read.
 */
module BlockCoding {
  import opened Bytes
  import opened RangeEncoding
  import opened RangeDecoding
  import opened Predictors

  const MAX_DECODE_SIZE: nat := MAX_DECOMPRESSED_BLOCK_SIZE
  const MAX_NORMAL_OVERREAD: nat := 5

  /** The encode loop: query, narrow, update. */
  function EncodeFrom<S(!new)>(p: Predictor<S>, s: S, e: Enc, data: seq<byte>): (r: (Enc, S))
    requires Lawful(p) && e.range >= TOP
    ensures r.0.range >= TOP
    decreases |data|
  {
    if data == [] then (e, s) else
    var b := data[0];
    var q := p.query(s, b);
    QueryIsInterval(p, s, b);
    EncodeFrom(p, p.update(s, b), Encoded(e, q.0, q.1), data[1..])
  }

  /** `encode_block_inner`; the second component is the predictor's final state. */
  function EncodeBlock<S(!new)>(p: Predictor<S>, s: S, data: seq<byte>, reset: bool): (Result<seq<byte>>, S)
    requires Lawful(p)
  {
    if data == [] then (Ok([]), s) else
    var r := EncodeFrom(p, if reset then p.initial else s, NEW_ENC, data);
    (Finished(r.0), r.1)
  }

  /** The decode loop: find the interval's symbol, advance, update. */
  function DecodeFrom<S(!new)>(p: Predictor<S>, s: S, input: seq<byte>, d: Dec, n: nat): (r: (seq<byte>, Dec, S))
    requires Lawful(p) && d.range >= TOP
    ensures |r.0| == n
    decreases n
  {
    if n == 0 then ([], d, s) else
    var q := DecodeFreq(d);
    var y := p.decode(s, q.1);
    assert Resolves(p.cdf(s), q.1, y);
    MulLe(y.1, q.1, q.0);
    var r := DecodeFrom(p, p.update(s, y.0), input, Advanced(input, d, q.0, y.1, y.2), n - 1);
    ([y.0] + r.0, r.1, r.2)
  }

  /** `decode_block_inner`: total on every input, however corrupt. */
  function DecodeBlock<S(!new)>(p: Predictor<S>, s: S, input: seq<byte>, n: nat,
                                reset: bool): (r: (Result<seq<byte>>, S))
    requires Lawful(p)
    ensures r.0.Ok? ==> |r.0.value| == n <= MAX_DECODE_SIZE
  {
    if n == 0 then (Ok([]), s)
    else if input == [] || n > MAX_DECODE_SIZE then (Err(Decompression), s)
    else
      var r := DecodeFrom(p, if reset then p.initial else s, input, Start(input), n);
      (if r.1.overread > MAX_NORMAL_OVERREAD then Err(Decompression) else Ok(r.0), r.2)
  }

  /** One trip round the encode loop, for a predictor object that answers from its table. */
  lemma EncodeStep<S(!new)>(p: Predictor<S>, s: S, e: Enc, data: seq<byte>, i: nat)
    requires Lawful(p) && e.range >= TOP && i < |data|
    ensures var c := p.cdf(s);
            var b := data[i];
            && c[b] < c[b + 1] <= PROB_TOTAL
            && EncodeFrom(p, s, e, data[i..])
               == EncodeFrom(p, p.update(s, b), Encoded(e, c[b], c[b + 1]), data[i + 1..])
  {
    assert data[i..][0] == data[i] && data[i..][1..] == data[i + 1..];
    QueryIsInterval(p, s, data[i]);
    assert p.query(s, data[i]) == (p.cdf(s)[data[i]], p.cdf(s)[data[i] + 1]);
  }

  /** The last byte is coded by the predictor that has seen all the bytes before it. */
  lemma {:induction false} EncodePush<S(!new)>(p: Predictor<S>, s: S, e: Enc, data: seq<byte>, b: byte)
    requires Lawful(p) && e.range >= TOP
    ensures var q := p.query(After(p, s, data), b);
            && q.0 < q.1 <= PROB_TOTAL
            && EncodeFrom(p, s, e, data + [b])
               == (Encoded(EncodeFrom(p, s, e, data).0, q.0, q.1), After(p, s, data + [b]))
    decreases |data|
  {
    QueryIsInterval(p, After(p, s, data), b);
    AfterPush(p, s, data, b);
    if data == [] {
      assert (data + [b])[1..] == [] && data + [b] == [b];
    } else {
      var q := p.query(s, data[0]);
      QueryIsInterval(p, s, data[0]);
      EncodePush(p, p.update(s, data[0]), Encoded(e, q.0, q.1), data[1..], b);
      AfterFirst(p, s, data);
      AfterFirst(p, s, data + [b]);
      assert (data + [b])[1..] == data[1..] + [b];
    }
  }

  lemma {:induction false} AfterFirst<S>(p: Predictor<S>, s: S, data: seq<byte>)
    requires data != []
    ensures After(p, s, data) == After(p, p.update(s, data[0]), data[1..])
    decreases |data|
  {
    var front, last := data[..|data| - 1], data[|data| - 1];
    if front == [] {
      assert After(p, s, front) == s;
    } else {
      AfterFirst(p, s, front);
      assert data[1..] == front[1..] + [last];
      AfterPush(p, p.update(s, data[0]), front[1..], last);
    }
  }

  /** A block leaves the predictor as its bytes do, started afresh if asked for; an empty block leaves it alone. */
  lemma EncodeLeaves<S(!new)>(p: Predictor<S>, s: S, data: seq<byte>, reset: bool)
    requires Lawful(p)
    ensures EncodeBlock(p, s, data, reset).1 == After(p, if reset && data != [] then p.initial else s, data)
    ensures data == [] ==> EncodeBlock(p, s, data, reset).0 == Ok([])
  {
    if data != [] {
      var last := |data| - 1;
      assert data == data[..last] + [data[last]];
      EncodePush(p, if reset then p.initial else s, NEW_ENC, data[..last], data[last]);
    }
  }

  /** Encoding fails only by the overflow valve. */
  lemma EncodeFailsExactly<S(!new)>(p: Predictor<S>, s: S, data: seq<byte>, reset: bool)
    requires Lawful(p)
    ensures var r := EncodeBlock(p, s, data, reset).0;
            && (r.Err? <==> data != []
                            && Shifts(EncodeFrom(p, if reset then p.initial else s, NEW_ENC, data).0, 5).overflow)
            && (r.Err? ==> r.error == Compression)
  {
  }

  /** Whatever the block and the predictor, the pending run never takes more than 16 MiB. */
  lemma {:induction false} EncodeFromKeepsPending<S(!new)>(p: Predictor<S>, s: S, e: Enc, data: seq<byte>)
    requires Lawful(p) && e.range >= TOP && PendingBounded(e)
    ensures PendingBounded(EncodeFrom(p, s, e, data).0)
    decreases |data|
  {
    if data != [] {
      var q := p.query(s, data[0]);
      QueryIsInterval(p, s, data[0]);
      EncodeKeepsPending(e, q.0, q.1);
      EncodeFromKeepsPending(p, p.update(s, data[0]), Encoded(e, q.0, q.1), data[1..]);
    }
  }

  lemma EncodeNothing<S(!new)>(p: Predictor<S>, s: S, e: Enc)
    requires Lawful(p) && e.range >= TOP
    ensures EncodeFrom(p, s, e, []) == (e, s)
  {
  }

  lemma DecodeNothing<S(!new)>(p: Predictor<S>, s: S, input: seq<byte>, d: Dec)
    requires Lawful(p) && d.range >= TOP
    ensures DecodeFrom(p, s, input, d, 0) == ([], d, s)
  {
  }

  /** What has been decoded, then what will be. */
  function Ahead<S>(output: seq<byte>, r: (seq<byte>, Dec, S)): (seq<byte>, Dec, S) {
    (output + r.0, r.1, r.2)
  }

  /** One trip round the decode loop, for a predictor object that resolves the frequency its own way. */
  lemma DecodeStep<S(!new)>(p: Predictor<S>, output: seq<byte>, s: S, input: seq<byte>, d: Dec, n: nat,
                            y: (byte, nat, nat))
    requires Lawful(p) && d.range >= TOP && n > 0
    requires Resolves(p.cdf(s), DecodeFreq(d).1, y) && y.1 * DecodeFreq(d).0 <= d.code
    ensures Ahead(output + [y.0],
                  DecodeFrom(p, p.update(s, y.0), input, Advanced(input, d, DecodeFreq(d).0, y.1, y.2), n - 1))
            == Ahead(output, DecodeFrom(p, s, input, d, n))
  {
    var f := DecodeFreq(d).1;
    assert Resolves(p.cdf(s), f, p.decode(s, f));
    ResolvesUnique(p.cdf(s), f, y, p.decode(s, f));
    var r := DecodeFrom(p, p.update(s, y.0), input, Advanced(input, d, DecodeFreq(d).0, y.1, y.2), n - 1);
    assert DecodeFrom(p, s, input, d, n) == ([y.0] + r.0, r.1, r.2);
    assert output + ([y.0] + r.0) == (output + [y.0]) + r.0;
  }

  // ---------------------------------------------------------------------------------------------
  // The exact run
  // ---------------------------------------------------------------------------------------------

  function IdealFrom<S(!new)>(p: Predictor<S>, s: S, i: Ideal, data: seq<byte>): (r: (Ideal, S))
    requires Lawful(p) && i.range >= TOP
    ensures r.0.range >= TOP
    decreases |data|
  {
    if data == [] then (i, s) else
    var q := p.query(s, data[0]);
    QueryIsInterval(p, s, data[0]);
    IdealFrom(p, p.update(s, data[0]), IdealEncode(i, q.0, q.1), data[1..])
  }

  lemma {:induction false} RunNested<S(!new)>(p: Predictor<S>, s: S, i: Ideal, data: seq<byte>)
    requires Lawful(p) && i.range >= TOP
    ensures Nested(i, IdealFrom(p, s, i, data).0)
    decreases |data|
  {
    if data == [] {
      assert Pow256(0) == 1;
    } else {
      var q := p.query(s, data[0]);
      QueryIsInterval(p, s, data[0]);
      var j := IdealEncode(i, q.0, q.1);
      EncodeNested(i, q.0, q.1);
      RunNested(p, p.update(s, data[0]), j, data[1..]);
      NestedTransitive(i, j, IdealFrom(p, s, i, data).0);
    }
  }

  /** A run of `n` symbols shifts at most `2n` times. */
  lemma {:induction false} RunShifts<S(!new)>(p: Predictor<S>, s: S, i: Ideal, data: seq<byte>)
    requires Lawful(p) && TOP <= i.range < TWO32
    ensures i.shifts <= IdealFrom(p, s, i, data).0.shifts <= i.shifts + 2 * |data|
    decreases |data|
  {
    if data != [] {
      var q := p.query(s, data[0]);
      QueryIsInterval(p, s, data[0]);
      EncodeAtMostTwoShifts(i, q.0, q.1);
      RunShifts(p, p.update(s, data[0]), IdealEncode(i, q.0, q.1), data[1..]);
    }
  }

  /** The encoder follows the exact run, whatever the predictor does. */
  lemma {:induction false} RunRefines<S(!new)>(p: Predictor<S>, s: S, e: Enc, i: Ideal, data: seq<byte>)
    requires Lawful(p) && TOP <= i.range < TWO32 && Refines(e, i)
    ensures Refines(EncodeFrom(p, s, e, data).0, IdealFrom(p, s, i, data).0)
    ensures EncodeFrom(p, s, e, data).1 == IdealFrom(p, s, i, data).1
    ensures !e.overflow && IdealFrom(p, s, i, data).0.shifts < MAX_CACHE - 1 ==> !EncodeFrom(p, s, e, data).0.overflow
    decreases |data|
  {
    if data != [] {
      var q := p.query(s, data[0]);
      QueryIsInterval(p, s, data[0]);
      var j := IdealEncode(i, q.0, q.1);
      EncodeAtMostTwoShifts(i, q.0, q.1);
      EncodeRefines(e, i, q.0, q.1);
      RunShifts(p, p.update(s, data[0]), j, data[1..]);
      RunRefines(p, p.update(s, data[0]), Encoded(e, q.0, q.1), j, data[1..]);
    }
  }

  lemma StartRefines()
    ensures Refines(NEW_ENC, NEW_IDEAL)
  {
    assert Committed(NEW_ENC) == [0];
    assert BigEndian([0]) == 0;
  }

  /** The decoder, in step with the run, reproduces the data, the states and the read position. */
  lemma {:induction false} DecodeInStep<S(!new)>(p: Predictor<S>, s: S, input: seq<byte>, d: Dec, i: Ideal,
                                                 data: seq<byte>)
    requires Lawful(p) && i.range >= TOP && InStep(input, d, i)
    requires |input| == IdealFrom(p, s, i, data).0.shifts + 5
    requires BigEndian(input) == IdealFrom(p, s, i, data).0.value
    ensures var r := DecodeFrom(p, s, input, d, |data|);
            && r.0 == data
            && r.2 == IdealFrom(p, s, i, data).1
            && InStep(input, r.1, IdealFrom(p, s, i, data).0)
    decreases |data|
  {
    if data != [] {
      hide Nested, Advanced, IdealEncode, BigEndian;
      var b := data[0];
      var q := p.query(s, b);
      QueryIsInterval(p, s, b);
      var j := IdealEncode(i, q.0, q.1);
      var final := IdealFrom(p, s, i, data).0;
      RunNested(p, p.update(s, b), j, data[1..]);
      DecodeOne(p, s, input, d, i, b, final);
      var d' := Advanced(input, d, DecodeFreq(d).0, q.0, q.1);
      DecodeInStep(p, p.update(s, b), input, d', j, data[1..]);
      DecodeFromStep(p, s, input, d, |data|, b);
      assert data == [b] + data[1..];
    }
  }

  lemma DecodeFromStep<S(!new)>(p: Predictor<S>, s: S, input: seq<byte>, d: Dec, n: nat, b: byte)
    requires Lawful(p) && d.range >= TOP && n > 0
    requires p.query(s, b).0 < p.query(s, b).1 && p.query(s, b).0 * DecodeFreq(d).0 <= d.code
    requires p.decode(s, DecodeFreq(d).1) == (b, p.query(s, b).0, p.query(s, b).1)
    ensures var r := DecodeFrom(p, p.update(s, b), input,
                                Advanced(input, d, DecodeFreq(d).0, p.query(s, b).0, p.query(s, b).1), n - 1);
            DecodeFrom(p, s, input, d, n) == ([b] + r.0, r.1, r.2)
  {
  }

  /** One symbol: the decoder finds the encoder's byte and interval, and stays in step. */
  lemma DecodeOne<S(!new)>(p: Predictor<S>, s: S, input: seq<byte>, d: Dec, i: Ideal, b: byte, final: Ideal)
    requires Lawful(p) && i.range >= TOP && InStep(input, d, i)
    requires p.query(s, b).0 < p.query(s, b).1 <= PROB_TOTAL
    requires Nested(IdealEncode(i, p.query(s, b).0, p.query(s, b).1), final) && final.range > 0
    requires |input| == final.shifts + 5 && BigEndian(input) == final.value
    ensures var q := p.query(s, b);
            var f := DecodeFreq(d);
            && p.decode(s, f.1) == (b, q.0, q.1)
            && q.0 * f.0 <= d.code
            && InStep(input, Advanced(input, d, f.0, q.0, q.1), IdealEncode(i, q.0, q.1))
  {
    var q := p.query(s, b);
    FreqOfSymbol(input, d, i, q.0, q.1, final);
    var f := DecodeFreq(d);
    DecodesTo(p, s, b, f.1);
    MulLe(q.0, f.1, f.0);
    AdvanceInStep(input, d, i, q.0, q.1, final);
  }

  // ---------------------------------------------------------------------------------------------
  // Main results
  // ---------------------------------------------------------------------------------------------

  /**
   Byte budget: a finished stream is the exact number written out, between 5 and `2n + 5` bytes of
   which the first is 0.
   */
  lemma EncodedLength<S(!new)>(p: Predictor<S>, s: S, data: seq<byte>, reset: bool)
    requires Lawful(p) && data != []
    ensures var r := EncodeBlock(p, s, data, reset).0;
            var i := IdealFrom(p, if reset then p.initial else s, NEW_IDEAL, data).0;
            r.Ok? ==>
              && BigEndian(r.value) == i.value
              && |r.value| == i.shifts + 5
              && 5 <= |r.value| <= 2 * |data| + 5
              && r.value[0] == 0
  {
    if EncodeBlock(p, s, data, reset).0.Err? {
      return;
    }
    var s0 := if reset then p.initial else s;
    var e := EncodeFrom(p, s0, NEW_ENC, data).0;
    var i := IdealFrom(p, s0, NEW_IDEAL, data).0;
    StartRefines();
    RunRefines(p, s0, NEW_ENC, NEW_IDEAL, data);
    RunShifts(p, s0, NEW_IDEAL, data);
    FinishExact(e, i);
    RunNested(p, s0, NEW_IDEAL, data);
    StartInStep(Finished(e).value, i);
  }

  /** Blocks of up to 2^23 - 3 bytes never trip the cache-overflow valve. */
  lemma EncodeSucceeds<S(!new)>(p: Predictor<S>, s: S, data: seq<byte>, reset: bool)
    requires Lawful(p) && |data| <= 0x80_0000 - 3
    ensures EncodeBlock(p, s, data, reset).0.Ok?
  {
    if data != [] {
      var s0 := if reset then p.initial else s;
      var e := EncodeFrom(p, s0, NEW_ENC, data).0;
      var i := IdealFrom(p, s0, NEW_IDEAL, data).0;
      StartRefines();
      RunRefines(p, s0, NEW_ENC, NEW_IDEAL, data);
      RunShifts(p, s0, NEW_IDEAL, data);
      FinishNoOverflow(e, i);
    }
  }

  /** The decoder reads every byte of a finished stream and none past its end. */
  lemma DecodeReadsAll<S(!new)>(p: Predictor<S>, s: S, data: seq<byte>)
    requires Lawful(p) && data != []
    ensures var out := EncodeBlock(p, s, data, false);
            out.0.Ok? ==>
              var r := DecodeFrom(p, s, out.0.value, Start(out.0.value), |data|);
              && r.0 == data
              && r.1.pos == |out.0.value|
              && r.1.overread == 0
              && r.2 == out.1
  {
    if EncodeBlock(p, s, data, false).0.Err? {
      return;
    }
    var e := EncodeFrom(p, s, NEW_ENC, data).0;
    var i := IdealFrom(p, s, NEW_IDEAL, data).0;
    var out := Finished(e).value;
    StartRefines();
    RunRefines(p, s, NEW_ENC, NEW_IDEAL, data);
    FinishExact(e, i);
    RunNested(p, s, NEW_IDEAL, data);
    StartInStep(out, i);
    DecodeInStep(p, s, out, Start(out), NEW_IDEAL, data);
  }

  /**
   Round trip. Once encoding succeeded, decoding returns the block exactly when it is no longer than
   the decoder's size limit, and then leaves the predictor in the encoder's final state.
   */
  lemma RoundTrip<S(!new)>(p: Predictor<S>, s: S, data: seq<byte>, reset: bool)
    requires Lawful(p)
    ensures var out := EncodeBlock(p, s, data, reset);
            out.0.Ok? ==>
              var back := DecodeBlock(p, s, out.0.value, |data|, reset);
              && (back.0 == Ok(data) <==> |data| <= MAX_DECODE_SIZE)
              && (|data| > MAX_DECODE_SIZE ==> back.0 == Err(Decompression))
              && (back.0.Ok? ==> back.1 == out.1)
  {
    if data != [] && EncodeBlock(p, s, data, reset).0.Ok? {
      var s0 := if reset then p.initial else s;
      assert EncodeBlock(p, s, data, reset) == EncodeBlock(p, s0, data, false);
      EncodedLength(p, s, data, reset);
      DecodeReadsAll(p, s0, data);
    }
  }

  /** The decode loop does the same on a stream as on the stream with zeros behind it. */
  lemma {:induction false} DecodeSame<S(!new)>(p: Predictor<S>, s: S, input: seq<byte>, z: seq<byte>, d: Dec, e: Dec,
                                               n: nat)
    requires Lawful(p) && d.range >= TOP && ZerosBehind(input, z) && SameRun(input, z, d, e)
    ensures var a, b := DecodeFrom(p, s, input, d, n), DecodeFrom(p, s, z, e, n);
            a.0 == b.0 && a.2 == b.2 && SameRun(input, z, a.1, b.1)
    decreases n
  {
    if n > 0 {
      var q := DecodeFreq(d);
      var y := p.decode(s, q.1);
      assert Resolves(p.cdf(s), q.1, y);
      MulLe(y.1, q.1, q.0);
      AdvancedSame(input, z, d, e, q.0, y.1, y.2);
      DecodeSame(p, p.update(s, y.0), input, z, Advanced(input, d, q.0, y.1, y.2), Advanced(z, e, q.0, y.1, y.2),
                 n - 1);
    }
  }

  /**
   When a stream is refused. Put zeros behind it until decoding reads none past the end: the block is
   returned exactly when decoding reads at most five of those zeros.
   */
  lemma RefusedExactly<S(!new)>(p: Predictor<S>, s: S, input: seq<byte>, n: nat, reset: bool, k: nat)
    requires Lawful(p) && input != [] && 0 < n <= 64 * 1024 * 1024
    requires var z := input + Repeat<byte>(0, k);
             DecodeFrom(p, if reset then p.initial else s, z, Start(z), n).1.overread == 0
    ensures var z := input + Repeat<byte>(0, k);
            var r := DecodeFrom(p, if reset then p.initial else s, z, Start(z), n);
            DecodeBlock(p, s, input, n, reset).0 == if r.1.pos <= |input| + 5 then Ok(r.0) else Err(Decompression)
  {
    var z := input + Repeat<byte>(0, k);
    StartSame(input, z);
    DecodeSame(p, if reset then p.initial else s, input, z, Start(input), Start(z), n);
  }

  /** A finished stream that lost `k` zeros at its end still decodes if and only if `k` is at most five. */
  lemma TruncatedZeros<S(!new)>(p: Predictor<S>, s: S, data: seq<byte>, reset: bool, head: seq<byte>, k: nat)
    requires Lawful(p) && 0 < |data| <= 64 * 1024 * 1024 && head != []
    requires EncodeBlock(p, s, data, reset).0 == Ok(head + Repeat<byte>(0, k))
    ensures DecodeBlock(p, s, head, |data|, reset).0 == if k <= 5 then Ok(data) else Err(Decompression)
  {
    var s0 := if reset then p.initial else s;
    assert EncodeBlock(p, s, data, reset) == EncodeBlock(p, s0, data, false);
    DecodeReadsAll(p, s0, data);
    RefusedExactly(p, s, head, |data|, reset, k);
  }

  /** Without a byte to read, or past the size limit, nothing but the empty block is decoded. */
  lemma RefusedOutright<S(!new)>(p: Predictor<S>, s: S, input: seq<byte>, n: nat, reset: bool)
    requires Lawful(p)
    ensures n == 0 ==> DecodeBlock(p, s, input, n, reset) == (Ok([]), s)
    ensures n > 0 && (input == [] || n > 64 * 1024 * 1024) ==>
              DecodeBlock(p, s, input, n, reset) == (Err(Decompression), s)
  {
  }

  /** A solid group: every block continues from the predictor state the one before left. */
  function EncodeGroup<S(!new)>(p: Predictor<S>, s: S, blocks: seq<seq<byte>>): seq<Result<seq<byte>>>
    requires Lawful(p)
    decreases |blocks|
  {
    if blocks == [] then [] else
    var r := EncodeBlock(p, s, blocks[0], false);
    [r.0] + EncodeGroup(p, r.1, blocks[1..])
  }

  function DecodeGroup<S(!new)>(p: Predictor<S>, s: S, inputs: seq<Result<seq<byte>>>,
                                sizes: seq<nat>): seq<Result<seq<byte>>>
    requires Lawful(p) && |inputs| == |sizes|
    requires forall r <- inputs :: r.Ok?
    decreases |inputs|
  {
    if inputs == [] then [] else
    var r := DecodeBlock(p, s, inputs[0].value, sizes[0], false);
    [r.0] + DecodeGroup(p, r.1, inputs[1..], sizes[1..])
  }

  function Sizes(blocks: seq<seq<byte>>): (z: seq<nat>)
    ensures |z| == |blocks|
  {
    if blocks == [] then [] else [|blocks[0]|] + Sizes(blocks[1..])
  }

  function AllOk(blocks: seq<seq<byte>>): seq<Result<seq<byte>>> {
    if blocks == [] then [] else [Ok(blocks[0])] + AllOk(blocks[1..])
  }

  /** State carried across the blocks of a group stays in lockstep: the whole group comes back. */
  lemma {:induction false} GroupRoundTrip<S(!new)>(p: Predictor<S>, s: S, blocks: seq<seq<byte>>)
    requires Lawful(p)
    requires forall b <- blocks :: |b| <= MAX_DECODE_SIZE
    requires forall r <- EncodeGroup(p, s, blocks) :: r.Ok?
    ensures |EncodeGroup(p, s, blocks)| == |blocks|
    ensures DecodeGroup(p, s, EncodeGroup(p, s, blocks), Sizes(blocks)) == AllOk(blocks)
    decreases |blocks|
  {
    if blocks == [] {
    } else {
      var r := EncodeBlock(p, s, blocks[0], false);
      var rest := blocks[1..];
      var tail := EncodeGroup(p, r.1, rest);
      var out := EncodeGroup(p, s, blocks);
      assert out == [r.0] + tail;
      assert out[0] == r.0;
      assert forall x <- tail :: x in out;
      RoundTrip(p, s, blocks[0], false);
      GroupRoundTrip(p, r.1, rest);
      assert out[1..] == tail;
      assert Sizes(blocks)[1..] == Sizes(rest);
    }
  }
}
