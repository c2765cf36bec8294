/**
 The block coder running on real objects: `encode_block_inner` and `decode_block_inner` with the
 order-0 model. Encoder, decoder and model are updated in place and every fast path is taken; `p` is
 the model as the abstract coder knows it.
 */
module Order0Blocks {
  import opened Bytes
  import opened RangeEncoding
  import opened RangeDecoding
  import opened Predictors
  import opened BlockCoding
  import opened Order0Model

  method EncodeBlock(data: seq<byte>, model: Model, reset: bool, ghost p: Predictor<Counts>)
    returns (r: Result<seq<byte>>)
    requires model.Valid() && IsOrder0(p)
    modifies model, model.counts, model.fenwick
    ensures model.Valid()
    ensures (r, model.State()) == BlockCoding.EncodeBlock(p, old(model.State()), data, reset)
  {
    hide EncodeFrom, Finished, Lawful;
    if data == [] {
      return Ok([]);
    }
    if reset {
      model.Reset();
    }
    var enc := new RangeEncoder();
    EncodeLoop(data, enc, model, p);
    r := enc.Finish();
  }

  method EncodeLoop(data: seq<byte>, enc: RangeEncoder, model: Model, ghost p: Predictor<Counts>)
    requires model.Valid() && IsOrder0(p) && enc.range >= TOP
    modifies model, model.counts, model.fenwick, enc
    ensures model.Valid()
    ensures (enc.State(), model.State()) == EncodeFrom(p, old(model.State()), old(enc.State()), data)
  {
    ghost var goal := EncodeFrom(p, model.State(), enc.State(), data);
    assert data[0..] == data;
    for i := 0 to |data|
      invariant model.Valid() && enc.range >= TOP
      invariant EncodeFrom(p, model.State(), enc.State(), data[i..]) == goal
    {
      EncodeStep(p, model.State(), enc.State(), data, i);
      var lo, hi := model.QueryCdf(data[i]);
      enc.EncodeInterval(lo, hi);
      model.Update(data[i]);
    }
  }

  method DecodeBlock(input: seq<byte>, n: nat, model: Model, reset: bool, ghost p: Predictor<Counts>)
    returns (r: Result<seq<byte>>)
    requires model.Valid() && IsOrder0(p)
    modifies model, model.counts, model.fenwick
    ensures model.Valid()
    ensures (r, model.State()) == BlockCoding.DecodeBlock(p, old(model.State()), input, n, reset)
  {
    hide DecodeFrom, Start, Lawful;
    if n == 0 {
      return Ok([]);
    }
    if input == [] || n > MAX_DECODE_SIZE {
      return Err(Decompression);
    }
    if reset {
      model.Reset();
    }
    var dec := new RangeDecoder(input);
    var output := DecodeLoop(n, dec, model, p);
    if dec.eofOverread > MAX_NORMAL_OVERREAD {
      return Err(Decompression);
    }
    return Ok(output);
  }

  method DecodeLoop(n: nat, dec: RangeDecoder, model: Model, ghost p: Predictor<Counts>) returns (output: seq<byte>)
    requires model.Valid() && IsOrder0(p) && dec.range >= TOP
    modifies model, model.counts, model.fenwick, dec
    ensures model.Valid()
    ensures (output, dec.State(), model.State()) == DecodeFrom(p, old(model.State()), dec.input, old(dec.State()), n)
  {
    hide DecodeFrom, Lawful, Model.Valid, Model.State;
    ghost var goal := DecodeFrom(p, model.State(), dec.input, dec.State(), n);
    output := [];
    assert output + goal.0 == goal.0;
    for i := 0 to n
      invariant model.Valid() && dec.range >= TOP
      invariant Ahead(output, DecodeFrom(p, model.State(), dec.input, dec.State(), n - i)) == goal
    {
      var b := DecodeOne(dec, model, p, output, n - i);
      output := output + [b];
    }
    DecodeNothing(p, model.State(), dec.input, dec.State());
    assert output + [] == output;
  }

  method DecodeOne(dec: RangeDecoder, model: Model, ghost p: Predictor<Counts>, ghost output: seq<byte>, ghost n: nat)
    returns (b: byte)
    requires model.Valid() && IsOrder0(p) && dec.range >= TOP && n > 0
    modifies model, model.counts, model.fenwick, dec
    ensures model.Valid() && dec.range >= TOP
    ensures Ahead(output + [b], DecodeFrom(p, model.State(), dec.input, dec.State(), n - 1))
            == Ahead(output, DecodeFrom(p, old(model.State()), dec.input, old(dec.State()), n))
  {
    var q := DecodeFreq(Dec(dec.code, dec.range, dec.pos, dec.eofOverread));
    var lo, hi;
    b, lo, hi := model.DecodeSymbol(q.1);
    MulLe(lo, q.1, q.0);
    DecodeStep(p, output, model.State(), dec.input, dec.State(), n, (b, lo, hi));
    dec.Advance(q.0, lo, hi);
    model.Update(b);
  }
}
