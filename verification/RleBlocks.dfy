/**
 The block coder running on the run-length predictor object (`entropy/rle_predictor.rs`). Encoder, decoder
 and predictor are updated in place and every fast path is taken; `p` is the predictor as the abstract
 coder knows it.
 */
module RleBlocks {
  import opened Bytes
  import opened RangeEncoding
  import opened RangeDecoding
  import opened Predictors
  import opened BlockCoding
  import opened RlePrediction

  method EncodeBlock(data: seq<byte>, model: RlePredictor, reset: bool, ghost p: Predictor<Rle>)
    returns (r: Result<seq<byte>>)
    requires model.Valid() && IsRle(p)
    modifies model.Repr()
    ensures model.Valid()
    ensures (r, model.State()) == BlockCoding.EncodeBlock(p, old(model.State()), data, reset)
  {
    hide EncodeFrom, Finished, Lawful, RlePredictor.Valid, RlePredictor.State;
    if data == [] {
      return Ok([]);
    }
    if reset {
      model.Reset();
    }
    r := EncodeAll(data, model, p);
  }

  method EncodeAll(data: seq<byte>, model: RlePredictor, ghost p: Predictor<Rle>) returns (r: Result<seq<byte>>)
    requires model.Valid() && IsRle(p)
    modifies model.Repr()
    ensures model.Valid()
    ensures var e := EncodeFrom(p, old(model.State()), NEW_ENC, data);
            r == Finished(e.0) && model.State() == e.1
  {
    hide EncodeFrom, Finished, Lawful, RlePredictor.Valid, RlePredictor.State;
    var enc := new RangeEncoder();
    EncodeLoop(data, enc, model, p);
    r := enc.Finish();
  }

  method EncodeLoop(data: seq<byte>, enc: RangeEncoder, model: RlePredictor, ghost p: Predictor<Rle>)
    requires model.Valid() && IsRle(p) && enc.range >= TOP && enc !in model.Repr()
    modifies model.Repr(), enc
    ensures model.Valid()
    ensures (enc.State(), model.State()) == EncodeFrom(p, old(model.State()), old(enc.State()), data)
  {
    hide EncodeFrom, Encoded, RlePredictor.Valid, RlePredictor.State;
    ghost var goal := EncodeFrom(p, model.State(), enc.State(), data);
    assert data[0..] == data;
    for i := 0 to |data|
      invariant model.Valid() && enc.range >= TOP
      invariant EncodeFrom(p, model.State(), enc.State(), data[i..]) == goal
    {
      EncodeOne(data, i, enc, model, p);
    }
    assert data[|data|..] == [];
    EncodeNothing(p, model.State(), enc.State());
  }

  method EncodeOne(data: seq<byte>, i: nat, enc: RangeEncoder, model: RlePredictor, ghost p: Predictor<Rle>)
    requires model.Valid() && IsRle(p) && enc.range >= TOP && enc !in model.Repr() && i < |data|
    modifies model.Repr(), enc
    ensures model.Valid() && enc.range >= TOP
    ensures EncodeFrom(p, model.State(), enc.State(), data[i + 1..])
            == EncodeFrom(p, old(model.State()), old(enc.State()), data[i..])
  {
    hide EncodeFrom, Encoded, RlePredictor.Valid, RlePredictor.State, RleTable, RleLearned;
    EncodeStep(p, model.State(), enc.State(), data, i);
    var lo, hi := model.QueryCdf(data[i]);
    enc.EncodeInterval(lo, hi);
    model.Update(data[i]);
  }

  method DecodeBlock(input: seq<byte>, n: nat, model: RlePredictor, reset: bool, ghost p: Predictor<Rle>)
    returns (r: Result<seq<byte>>)
    requires model.Valid() && IsRle(p)
    modifies model.Repr()
    ensures model.Valid()
    ensures (r, model.State()) == BlockCoding.DecodeBlock(p, old(model.State()), input, n, reset)
  {
    hide DecodeFrom, Start, Lawful, RlePredictor.Valid, RlePredictor.State;
    if n == 0 {
      return Ok([]);
    }
    if input == [] || n > MAX_DECODE_SIZE {
      return Err(Decompression);
    }
    if reset {
      model.Reset();
    }
    var dec := new RangeDecoder(input);
    var output := DecodeLoop(n, dec, model, p);
    if dec.eofOverread > MAX_NORMAL_OVERREAD {
      return Err(Decompression);
    }
    return Ok(output);
  }

  method DecodeLoop(n: nat, dec: RangeDecoder, model: RlePredictor, ghost p: Predictor<Rle>) returns (output: seq<byte>)
    requires model.Valid() && IsRle(p) && dec.range >= TOP && dec !in model.Repr()
    modifies model.Repr(), dec
    ensures model.Valid()
    ensures (output, dec.State(), model.State()) == DecodeFrom(p, old(model.State()), dec.input, old(dec.State()), n)
  {
    hide DecodeFrom, RlePredictor.Valid, RlePredictor.State;
    ghost var goal := DecodeFrom(p, model.State(), dec.input, dec.State(), n);
    output := [];
    assert output + goal.0 == goal.0;
    for i := 0 to n
      invariant model.Valid() && dec.range >= TOP
      invariant Ahead(output, DecodeFrom(p, model.State(), dec.input, dec.State(), n - i)) == goal
    {
      var b := DecodeOne(dec, model, p, output, n - i);
      output := output + [b];
    }
    DecodeNothing(p, model.State(), dec.input, dec.State());
    assert output + [] == output;
  }

  method DecodeOne(dec: RangeDecoder, model: RlePredictor, ghost p: Predictor<Rle>, ghost output: seq<byte>,
                   ghost n: nat) returns (b: byte)
    requires model.Valid() && IsRle(p) && dec.range >= TOP && dec !in model.Repr() && n > 0
    modifies model.Repr(), dec
    ensures model.Valid() && dec.range >= TOP
    ensures Ahead(output + [b], DecodeFrom(p, model.State(), dec.input, dec.State(), n - 1))
            == Ahead(output, DecodeFrom(p, old(model.State()), dec.input, old(dec.State()), n))
  {
    hide DecodeFrom, Advanced, Ahead, RlePredictor.Valid, RlePredictor.State, RleTable, RleLearned;
    var q := DecodeFreq(Dec(dec.code, dec.range, dec.pos, dec.eofOverread));
    var lo, hi;
    b, lo, hi := model.DecodeSymbol(q.1);
    MulLe(lo, q.1, q.0);
    DecodeStep(p, output, model.State(), dec.input, dec.State(), n, (b, lo, hi));
    dec.Advance(q.0, lo, hi);
    model.Update(b);
  }
}
