/**
 The lossless text pipeline (`coding/bwt_preprocess.rs`, combined API): transform, move to front,
 zero-run coding, and back.
 */
module BwtPipeline {
  import opened Bytes
  import Bwt
  import BwtWalks
  import Mtf
  import ZeroRun

  const MAX_BWT_DECODE_SIZE: nat := MAX_DECOMPRESSED_BLOCK_SIZE

  /** What `bwt_mtf_encode_parts` may return: the suffix-array library decides between tied rotations. */
  ghost predicate IsParts(t: seq<byte>, primary: nat, mtf: seq<byte>) {
    exists p: seq<nat>, bwt: seq<byte> ::
      BwtWalks.IsTransform(t, p, bwt, primary) && mtf == Mtf.Encoded(bwt, Mtf.Identity())
  }

  method EncodeParts(data: seq<byte>, sa: Option<seq<nat>>) returns (r: Result<(nat, seq<byte>)>)
    requires sa.Some? ==> Bwt.IsSuffixArray(data + data, sa.value)
    ensures r.Ok? <==> |data| < 2 || (|data| <= Bwt.MAX_BWT_INPUT_SIZE && sa.Some?)
    ensures r.Err? ==> r.error == ResourceLimit
    ensures r.Ok? ==> IsParts(data, r.value.0, r.value.1) && (r.value.0 == 0 || r.value.0 < |data|)
  {
    var t := Bwt.Encode(data, sa);
    if t.Err? {
      return Err(ResourceLimit);
    }
    var mtf := Mtf.Encode(t.value.0);
    ghost var p := if |data| < 2 then [] else Bwt.Kept(sa.value, |data|);
    assert BwtWalks.IsTransform(data, p, t.value.0, t.value.1);
    return Ok((t.value.1, mtf));
  }

  /** `bwt_mtf_encode`: the primary index in four bytes, then the ranks. */
  method Encode(data: seq<byte>, sa: Option<seq<nat>>) returns (r: Result<seq<byte>>)
    requires sa.Some? ==> Bwt.IsSuffixArray(data + data, sa.value)
    ensures r.Ok? <==> |data| < 2 || (|data| <= Bwt.MAX_BWT_INPUT_SIZE && sa.Some?)
    ensures r.Ok? ==> |r.value| == |data| + 4 && IsParts(data, FromLe32(r.value[..4]), r.value[4..])
  {
    var parts := EncodeParts(data, sa);
    if parts.Err? {
      return Err(parts.error);
    }
    var (primary, mtf) := parts.value;
    var out := ToLe32(primary) + mtf;
    Le32RoundTrip(primary);
    assert out[..4] == ToLe32(primary) && out[4..] == mtf;
    ghost var p: seq<nat>, bwt: seq<byte> :|
      BwtWalks.IsTransform(data, p, bwt, primary) && mtf == Mtf.Encoded(bwt, Mtf.Identity());
    assert |mtf| == |data|;
    return Ok(out);
  }

  /** What `bwt_mtf_decode_parts` returns. */
  ghost function PartsDecoded(primary: nat, mtf: seq<byte>, expectedSize: nat): Result<seq<byte>> {
    if expectedSize > MAX_BWT_DECODE_SIZE then Err(Decompression) else
    var r := BwtWalks.Decoded(Mtf.Decoded(mtf, Mtf.Identity()), primary);
    if r.Ok? && |r.value| != expectedSize then Err(Decompression) else r
  }

  method DecodeParts(primary: nat, mtf: seq<byte>, expectedSize: nat) returns (r: Result<seq<byte>>)
    ensures r == PartsDecoded(primary, mtf, expectedSize)
  {
    if expectedSize > MAX_BWT_DECODE_SIZE {
      return Err(Decompression);
    }
    var bwt := Mtf.Decode(mtf);
    var original := BwtWalks.Decode(bwt, primary);
    if original.Err? {
      return Err(Decompression);
    }
    if |original.value| != expectedSize {
      return Err(Decompression);
    }
    return original;
  }

  /** What `bwt_mtf_decode` returns, on every input. */
  ghost function Decoded(encoded: seq<byte>, expectedSize: nat): Result<seq<byte>> {
    if expectedSize > MAX_BWT_DECODE_SIZE || |encoded| < 4 || |encoded| - 4 != expectedSize then Err(Decompression)
    else PartsDecoded(FromLe32(encoded[..4]), encoded[4..], expectedSize)
  }

  /** A payload is accepted for one size, four less than its own, and when its index is a row. */
  lemma AcceptedExactly(encoded: seq<byte>, n: nat)
    ensures var r := Decoded(encoded, n);
            && (r.Ok? <==> n <= 64 * 1024 * 1024 && |encoded| == n + 4 && (n == 0 || FromLe32(encoded[..4]) < n))
            && (r.Ok? ==> |r.value| == n)
            && (r.Err? ==> r.error == Decompression)
  {
    if |encoded| >= 4 {
      BwtWalks.RefusedExactly(Mtf.Decoded(encoded[4..], Mtf.Identity()), FromLe32(encoded[..4]), Bwt.TWO_CHAIN_MIN,
                              Bwt.MAX_PACKED_LF);
    }
  }

  method Decode(encoded: seq<byte>, expectedSize: nat) returns (r: Result<seq<byte>>)
    ensures r == Decoded(encoded, expectedSize)
  {
    if expectedSize > MAX_BWT_DECODE_SIZE {
      return Err(Decompression);
    }
    if |encoded| < 4 {
      return Err(Decompression);
    }
    var primary := FromLe32(encoded[..4]);
    var mtf := encoded[4..];
    if |mtf| != expectedSize {
      return Err(Decompression);
    }
    r := DecodeParts(primary, mtf, expectedSize);
  }

  /** The parts of any text that may be encoded decode to the text, whatever the library did with ties. */
  lemma PartsRoundTrip(t: seq<byte>, primary: nat, mtf: seq<byte>)
    requires IsParts(t, primary, mtf) && |t| <= Bwt.MAX_BWT_INPUT_SIZE
    ensures PartsDecoded(primary, mtf, |t|) == Ok(t)
  {
    var p: seq<nat>, bwt: seq<byte> :|
      BwtWalks.IsTransform(t, p, bwt, primary) && mtf == Mtf.Encoded(bwt, Mtf.Identity());
    Mtf.DecodeEncode(bwt, Mtf.Identity());
    BwtWalks.RoundTrip(t, p, bwt, primary);
  }

  /** `bwt_mtf_decode(bwt_mtf_encode(t), |t|)` is `t`. */
  lemma RoundTrip(t: seq<byte>, encoded: seq<byte>)
    requires |t| <= Bwt.MAX_BWT_INPUT_SIZE && |encoded| == |t| + 4
    ensures IsParts(t, FromLe32(encoded[..4]), encoded[4..]) ==> Decoded(encoded, |t|) == Ok(t)
  {
    if IsParts(t, FromLe32(encoded[..4]), encoded[4..]) {
      PartsRoundTrip(t, FromLe32(encoded[..4]), encoded[4..]);
    }
  }

  /** The form the ranks of a block are stored in: plain unless they contain 255. */
  function FormFor(mtf: seq<byte>): ZeroRun.Form {
    if 255 in mtf then ZeroRun.Escaped else ZeroRun.Plain
  }

  /** All three stages and back: the stored stream expands to the ranks, and the ranks to the text. */
  lemma ThreeStageRoundTrip(t: seq<byte>, primary: nat, mtf: seq<byte>)
    requires IsParts(t, primary, mtf) && |t| <= Bwt.MAX_BWT_INPUT_SIZE
    ensures var f := FormFor(mtf);
            && (f == ZeroRun.Plain <==> ZeroRun.Representable(ZeroRun.Plain, mtf))
            && ZeroRun.Representable(f, mtf)
            && var ranks := ZeroRun.Expanded(f, ZeroRun.Encoded(f, mtf));
               && ranks.Some? && |ranks.value| == |t|
               && PartsDecoded(primary, ranks.value, |t|) == Ok(t)
  {
    var p: seq<nat>, bwt: seq<byte> :|
      BwtWalks.IsTransform(t, p, bwt, primary) && mtf == Mtf.Encoded(bwt, Mtf.Identity());
    ZeroRun.ExpandEncoded(FormFor(mtf), mtf);
    PartsRoundTrip(t, primary, mtf);
  }
}
