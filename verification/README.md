# Aether core: verified model of the lossless codec stack

This project models the lossless codecs of `aether-core` and proves that they lose nothing. Integers
are exact, byte strings are sequences of `byte`, and every component the source writes as a loop over
buffers or as an object with fields is a method over arrays or a class here, proved equal to a
specification function. The properties the source promises are lemmas about those functions.

- **Adaptive range coder** (`RangeEncoder.dfy`, `RangeDecoder.dfy`, `Predictor.dfy`, `BlockCoder.dfy`).
  The encoder's `low`, cached byte and pending 0xFF run are, at every step, one unbounded number
  (`Ideal`), whose intervals are nested. The 32-bit decoder's `code` is the distance from that number
  to the digits read. From this follow carry safety, the exact byte budget, the exact number of bytes
  read and the round trip, for every predictor that keeps the trait's contract (`Lawful`).
- **Order-0 model** (`Fenwick.dfy`, `Order0.dfy`, `Order0Blocks.dfy`): Fenwick tree, binary lifting,
  multiply-and-shift division and rescaling, all equal to the slow table in every reachable state; then
  the block coder run on real encoder, decoder and model objects.
- **RLE and SSM predictors** (`LiteralModel.dfy`, `TableBank.dfy`, `RlePredictor.dfy`, `SsmPredictor.dfy`,
  `RleBlocks.dfy`, `SsmBlocks.dfy`): literal counts in 3 run-length and 64 order-2 contexts. The RLE
  predictor is complete, in real arithmetic; the SSM predictor mixes it with its order-2 counts by
  weights that arbitrary learning functions supply. Both run in the block coder with their own fast
  query and search.
- **BWT, move to front, zero runs** (`Permutation.dfy`, `Bwt.dfy`, `BwtInverse.dfy`, `BwtWalks.dfy`,
  `Mtf.dfy`, `ZeroRun.dfy`, `BwtPipeline.dfy`). The suffix-array library is given by its specification
  only, with no assumption about ties, so periodic texts are covered.
- **LZ77** (`Lz77.dfy`, `Lz77Chains.dfy`, `Lz77Parse.dfy`, `Lz77Encoder.dfy`, `Lz77Format.dfy`,
  `Lz77Search.dfy`): the encoder's stream is the one its search and lazy rule prescribe, and decodes to
  the input; what they find and what they leave is also said of the bytes alone, without hash or chains.
  The decoder accepts exactly the encodings of its output. The **parse machine** that shadows it
  (`Lz4Fsm.dfy`) knows the role of every byte.
- **Byte planes** (`BytePlane.dfy`, `BytePlaneCodec.dfy`, `BytePlanePayload.dfy`), **x86 branch
  normalisation** (`Bcj.dfy`) and the **cloud reader** (`CloudReader.dfy`).

Where the code and its comments disagree, the code is followed:

- `bwt_preprocess.rs:69-72` says distinct rotations cannot tie and `bwt_preprocess.rs:174-177` that `LF`
  is one cycle. Both hold only for texts that are not periodic. The code is right for periodic texts as
  well: rows `LF(j)` and `j` rotated right are equal strings (`LfRotatesRight`), and `n` steps of `LF`
  return to their start even when `LF` has many cycles (`LfCloses`).
- On a crafted index of a string the two-chain walk and the single walk can give different bytes, at
  every odd length (`WalksCanDisagree`); `SameRowsExactly` says when they read the same rows, and
  `AgreeByAccident` that equal bytes do not need it.
- `order0.rs:28-32` justifies the division for the operand `cum * PROB_TOTAL + total/2`; the code divides
  `cum * (PROB_TOTAL - 256)`. The proof covers every operand below `total * (PROB_TOTAL + 1)`, both
  included.
- `traits.rs:45-47` and `traits.rs:56-61` speak of a decoder that scans the table; the decoder calls
  `decode_symbol` (`rans.rs:510-513`), and so does the model.
- `rans.rs:518-519` calls up to five reads past the end of a stream normal. Decoding a finished stream
  needs none (`DecodeReadsAll`); the five are what a stream may lose in zeros (`TruncatedZeros`).
- `order0.rs:290-292` refuses totals above `u32::MAX`; 256 counts of at most 2 000 000 cannot reach it.

`dafny verify dfyconfig.toml` checks the whole project.

## Model

| member | source | states |
|---|---|---|
| RangeEncoding.RangeEncoder.ShiftLow | aether-core/src/coding/rans.rs:243-274 | the in-place byte output, with its late carry, 0xFF run and overflow valve, takes the encoder to exactly the next abstract state |
| RangeEncoding.RangeEncoder.EncodeInterval | aether-core/src/coding/rans.rs:220-239 | narrowing and the renormalisation loop reach the state `Encoded` and leave the range at least 2^24 |
| RangeEncoding.RangeEncoder.Finish | aether-core/src/coding/rans.rs:280-289 | five closing shifts; an error exactly when the valve has ever opened |
| RangeEncoding.EncodeAtMostTwoShifts | aether-core/src/coding/rans.rs:225-238 | a symbol costs at most two shifts, and the range stays a `u32` of at least 2^24 |
| RangeEncoding.EncodeNested | aether-core/src/coding/rans.rs:225-238 | the interval after a symbol lies inside the interval before it, at the finer scale |
| RangeEncoding.CarryThroughRun | aether-core/src/coding/rans.rs:246-250 | carrying into a byte followed by pending 0xFF bytes adds exactly one to the number they spell |
| RangeEncoding.CarryNeverWraps | aether-core/src/coding/rans.rs:246 | the carry never overflows the cached byte |
| RangeEncoding.FlushAddsCarry | aether-core/src/coding/rans.rs:245-253 | what leaves on a flush is the committed number plus the carry, in as many bytes as were committed |
| RangeEncoding.ShiftLowValue | aether-core/src/coding/rans.rs:243-274 | while the valve stays shut, a shift multiplies the number that output, cache, pending run and `low` denote together by 256, adds one committed byte, and keeps the carry inside the cache |
| RangeEncoding.ShiftLowNoOverflow | aether-core/src/coding/rans.rs:258-272 | the valve cannot open before 16 MiB have been committed |
| RangeEncoding.ShiftKeepsPending | aether-core/src/coding/rans.rs:243-274 | the pending run stays within 16 MiB; the valve opens exactly when a full run of that length meets one more undecided byte |
| RangeEncoding.RenormalizeRefines | aether-core/src/coding/rans.rs:234-238 | renormalising keeps the encoder equal to the unbounded-precision coder |
| RangeEncoding.EncodeRefines | aether-core/src/coding/rans.rs:220-239 | so does encoding any interval; no overflow below 2^24 - 1 shifts |
| RangeEncoding.ClosingShifts | aether-core/src/coding/rans.rs:281-283 | after the closing shifts nothing is left in `low`, cache or pending run |
| RangeEncoding.FinishExact | aether-core/src/coding/rans.rs:280-289 | the finished bytes spell exactly the unbounded-precision number, five bytes more than there were shifts |
| RangeEncoding.FinishNoOverflow | aether-core/src/coding/rans.rs:280-289 | finishing succeeds whenever fewer than 2^24 - 5 shifts were made |
| Predictors.QueryIsInterval | aether-core/src/entropy/traits.rs:56-66 | every byte's interval is non-empty and ends at or below 32768 |
| Predictors.DecodesTo | aether-core/src/entropy/traits.rs:56-88 | any frequency in the interval `query_cdf` gave for a byte decodes to that byte and interval |
| Predictors.SearchSymbol | aether-core/src/coding/rans.rs:30-49 | the two prefix checks and the binary search find the one symbol whose interval contains the frequency, the same as a plain scan |
| Predictors.TableDefaultsAreLawful | aether-core/src/entropy/traits.rs:62-88 | a predictor that overrides only its table honours the contract through the trait's defaults |
| RangeDecoding.RangeDecoder.constructor | aether-core/src/coding/rans.rs:307-320 | `code` holds the first five bytes in 32 bits |
| RangeDecoding.RangeDecoder.ReadByte | aether-core/src/coding/rans.rs:323-332 | past the end zeros are read and counted |
| RangeDecoding.RangeDecoder.Advance | aether-core/src/coding/rans.rs:368-380 | the refill loop reaches the state `Advanced` |
| RangeDecoding.DecodeFreq | aether-core/src/coding/rans.rs:351-359 | the frequency is below 32768 and its multiple of the scale never exceeds `code`, on corrupt input too, so `advance` cannot underflow |
| RangeDecoding.DecodeFreqIsLargest | aether-core/src/coding/rans.rs:351-359 | and it is the largest such frequency |
| RangeDecoding.ReadWithin | aether-core/src/coding/rans.rs:315-317 | the digits read so far lie in the encoder's current interval |
| RangeDecoding.FreqOfSymbol | aether-core/src/coding/rans.rs:351-359 | in step, the decoder sees a frequency inside the interval the encoder narrowed to |
| RangeDecoding.RefillInStep | aether-core/src/coding/rans.rs:376-379 | the decoder reads a byte exactly when the encoder shifted one out, and `code` stays the distance to the encoder's number |
| RangeDecoding.AdvanceInStep | aether-core/src/coding/rans.rs:368-380 | consuming a symbol keeps decoder and encoder in step |
| RangeDecoding.StartInStep | aether-core/src/coding/rans.rs:307-320 | the first byte of every finished stream is 0, so the 32-bit start loses nothing and begins in step |
| BlockCoding.DecodeBlock | aether-core/src/coding/rans.rs:472-530 | total on every input; success means exactly the expected length, at most 64 MiB |
| BlockCoding.EncodePush | aether-core/src/coding/rans.rs:423-431 | every byte is coded by the interval that the predictor, after all the bytes before it, gives for it |
| BlockCoding.EncodeLeaves | aether-core/src/coding/rans.rs:409-434 | the predictor's final state is that after the block's bytes, from the start if reset was asked for |
| BlockCoding.EncodeFailsExactly | aether-core/src/coding/rans.rs:280-289 | encoding fails exactly when the valve has opened |
| BlockCoding.EncodeFromKeepsPending | aether-core/src/coding/rans.rs:255-272 | over any block and any lawful predictor the pending run never exceeds 16 MiB |
| BlockCoding.RunRefines | aether-core/src/coding/rans.rs:423-431 | over any block and any lawful predictor the encoder denotes the unbounded-precision number, unless the valve opened |
| BlockCoding.RunNested | aether-core/src/coding/rans.rs:423-431 | the final interval lies inside the interval at every earlier symbol |
| BlockCoding.DecodeInStep | aether-core/src/coding/rans.rs:505-515 | the decode loop reproduces data, predictor state and read position |
| BlockCoding.EncodedLength | aether-core/src/coding/rans.rs:409-434 | a finished block is the exact number, 5 bytes plus the shifts, at most 2n + 5, beginning with 0 |
| BlockCoding.EncodeSucceeds | aether-core/src/coding/rans.rs:255-272 | blocks of up to 2^23 - 3 bytes never trip the overflow valve, whatever the predictor |
| BlockCoding.DecodeReadsAll | aether-core/src/coding/rans.rs:505-527 | decoding reads every byte written and none past the end |
| BlockCoding.RoundTrip | aether-core/src/coding/rans.rs:409-530 | a block that was encoded comes back if and only if it is within the decoder's 64 MiB, leaving both predictors in the same state; longer blocks are refused |
| BlockCoding.RefusedExactly | aether-core/src/coding/rans.rs:472-530 | a stream is refused exactly when decoding reads more than five bytes past its end; what is read there is zeros |
| BlockCoding.TruncatedZeros | aether-core/src/coding/rans.rs:517-527 | a finished stream that lost k zeros at its end still decodes if and only if k is at most 5 |
| BlockCoding.RefusedOutright | aether-core/src/coding/rans.rs:478-491 | an empty stream or more than 64 MiB are refused before anything is decoded |
| BlockCoding.GroupRoundTrip | aether-core/src/coding/rans.rs:397-407 | with predictor state carried from block to block, every block of a solid group comes back |
| Fenwick.LowBitIsLowest | aether-core/src/entropy/order0.rs:111 | `idx & -idx` is a power of two and the largest dividing `idx`: the other factor is odd |
| Fenwick.BetweenNodes | aether-core/src/entropy/order0.rs:107-113 | nodes skipped between a node and its parent cover nothing at or before it |
| Fenwick.Prefix | aether-core/src/entropy/order0.rs:116-124 | the walk down the set bits is the prefix sum |
| Fenwick.Add | aether-core/src/entropy/order0.rs:107-113 | after the walk up, the tree is the tree of the incremented counts |
| Fenwick.Rebuild | aether-core/src/entropy/order0.rs:96-104 | one pass pushing every node to its parent builds the tree of any counts |
| Fenwick.StepNode | aether-core/src/entropy/order0.rs:222-224 | the node a lifting step reads sums exactly the step's counts |
| Order0Model.DivisionIsExact | aether-core/src/entropy/order0.rs:44-65 | multiply-and-shift is the floor quotient for every operand below `total * 32769`, by magic number or fallback |
| Order0Model.QuantizeBoundaryIsExact | aether-core/src/entropy/order0.rs:127-132 | every operand the quantizer forms is in that range |
| Order0Model.BoundariesRise | aether-core/src/entropy/order0.rs:127-132 | boundaries rise strictly in every state: no symbol vanishes |
| Order0Model.BoundaryEnds | aether-core/src/entropy/order0.rs:153-165 | the table starts at 0 and ends at 32768 without overshoot |
| Order0Model.IntervalIsShare | aether-core/src/entropy/order0.rs:127-132 | beyond its reserved unit every interval is its symbol's share of 32512, up to rounding |
| Order0Model.UpdateCountsOrHalves | aether-core/src/entropy/order0.rs:167-184 | an update counts one byte; the one that takes the total past 1 000 000 halves every count, to no less than 1 |
| Order0Model.CountsOccurrences | aether-core/src/entropy/order0.rs:167-184 | over a run of up to 999 744 bytes every count is one more than its byte has occurred |
| Order0Model.Order0IsLawful | aether-core/src/entropy/order0.rs:153-236 | the model's table and update, with the trait's default query and search, keep the contract; with the model's own fast paths `Order0Blocks` runs the same coder |
| Order0Model.Model.constructor | aether-core/src/entropy/order0.rs:84-93 | all counts are one, with their tree and total |
| Order0Model.Model.Reset | aether-core/src/entropy/order0.rs:186-190 | back to all ones from any state |
| Order0Model.Model.PredictCdf | aether-core/src/entropy/order0.rs:153-165 | the running-sum loop gives the table |
| Order0Model.Model.QueryCdf | aether-core/src/entropy/order0.rs:195-207 | in every valid state, the table's entries at the byte and after it |
| Order0Model.Model.DecodeSymbol | aether-core/src/entropy/order0.rs:212-236 | in every valid state and for every frequency, eight lifting steps find the symbol and its table interval |
| Order0Model.Model.Update | aether-core/src/entropy/order0.rs:167-184 | one more occurrence, halved above a million in total (`UpdateCountsOrHalves`); counts, tree and total stay consistent |
| Order0Model.Model.SaveState | aether-core/src/entropy/order0.rs:246-254 | version byte, then every count in four little-endian bytes |
| Order0Model.Model.LoadState | aether-core/src/entropy/order0.rs:256-297 | accepts exactly the well-formed payloads, then holds their counts; otherwise nothing changes |
| Order0Model.SaveLoadRoundTrip | aether-core/src/entropy/order0.rs:246-297 | what a model saves is accepted and restores its counts |
| Order0Blocks.EncodeBlock | aether-core/src/coding/rans.rs:409-434 | encoder and model objects compute the block coder's result and final state, with the fast query |
| Order0Blocks.DecodeBlock | aether-core/src/coding/rans.rs:472-530 | decoder and model objects compute the block coder's result and final state, with the fast symbol search |
| LiteralModel.MassBelowTotal | aether-core/src/entropy/neural_ssm.rs:482-540 | for positive weights the cumulative mass rises strictly to the normaliser, which is never reached early |
| LiteralModel.BoundariesRise | aether-core/src/entropy/neural_ssm.rs:545-551 | the quantized table rises strictly and the clamp never acts below the last symbol |
| LiteralModel.IntervalIsShare | aether-core/src/entropy/neural_ssm.rs:545-551 | beyond its reserved unit every interval is its symbol's share of 32512, up to rounding: the weight of a run symbol, what its two counts and the base mass give for a literal |
| LiteralModel.TotalIsAnalytic | aether-core/src/entropy/neural_ssm.rs:527-529 | the normaliser computed without a loop is the mass of all 256 symbols |
| LiteralModel.PredictCdf | aether-core/src/entropy/neural_ssm.rs:582-604 | running sums over one or two count tables give the table |
| LiteralModel.QueryCdf | aether-core/src/entropy/neural_ssm.rs:608-645 | constant-time run symbols and Fenwick literals give the table's entries |
| LiteralModel.DecodeSymbol | aether-core/src/entropy/neural_ssm.rs:651-695 | eight lifting steps over two trees at once equal table search, for every frequency |
| LiteralModel.LitTable.Bump | aether-core/src/entropy/rle_predictor.rs:232-246 | one more literal; past the limit all counts are halved and the tree rebuilt; counts, tree and total stay consistent |
| LiteralModel.BumpCountsOrHalves | aether-core/src/entropy/rle_predictor.rs:232-246 | a bump counts one literal; the one past the limit halves every count |
| LiteralModel.LitTable.Rescale | aether-core/src/entropy/rle_predictor.rs:237-243 | halved counts, their total and their tree |
| TableBanks.TableBank.Bump | aether-core/src/entropy/rle_predictor.rs:234-246 | counting in one context leaves the tables of all others untouched |
| TableBanks.TableBank.Clear | aether-core/src/entropy/neural_ssm.rs:839-845 | every table of the bank is empty, with its tree and total |
| RlePrediction.CountedStaysInBounds | aether-core/src/entropy/rle_predictor.rs:87-101 | counting keeps `yes` within `total` and `total` within 500 000, so the clamp never acts |
| RlePrediction.BinaryStaysBetween | aether-core/src/entropy/rle_predictor.rs:82-84 | a counter's probability is strictly between 0 and 1 |
| RlePrediction.RleWeights | aether-core/src/entropy/rle_predictor.rs:258-264 | the weights computed from the counters are positive for every state of the counters |
| RlePrediction.IntervalIsChance | aether-core/src/entropy/rle_predictor.rs:253-324 | every interval is the chance of its byte: run or literal, then RUNA or RUNB or the literal's count plus 0.1, each outcome worth at least a millionth |
| RlePrediction.ChancesAddUp | aether-core/src/entropy/rle_predictor.rs:253-280 | the chances add up to one unless one outcome is at its lower limit |
| RlePrediction.CountsAreTimes | aether-core/src/entropy/rle_predictor.rs:222-250 | up to 500 000 bytes every counter and count is the number of times its decision was made after the start, a run symbol or a literal |
| RlePrediction.SecondTableIgnored | aether-core/src/entropy/rle_predictor.rs:253-280 | with a zero second coefficient the prediction depends on one table only |
| RlePrediction.RleIsLawful | aether-core/src/entropy/rle_predictor.rs:222-376 | the predictor's table and update, with the trait's default query and search, keep the range coder's contract |
| RlePrediction.RlePredictor.constructor | aether-core/src/entropy/rle_predictor.rs:128-137 | empty counters and tables, in the start context |
| RlePrediction.RlePredictor.Reset | aether-core/src/entropy/rle_predictor.rs:378-380 | back to the untrained state from any state |
| RlePrediction.RlePredictor.Update | aether-core/src/entropy/rle_predictor.rs:222-250 | counters and literal table of the context the byte was predicted in take it in, then the context moves on |
| RlePrediction.RlePredictor.QueryCdf | aether-core/src/entropy/rle_predictor.rs:283-324 | in every reachable state the fast query is the slice of the table |
| RlePrediction.RlePredictor.DecodeSymbol | aether-core/src/entropy/rle_predictor.rs:327-376 | in every reachable state the fast search is table search |
| RleBlocks.EncodeBlock | aether-core/src/coding/rans.rs:409-434 | encoder and RLE predictor objects compute the block coder's result and final state, with the fast query |
| RleBlocks.DecodeBlock | aether-core/src/coding/rans.rs:472-530 | decoder and RLE predictor objects compute the block coder's result and final state, with the fast search |
| SsmPrediction.SsmIsLawful | aether-core/src/entropy/neural_ssm.rs:560-803 | whatever the learner does, the predictor's table and update, with the trait's default query and search, keep the range coder's contract |
| SsmPrediction.ContextNamesBuckets | aether-core/src/entropy/neural_ssm.rs:450-466 | the context of a literal names the buckets 0, 1, 2, 3, 4-5, 6-9, 10-19 and 20-255 of the two bytes before it |
| SsmPrediction.O2CountsAreTimes | aether-core/src/entropy/neural_ssm.rs:770-804 | up to 100 000 bytes every order-2 count is the number of times its literal followed its two buckets |
| SsmPrediction.InnerIsRle | aether-core/src/entropy/neural_ssm.rs:729 | the run-length predictor inside evolves as it would alone |
| SsmPrediction.LearnerSees | aether-core/src/entropy/neural_ssm.rs:488-540 | the learner is shown the counters and totals of the contexts the byte stands in |
| SsmPrediction.SsmPredictor.Reset | aether-core/src/entropy/neural_ssm.rs:829-854 | without a dictionary, back to the untrained state |
| SsmPrediction.SsmPredictor.Update | aether-core/src/entropy/neural_ssm.rs:698-806 | learner, run-length predictor and the selected order-2 table take in the byte, selected before the two previous bytes move on |
| SsmPrediction.SsmPredictor.QueryCdf | aether-core/src/entropy/neural_ssm.rs:608-645 | in every reachable state of all contexts the fast query is the slice of the table |
| SsmPrediction.SsmPredictor.DecodeSymbol | aether-core/src/entropy/neural_ssm.rs:651-695 | in every reachable state of all contexts the fast search is table search |
| SsmBlocks.EncodeBlock | aether-core/src/coding/rans.rs:409-434 | encoder and SSM predictor objects compute the block coder's result and final state, with the fast query |
| SsmBlocks.DecodeBlock | aether-core/src/coding/rans.rs:472-530 | decoder and SSM predictor objects compute the block coder's result and final state, with the fast search |
| Permutation.PermMultiset | aether-core/src/coding/bwt_preprocess.rs:185-191 | rearranging rows by a permutation keeps their multiset |
| Bwt.SortedUnique | aether-core/src/coding/bwt_preprocess.rs:69-72 | sorted rows are determined by their multiset, ties or no ties |
| Bwt.KeptIsRotationOrder | aether-core/src/coding/bwt_preprocess.rs:69-118 | the positions below n of a suffix array of T+T list every rotation once in sorted order |
| Bwt.Encode | aether-core/src/coding/bwt_preprocess.rs:57-118 | fails exactly on oversized texts or a failed library; otherwise gives the last column of the sorted rotations and the row of the text |
| Bwt.RankOrder | aether-core/src/coding/bwt_preprocess.rs:196-202 | `LF` orders by byte and keeps the order of equal bytes |
| Bwt.LfMap | aether-core/src/coding/bwt_preprocess.rs:187-191 | `LF` of every byte string is a permutation of the rows, so every value is in range |
| BwtInverse.RearrangedSorted | aether-core/src/coding/bwt_preprocess.rs:196-202 | sorted rows, each rotated right and moved to its `LF` place, are sorted again |
| BwtInverse.LfRotatesRight | aether-core/src/coding/bwt_preprocess.rs:196-208 | row `LF(j)` is row `j` rotated right, as a string, for periodic texts too |
| BwtInverse.InverseOfTransform | aether-core/src/coding/bwt_preprocess.rs:133-210 | the backward walk from the primary row spells the text |
| BwtWalks.WalksAgree | aether-core/src/coding/bwt_preprocess.rs:174-182 | both walk shapes give equal bytes whenever n steps of `LF` lead back to the primary row |
| BwtWalks.SameRowsExactly | aether-core/src/coding/bwt_preprocess.rs:174-182 | they read the same rows if and only if n steps of `LF` lead back |
| BwtWalks.WalksCanDisagree | aether-core/src/coding/bwt_preprocess.rs:174-182 | for every odd length, under any thresholds that select the two-chain walk, a crafted string read from row 0 decodes to other bytes than the single walk gives; beyond 2^20 bytes `bwt_decode` itself does so |
| BwtWalks.AgreeByAccident | aether-core/src/coding/bwt_preprocess.rs:174-182 | equal bytes do not imply equal rows: "abaaa" from row 2 |
| BwtWalks.EqualRowsKeepOrder | aether-core/src/coding/bwt_preprocess.rs:196-202 | `LF` steps never reorder rows that are equal strings |
| BwtWalks.LfCloses | aether-core/src/coding/bwt_preprocess.rs:174-182 | on every transformed text n steps of `LF` return to their start, though `LF` need not be one cycle |
| BwtWalks.BuildLf | aether-core/src/coding/bwt_preprocess.rs:196-202 | the counting loop builds `LF` |
| BwtWalks.BuildForward | aether-core/src/coding/bwt_preprocess.rs:212-219 | each 32-bit entry packs `LF` and the byte, for up to 2^24 bytes |
| BwtWalks.BuildInverse | aether-core/src/coding/bwt_preprocess.rs:231-236 | each entry packs the row that leads here and its byte; every slot is written |
| BwtWalks.WalkArrays | aether-core/src/coding/bwt_preprocess.rs:204-209 | the two-array loop is the backward walk |
| BwtWalks.WalkPacked | aether-core/src/coding/bwt_preprocess.rs:221-229 | the packed loop is the backward walk |
| BwtWalks.WalkTwoChains | aether-core/src/coding/bwt_preprocess.rs:238-253 | the double loop with its middle byte fills both halves |
| BwtWalks.DecodeWith | aether-core/src/coding/bwt_preprocess.rs:133-256 | for every string, index and thresholds whose packed entries fit 32 bits: which walk's bytes are returned, and the two error cases |
| BwtWalks.RoundTrip | aether-core/src/coding/bwt_preprocess.rs:57-256 | decoding any transform of any text gives the text, whichever walk its size selects |
| BwtWalks.RefusedExactly | aether-core/src/coding/bwt_preprocess.rs:133-256 | nothing but an index outside a string is refused |
| Mtf.Encode | aether-core/src/coding/bwt_preprocess.rs:267-294 | the list and position arrays, shifted in place, emit the ranks |
| Mtf.Decode | aether-core/src/coding/bwt_preprocess.rs:297-318 | the in-place list emits the bytes of the ranks |
| Mtf.EveryByteRanked | aether-core/src/coding/bwt_preprocess.rs:270-273 | a ranking of 256 distinct bytes contains every byte |
| Mtf.DecodeEncode | aether-core/src/coding/bwt_preprocess.rs:267-318 | decoding undoes encoding, from any common ranking |
| Mtf.EncodeDecode | aether-core/src/coding/bwt_preprocess.rs:267-318 | encoding undoes decoding: every byte string is the ranks of exactly one text |
| Mtf.RanksAreRecency | aether-core/src/coding/bwt_preprocess.rs:267-294 | the rank of a byte is the number of byte values seen since it was last seen, or, if it never was, of those seen or smaller |
| ZeroRun.EncodeRunLength | aether-core/src/coding/bwt_preprocess.rs:362-371 | the loop appends the bijective base-2 digits |
| ZeroRun.ValueOfDigits | aether-core/src/coding/bwt_preprocess.rs:358-388 | reading back the digits of a length gives the length |
| ZeroRun.DigitsOfValue | aether-core/src/coding/bwt_preprocess.rs:358-388 | every digit string is the digits of its value |
| ZeroRun.Encode | aether-core/src/coding/bwt_preprocess.rs:328-356 | refuses exactly the unrepresentable ranks, else emits the stream; likewise the escaped form |
| ZeroRun.ReadRun | aether-core/src/coding/bwt_preprocess.rs:380-388 | saturating 64-bit arithmetic yields the run's value, capped only if it exceeds 2^64 - 1 |
| ZeroRun.Decode | aether-core/src/coding/bwt_preprocess.rs:374-423 | total: a stream decodes for exactly one expected size, the number of ranks it stands for |
| ZeroRun.DecodeSymbol | aether-core/src/coding/bwt_preprocess.rs:490-523 | a bad or cut escape and a symbol past the expected size are refused |
| ZeroRun.ExpandEncoded | aether-core/src/coding/bwt_preprocess.rs:328-534 | every representable rank sequence comes back from its stream, in both forms |
| ZeroRun.EncodeExpanded | aether-core/src/coding/bwt_preprocess.rs:328-534 | every accepted stream is the one stream of its ranks, in both forms |
| ZeroRun.PlainAcceptsAll | aether-core/src/coding/bwt_preprocess.rs:374-423 | every byte string is a stream of the plain form |
| ZeroRun.EncodedLength | aether-core/src/coding/bwt_preprocess.rs:328-465 | the plain form never lengthens, the escaped form at most doubles |
| ZeroRun.EncodedJoin | aether-core/src/coding/bwt_preprocess.rs:328-465 | a stream falls apart wherever the ranks do not continue a zero run |
| ZeroRun.RankAppended | aether-core/src/coding/bwt_preprocess.rs:328-465 | a nonzero rank is itself plus one; in the escaped form 254 is 255, 2 and 255 is 255, 3 |
| ZeroRun.RunAppended | aether-core/src/coding/bwt_preprocess.rs:358-371 | a zero run is digits that add up to its length, the i-th counting 2^i once or twice |
| BwtPipeline.Encode | aether-core/src/coding/bwt_preprocess.rs:557-563 | four bytes of index, then as many ranks as the text has bytes; fails only on size or the library |
| BwtPipeline.Decode | aether-core/src/coding/bwt_preprocess.rs:569-595 | what is returned for every input, with each refusal |
| BwtPipeline.DecodeParts | aether-core/src/coding/bwt_preprocess.rs:598-621 | the same from separate parts |
| BwtPipeline.AcceptedExactly | aether-core/src/coding/bwt_preprocess.rs:569-621 | a payload is accepted exactly for the size four less than its own, within 64 MiB, when its index is a row |
| BwtPipeline.RoundTrip | aether-core/src/coding/bwt_preprocess.rs:557-595 | whatever the library did with ties, decoding what was encoded gives the text |
| BwtPipeline.ThreeStageRoundTrip | aether-core/src/coding/bwt_preprocess.rs:321-621 | transform, ranks and zero runs and back is the identity, in the plain form exactly when the ranks allow it |
| Lz77.CopyRecurs | aether-core/src/coding/lz77_preprocess.rs:378-393 | every copied byte repeats the one `offset` before it, overlaps included |
| Lz77.CopyUnique | aether-core/src/coding/lz77_preprocess.rs:378-393 | and that recurrence alone determines the copy |
| Lz77.CopyChunks | aether-core/src/coding/lz77_preprocess.rs:378-393 | copying in chunks of at most `offset` equals copying byte by byte |
| Lz77.ReadWritten | aether-core/src/coding/lz77_preprocess.rs:210-234 | a length written as nibble and extension bytes is read back, never hitting the cap |
| Lz77.Decoded | aether-core/src/coding/lz77_preprocess.rs:286-394 | the loop ends on every input and holds at most 16 bytes more than expected |
| Lz77.DecodeResult | aether-core/src/coding/lz77_preprocess.rs:256-404 | success means exactly the expected size, at most 64 MiB |
| Lz77.Decode | aether-core/src/coding/lz77_preprocess.rs:256-404 | the decoder on arbitrary bytes computes that result |
| Lz77Format.EmittedBytes | aether-core/src/coding/lz77_preprocess.rs:202-236 | the bytes of a sequence: both lengths in the token, 255s and a remainder for the rest, literals, offset low byte first |
| Lz77Format.FinalBytes | aether-core/src/coding/lz77_preprocess.rs:238-254 | the bytes of the literals at the end |
| Lz77Format.AcceptedExactly | aether-core/src/coding/lz77_preprocess.rs:256-404 | the decoder returns an output exactly for the encodings of literals and copies that make it up, with anything behind them |
| Lz77Chains.MatchFinder.Insert | aether-core/src/coding/lz77_preprocess.rs:58-65 | the head points to the new position and the old head goes to the reused slot; nothing else changes |
| Lz77Chains.MatchFinder.FindBest | aether-core/src/coding/lz77_preprocess.rs:67-119 | whatever the chains contain: a returned match is true, unextendable, of offset 1 to 65535 and inside the data; it is longer than all compared before it and, unless long enough to stop at, as long as any after it |
| Lz77Chains.InsertIndexed | aether-core/src/coding/lz77_preprocess.rs:58-65 | inserting every position in order keeps each link of the window pointing to the previous position of equal hash, in spite of slot reuse |
| Lz77Chains.VisitsCandidates | aether-core/src/coding/lz77_preprocess.rs:73-112 | so the search meets exactly the positions of equal hash, newest first, and its guard against links that go forwards never fires |
| Lz77Chains.NothingLonger | aether-core/src/coding/lz77_preprocess.rs:67-119 | unless 256 candidates or a match of 258 bytes cut the search short, nowhere in the window is there a longer match than the one found |
| Lz77Chains.BestUnique | aether-core/src/coding/lz77_preprocess.rs:88-118 | a chain has exactly one outcome: the nearest of its longest matches, or none |
| Lz77Searching.ThirdByteSeparates | aether-core/src/coding/lz77_preprocess.rs:36-42 | positions that differ in their third byte only are never on one chain |
| Lz77Searching.FindsRepeats | aether-core/src/coding/lz77_preprocess.rs:36-119 | what repeats three bytes or more in the window is found, or something as long, or 258 bytes, unless 256 positions have a three-byte multiple with the same top bits |
| Lz77Parsing.ParseUnique | aether-core/src/coding/lz77_preprocess.rs:141-187 | the search and the lazy rule leave no choice: an input has one parse |
| Lz77Parsing.TokensAreBest | aether-core/src/coding/lz77_preprocess.rs:145-182 | every match of a parse is the best at its position with all earlier positions to choose from |
| Lz77Parsing.ParseIsLayout | aether-core/src/coding/lz77_preprocess.rs:141-187 | a parse consists of true matches inside the data that do not overlap |
| Lz77Parsing.LiteralPosition | aether-core/src/coding/lz77_preprocess.rs:145-187 | a position outside all matches has none, or was put off for one longer by two or more at the next position |
| Lz77Parsing.NeverTwiceRunning | aether-core/src/coding/lz77_preprocess.rs:139-187 | of two neighbouring positions outside all matches one has no match |
| Lz77Parsing.TakenNow | aether-core/src/coding/lz77_preprocess.rs:149-166 | a match is taken in spite of one longer by two at the next position only when one had just been put off |
| Lz77Searching.TokenIsCopy | aether-core/src/coding/lz77_preprocess.rs:67-187 | every match the encoder takes repeats earlier bytes of the window, as far as they go or 65538 are reached |
| Lz77Searching.TokensAreLongest | aether-core/src/coding/lz77_preprocess.rs:126-200 | every match the encoder takes is as long as any repetition in its window, under the conditions of `FindsRepeats` |
| Lz77Searching.LiteralsAreNew | aether-core/src/coding/lz77_preprocess.rs:126-200 | under the same conditions three bytes seen before stay literal only when a longer match at the next position comes first |
| Lz77Encoding.ChooseMatch | aether-core/src/coding/lz77_preprocess.rs:147-166 | the lazy choice: the best match is taken unless the next position starts one longer by at least two and none was just put off |
| Lz77Encoding.EmitSequence | aether-core/src/coding/lz77_preprocess.rs:202-236 | the pushes append token, extensions, literals, offset and match extensions in order |
| Lz77Encoding.ReadSequence | aether-core/src/coding/lz77_preprocess.rs:293-393 | the decoder reads one emitted sequence back as its literals and its copy |
| Lz77Encoding.CopyOfMatch | aether-core/src/coding/lz77_preprocess.rs:378-393 | copying a true match appends the data it matched |
| Lz77Encoding.PassSequence | aether-core/src/coding/lz77_preprocess.rs:286-394 | wherever the stream holds an emitted sequence, decoding passes behind it with the data up to its end written |
| Lz77Encoding.EncodeMatches | aether-core/src/coding/lz77_preprocess.rs:141-187 | the main loop writes the sequences of the input's parse, and leaves the chains an index of every position, matched ones included |
| Lz77Encoding.Encode | aether-core/src/coding/lz77_preprocess.rs:126-200 | outside the limits nothing; within them the stream of the input's parse, returned exactly when shorter than the input, and it decodes to the input |
| Lz77Encoding.StreamDecodes | aether-core/src/coding/lz77_preprocess.rs:126-404 | the stream of any layout of true matches, the encoder's parse among them, decodes to the data and is consumed to its last byte |
| Lz77Encoding.StreamUnique | aether-core/src/coding/lz77_preprocess.rs:126-200 | what the encoder returns is settled by its input alone |
| Lz4Fsm.Lz4AwarePredictor.Reset | aether-core/src/entropy/lz4_aware.rs:586-590 | the parse fields return to the start |
| Lz4Fsm.Lz4AwarePredictor.Update | aether-core/src/entropy/lz4_aware.rs:547-584 | the fields updated in place make the machine's step, counters before transition |
| Lz4Fsm.RunBounded | aether-core/src/entropy/lz4_aware.rs:457-584 | on any bytes whatever the machine never waits for more than 256 MiB of literals |
| Lz4Fsm.LitExtFollows | aether-core/src/entropy/lz4_aware.rs:480-496 | over length extensions the machine adds up the decoder's length |
| Lz4Fsm.SequenceFollows | aether-core/src/entropy/lz4_aware.rs:457-522 | over one sequence the machine names every byte's role and returns to a token |
| Lz4Fsm.Synchronised | aether-core/src/entropy/lz4_aware.rs:457-584 | on every stream the decoder accepts, before every byte it consumes, the machine is in the state naming the byte's role, with the right literal count |
| Lz4Fsm.EncoderSynchronised | aether-core/src/entropy/lz4_aware.rs:457-584 | on a stream the encoder made the machine names the role of every byte, with none left over |
| BytePlanes.SplitBytes | aether-core/src/coding/byteplane_preprocess.rs:62-94 | plane j holds byte j of every whole element; the rest is the tail |
| BytePlanes.MergeBytes | aether-core/src/coding/byteplane_preprocess.rs:97-132 | the elements interleaved again, then the tail |
| BytePlanes.MergeSplit | aether-core/src/coding/byteplane_preprocess.rs:62-132 | merging the split planes gives the whole elements back |
| BytePlanes.SplitMerge | aether-core/src/coding/byteplane_preprocess.rs:62-132 | splitting merged planes gives the planes back |
| BytePlanes.RowsAt | aether-core/src/coding/byteplane_preprocess.rs:97-132 | byte j of element i of the interleaved planes is byte i of plane j |
| BytePlanes.DeltaEncode | aether-core/src/coding/byteplane_preprocess.rs:196-206 | wrapping differences |
| BytePlanes.DeltaDecode | aether-core/src/coding/byteplane_preprocess.rs:209-213 | the in-place loop gives the wrapping prefix sums of what was there |
| BytePlanes.SumsDeltas | aether-core/src/coding/byteplane_preprocess.rs:196-213 | prefix sums undo differences |
| BytePlanes.DeltasSums | aether-core/src/coding/byteplane_preprocess.rs:196-213 | and differences undo prefix sums |
| BytePlanes.SumsAt | aether-core/src/coding/byteplane_preprocess.rs:209-213 | every restored byte is the sum of all the differences up to it, modulo 256 |
| BytePlaneCodec.PackedBit | aether-core/src/coding/byteplane_preprocess.rs:313-328 | a flag that was set or left clear is read back as such |
| BytePlaneCodec.ConcatPart | aether-core/src/coding/byteplane_preprocess.rs:423-428 | each plane lies where the sizes before it say |
| BytePlaneCodec.PlaneRoundTrip | aether-core/src/coding/byteplane_preprocess.rs:293-456 | a plane comes back under any choice of delta and compression, given the flags that record what happened |
| BytePlaneCodec.PayloadSizes | aether-core/src/coding/byteplane_preprocess.rs:344-398 | the header's size fields are read back |
| BytePlaneCodec.RoundTrip | aether-core/src/coding/byteplane_preprocess.rs:266-497 | for every input, width and choice of flags, and every lawful predictor, a block that was encoded decodes to itself |
| BytePlaneCodec.Encode | aether-core/src/coding/byteplane_preprocess.rs:266-358 | with order-0 objects: the payload or its refusal, and the payload decodes to the input |
| BytePlanePayloads.EncodedExactly | aether-core/src/coding/byteplane_preprocess.rs:266-358 | there is a payload exactly when the block is within 64 bytes and 64 MiB, some plane is to be compressed, and header, stored planes and tail are shorter than the block; then it has that length |
| BytePlanePayloads.EncodedHolds | aether-core/src/coding/byteplane_preprocess.rs:266-358 | width, flags, sizes, planes and tail of a payload, byte by byte: each plane, in differences if its flag says so, is range-coded exactly when that is shorter |
| BytePlaneCodec.Decode | aether-core/src/coding/byteplane_preprocess.rs:363-497 | total on every payload, with each refusal in the source's order |
| BytePlanePayloads.AcceptedExactly | aether-core/src/coding/byteplane_preprocess.rs:363-497 | a payload is accepted for exactly the block that its planes, restored one by one, and its tail make up |
| BytePlanePayloads.ResourceLimitExactly | aether-core/src/coding/byteplane_preprocess.rs:393-409 | the size limit is reported exactly for a complete header with a size above 64 MiB |
| BytePlaneCodec.Decoded | aether-core/src/coding/byteplane_preprocess.rs:484-497 | success means exactly the expected length: the last length check can never fail |
| Bcj.Transform | aether-core/src/coding/bcj.rs:77-99 | the in-place scan rewrites the array to `Transformed` |
| Bcj.SelfInverse | aether-core/src/coding/bcj.rs:77-99 | each direction undoes the other on every byte string, even where rewritten operands contain opcode bytes |
| Bcj.ScanUnique | aether-core/src/coding/bcj.rs:77-99 | the scan stops at the one choice of opcodes E8 and E9 that do not overlap and leave out none |
| Bcj.OperandsAreRewritten | aether-core/src/coding/bcj.rs:77-99 | at every stop the operand has the end of its instruction added, or taken off, modulo 2^32; no other byte changes |
| Bcj.SameTarget | aether-core/src/coding/bcj.rs:77-99 | two calls that lead to one place are encoded with equal operands |
| Bcj.RecognisedByFields | aether-core/src/coding/bcj.rs:10-60 | recognised are ELF with machine 3 or 62 in the byte order it states, PE with machine 0x14C or 0x8664 where the header points to, and Mach-O with magic number and processor type in one of the two byte orders |
| Bcj.EncodeX86 | aether-core/src/coding/bcj.rs:10-70 | transforms exactly the recognised executables, keeping the length, and the inverse restores the input |
| CloudReading.Progress | aether-core/src/cloud/mod.rs:273-313 | a read gets the rest of the request or of the object, 16 MiB at most; it is never empty before the end |
| CloudReading.SeeksAgree | aether-core/src/cloud/mod.rs:317-355 | the three forms of seek name the same places |
| CloudReading.SeekExactly | aether-core/src/cloud/mod.rs:316-361 | for every seek: refused when base or target leave 63 bits or the target lies before the start, else clamped to the end |
| CloudReading.ReadsInOrder | aether-core/src/cloud/mod.rs:273-313 | successive reads return the object in order, nothing lost or repeated |
| CloudReading.CloudReader.Open | aether-core/src/cloud/mod.rs:242-253 | an opened reader stands at the start of the object |
| CloudReading.CloudReader.RefreshSize | aether-core/src/cloud/mod.rs:259-264 | afterwards the reader is valid for whatever the object is now; a failure changes nothing |
| CloudReading.CloudReader.Read | aether-core/src/cloud/mod.rs:272-313 | bytes, count and new position are those of a plain file; the buffer stays a true slice; a failure changes nothing; it fails exactly when the buffer does not cover the read and the backend is out of reach; a request brings 256 KiB or more, to the end |
| CloudReading.CloudReader.SeekTo | aether-core/src/cloud/mod.rs:316-361 | the position is the clamped target or the seek is refused unchanged, and the buffer stays a true slice |

## Left out

- libsais: foreign code, given by its specification (a permutation sorted by suffix); its failure is an input.
- Floating-point learning (state-space model, SGD, sigmoid table, mixer, entropy estimates): weights are arbitrary positive reals, per-plane decisions arbitrary flags. Rounding of `f32` and `f64` is not modelled.
- `probs_to_cdf` and the predictors that use it: a float table; any table it returns is a case of `Predictors.TableDefaultsAreLawful`.
- SsmPrediction.SsmPredictor.Update: the learned parameters are one value changed by an arbitrary function, not the arrays the source updates.
- `load_state` and `save_state` of the RLE and SSM predictors and dictionary baselines: bulk serialisation.
- Lz4Fsm.Lz4AwarePredictor.Update: models the parse state, not the frequency tables chosen by it.
- Lz4Fsm.Lz4AwarePredictor.Reset: resets the parse state, not the frequency tables.
- Trait objects: `ProbabilityPredictor` is a value of functions (`Predictor`); the block methods run on the order-0, RLE and SSM classes.
- Integer widths: `low`, `range`, counts and positions are unbounded here; the lemmas bound `range` below 2^32, `low + range` by 2^33 and totals by 512 000 000, and truncations the code relies on are written out.
- ZeroRun.Encode: inputs are below 2^32 bytes, beyond which the source's 32-bit run counter could overflow.
- ZeroRun.Decode: excludes the expected size 2^64 - 1, for which no buffer exists.
- Order0Model.Model.LoadState: the refusal of totals above `u32::MAX` has no branch, since no accepted counts reach it.
- BytePlaneCodec.Decode: the last length comparison has no branch, since it cannot fail.
- BytePlanes.MergeBytes: the branches for widths 2 and 4 are the general loop unrolled, and are modelled by it.
- Error texts, allocation hints and capacity caps: only the class of an error is kept.
- Threads: byte planes are independent and processed in order.
- CloudReading.Backend.ReadRange: the backend answers with exactly the requested bytes or fails; short or wrong answers, paths and their validation are not modelled.
- Routing, block and archive formats, encryption, hashing, content detection, command line and bindings: not part of this model.
