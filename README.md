# Discrete core of the HDOptiDisc channel simulation and block decoder

This project models, in Dafny, the discrete part of `Rnn.py`. That part simulates a magnetic/optical recording channel and decodes long read-backs block by block with a bounded-length detector:

- **Constrained encoder** (`Encoder`). A table-driven Markov chain reads the information bits in chunks of `num_input_sym_enc`. It looks each chunk up among the input rows of the current state, writes the row's output tuple into its codeword slot and moves to the row's next state.
- **Precoder** (`Precoder`). The differential precoder `x = z / (1 + D)` mod 2: a running sum reduced mod 2.
- **Channel state machine** (`Channel`). The E2PR4 transducer starts in `ini_state` and steps through the word with stride `num_input_sym_channel`. At each step it takes the unique row matching (state, input symbol), writes the row's output symbol and moves to the row's to-state. It returns the output and the final state.
- **Tap layout** (`Taps`). The layout of the equaliser taps (`isi_coef_derivation`) and of the Lorentzian dipulse taps (`lorentzian_di_channel`):
  - each lag is written at a wrapped index of a zero vector;
  - the vector is rotated so the lags appear in centred order;
  - the dipulse is the difference with the one-step shifted copy.
- **Mismatched read-back `acgn_mis`** (`Noise`). A cascade of full convolutions, each trimmed by `side` samples at each end and reshaped to the codeword's length.
- **Causal sliding window `sliding_shape`** (`Framer`).
- **Streaming block decoder `evaluation`** (`Decoder`). For each block it:
  - cuts the block `dummy_start[state] ++ x[idx : idx+eval+overlap] ++ dummy_end_eval`;
  - frames it and classifies it;
  - keeps `eval_length` decisions;
  - recovers the next block's state from the last decisions through the state-label table, falling back to state 0.

The loops of the source are Dafny methods: `EncoderConstrain`, `Precoding`, `E2pr4Channel`, `FillLags` and `SlidingShape` fill arrays, and `Evaluation` appends to a decision sequence. Each is proved equal to a reference function, and the promised properties are proved as lemmas about that function. The rotations, shifts and the convolve-and-trim chain are expression-only in the source and are functions here.

Decisions where the source leaves a choice:

- **Tap order.** The rotation `append(ori[-side:], ori[:side+1])` yields the lags in order `-side, ..., -1, 0, 1, ..., side`, with the most negative lag first and lag 0 in the middle (`Taps.CentredTaps`).
- **Decoder start state.** The block decoder starts in state 0 (Rnn.py:566), not in the channel's `ini_state`. The dummy end block of evaluation is appended whole and is not indexed by state (Rnn.py:564, 574).
- **Codeword length.** The codeword length `int(info_len / code_rate)` is computed exactly, as `info_len * num_out / num_in` in integers.
- **Even tap counts.** The code derives `side = (tap - 1) // 2` and keeps `2 * side + 1` taps of a `tap`-entry vector, so an even count raises no error. The slot at index `side + 1` is never written and is dropped by the rotation (`Taps.LaggedUnwritten`). The model does the same.
- **Table lookup.** The lookup `find_index` comes from `lib/utils.py`, which is not part of this model. It is modelled as "the index of the first row equal to the key, or none" (`Common.FindIndex`).
- **Encoder lookup miss.** In the source, indexing with `None` ends in a numpy error. The model returns `Failure(NoMatchingInput(position, state))`.
- **Channel step with zero or several matching rows.** In the source the broadcast into `y[:, i]` fails. The model returns `Failure(NoUniqueRow(position, state))`.
- **Python `%`** agrees with Dafny's `%` for the positive divisors used here.

## Model

| member | source | states |
|---|---|---|
| Common.FindIndex | Rnn.py:584 | the lookup returns either none or the index of a row of the table whose length is the key's |
| Common.FindIndexSpec | Rnn.py:584 | the lookup finds an index exactly when some row equals the key; the found row equals the key and no earlier row does; none is found exactly when no row equals the key |
| Encoder.EncodeStep | Rnn.py:352-355 | a transition reads a full chunk of `num_in` symbols, writes `num_out` symbols and moves to a state of the table |
| Encoder.EncodeStepSpec | Rnn.py:352-355 | a transition exists exactly when the chunk is among the state's input rows, and then it follows a row whose input is the chunk: that row's output tuple and next state |
| Encoder.StepAtShaped | Rnn.py:347-355 | every transition taken before the end of the information reads a whole chunk that fits and writes one output tuple |
| Encoder.EncodeFrom | Rnn.py:347-356 | the encoding from position i reads chunk after chunk; a failure names a position from i up to the end of the information (the properties of the walk are in EncodeLength, EncodeChunk and EncodeSucceedsIff) |
| Encoder.Encode | Rnn.py:336-358 | the encoding of the whole information from the initial state; a failure names a position inside the information |
| Encoder.EncoderConstrain | Rnn.py:336-358 | the encoding loop, started in the given initial state, returns exactly the reference encoding (the same codeword, or the same failure position and state), so two runs from one state agree |
| Encoder.EncodeLength | Rnn.py:343-356 | a successful encoding consumed a whole number of chunks and has `num_out` symbols per chunk: length `info_len / num_in * num_out` |
| Encoder.EncodeChunk | Rnn.py:347-356 | chunk k sits at positions `[num_out*k, num_out*(k+1))` and is the output row the table selects for chunk k in the state reached after k chunks; the state then moves to that row's next state |
| Encoder.EncodeSucceedsIff | Rnn.py:347-356 | encoding succeeds if and only if the information length is a whole number of chunks and every chunk along the state walk has a matching input row |
| Encoder.TrainingCodewordCovers | Rnn.py:228-231 | with `info_length = ceil((block_length - dummy_end) / num_out) * num_in` (`Encoder.InfoLength`), a successful codeword is long enough for the prefix `[:block_length - dummy_end]` taken at Rnn.py:245-246 |
| Precoder.Precode | Rnn.py:368-373 | the precoded word keeps the input's length and every symbol is 0 or 1 |
| Precoder.Precoding | Rnn.py:360-373 | the accumulation loop followed by mod 2 returns the reference precoding; an empty word is refused because `z[0, 0]` is read |
| Precoder.PrecodeRecurrence | Rnn.py:364-372 | `x[0] = z[0] mod 2` and `x[i] = (x[i-1] + z[i]) mod 2`: reducing once at the end equals reducing at every step |
| Precoder.DifferenceOfPrecode | Rnn.py:364 | the mod-2 first difference `1 + D` recovers every bit input from its precoded word |
| Precoder.PrecodeOfDifference | Rnn.py:364 | precoding a first difference recovers every bit word, so the precoder is a bijection on bit words |
| Channel.NumInputSym | Rnn.py:175 | the stride is half the number of in/out columns rounded down: at least 1, and twice it is the column count or one less |
| Channel.MatchingRowsSpec | Rnn.py:388-389 | the rows leaving the current state on the current input symbol: every listed row matches, every matching row is listed, and the list is ascending |
| Channel.ChannelStepSpec | Rnn.py:388-391 | a step is taken only by a matching row, and only when no other row matches |
| Channel.StepMissNotUnique | Rnn.py:389-390 | a step fails although a row matches only when a second, different row also matches |
| Channel.ChannelFrom | Rnn.py:387-391 | a successful run from position i writes `|x| - i` samples and takes only rows of the table |
| Channel.E2pr4 | Rnn.py:375-393 | the channel on the whole word from `ini_state`: a success has the word's length, a failure names a position inside the word (its layout is in E2pr4Shape) |
| Channel.E2pr4Channel | Rnn.py:375-393 | the channel loop over an all-zero output array returns exactly the reference run: the output samples and the ending state, or the failing position and state |
| Channel.RunFollowsSteps | Rnn.py:386-393 | a successful run takes one row per stride position; the first row is the unique match for the start state and the first sample; each later row is the unique match for the previous row's to-state and the sample at its position; the run ends in the last row's to-state |
| Channel.RunPathLength | Rnn.py:387 | a successful run takes exactly one row per stride position |
| Channel.RunLayout | Rnn.py:383-390 | a successful run's output is the output symbols of the rows taken, one every stride samples, with zeros in between |
| Channel.RunOutputs | Rnn.py:387-390 | at every stride position the output is the output symbol of the row taken there |
| Channel.RunZeros | Rnn.py:383-390 | every position off the stride keeps its initial 0 |
| Channel.FailureAtStep | Rnn.py:388-390 | a failure is reported at a stride position whose state and sample have no unique row |
| Channel.DeterministicRunSucceeds | Rnn.py:387-391 | started in a set of states in which every state has a unique row for every sample and every such row leads back into the set, the channel never fails |
| Channel.TwoStateDeterministic | Rnn.py:387-391 | a two-state accumulator table (to-state = input bit, output = input + state) is deterministic and complete on its states for every bit word, so the hypothesis of DeterministicRunSucceeds can be met |
| Channel.TwoStateStep | Rnn.py:388-389 | in that table the unique row for state s and bit b is row `2s + b` |
| Channel.E2pr4Shape | Rnn.py:382-393 | the output has the input's length and is 0 at every position not divisible by the stride; the returned state is the to-state of the last row of the run, and that row is the unique match for the state reached before it (the to-state of the previous row, or `ini_state`) and the sample at the last stride position |
| Taps.Side | Rnn.py:200 | the lags `-side..side` fit in the `tap` entries with at most one entry to spare |
| Taps.WrapIndex | Rnn.py:208 | a negative lag index writes at the end of the vector, a non-negative one at itself, always inside the vector |
| Taps.Lagged | Rnn.py:200-208 | the vector after the lag loop has `tap` entries (where each lag lands is in LaggedAt and LaggedUnwritten) |
| Taps.LaggedAt | Rnn.py:202-208 | after the lag loop, lag k sits at its wrapped index |
| Taps.LaggedUnwritten | Rnn.py:201-208 | entries that no lag reaches stay zero |
| Taps.FillLags | Rnn.py:201-208 | the lag loop over an array produces the wrapped-lag vector |
| Taps.Rotate | Rnn.py:212-213 | the intended rotation keeps `2*side+1` entries (their lags are in CentredTaps) |
| Taps.RotateAsWritten | Rnn.py:212-213 | the rotation as written equals the intended rotation for `side >= 1`; for `side = 0` it appends the zero-lag tap to the whole vector |
| Taps.RotateAsWrittenSingleTap | Rnn.py:212-213 | with one tap, the rotation as written gives `[g(0), g(0)]` where `[g(0)]` is intended |
| Taps.RotateAsWrittenTwoTaps | Rnn.py:201-213 | with two taps, only lag 0 is written and the rotation as written gives `[g(0), 0, g(0)]` where `[g(0)]` is intended |
| Taps.CentredTaps | Rnn.py:200-213 | the rotated vector has `2*side+1` taps and position j holds lag `j - side` |
| Taps.IsiCoefDerivation | Rnn.py:196-215 | the equaliser taps: `2*side+1` taps, position j holding lag `j - side` |
| Taps.LorentzianDiChannel | Rnn.py:395-413 | the dipulse taps: `di[0] = g(-side)` and `di[j] = g(j-side) - g(j-1-side)` for j >= 1; equal to the dipulse of the centred taps |
| Taps.Dipulse | Rnn.py:410-411 | the dipulse has as many taps as the step response (its inverse is PrefixSumOfDipulse) |
| Taps.PrefixSumOfDipulse | Rnn.py:410-411 | summing the first j+1 dipulse taps gives back centred tap j (the step response) |
| Taps.DipulseInjective | Rnn.py:410-411 | two tap vectors with the same dipulse are equal |
| Taps.CentredTapsSymmetric | Rnn.py:202-213 | when the lag response is even, the centred tap vector is a palindrome |
| Noise.Convolve | Rnn.py:427 | the full convolution has `|a| + |v| - 1` samples |
| Noise.Trim | Rnn.py:427-437 | dropping `side` samples at each end leaves `|s| - 2*side` samples, sample t being `s[t + side]` |
| Noise.TrimAsWritten | Rnn.py:427-428 | the slice `[side:-side]` as written agrees with the intended trim for `side >= 1` and is empty for `side = 0` |
| Noise.Reshape | Rnn.py:428 | the reshape succeeds exactly when the sample count equals the codeword length, and keeps the samples |
| Noise.Stage | Rnn.py:427-437 | a defined stage had non-empty taps and signal and has the codeword's length |
| Noise.StageLength | Rnn.py:427-437 | a stage over `2*side+1` taps and a non-empty signal is defined and keeps the signal's length |
| Noise.StageAsWrittenSingleTap | Rnn.py:424-428 | with one tap the stage as written fails at the reshape, while the intended stage is the plain convolution |
| Noise.AcgnMisStages | Rnn.py:424-437 | when all four stages are defined the codeword is non-empty and the coloured noise, the Lorentzian read-back and both equalised read-backs have the codeword's length |
| Noise.AcgnMis | Rnn.py:419-439 | a defined read-back has the codeword's length |
| Noise.AcgnMisDefined | Rnn.py:424-439 | with `2*side+1` taps on both filters, all four stages are defined if and only if the codeword is non-empty |
| Noise.ConvolveAdd | Rnn.py:436 | convolution distributes over adding the signal and the noise |
| Noise.TrimAdd | Rnn.py:436-437 | trimming distributes over adding signals |
| Noise.AcgnMisSuperposition | Rnn.py:427-437 | the mismatched read-back is the noiseless equalised read-back plus the coloured noise |
| Noise.AcgnMisNoiseless | Rnn.py:427-437 | with all-zero noise the coloured noise is zero and the mismatched read-back equals the noiseless one |
| Noise.StageImpulse | Rnn.py:430-431 | the trimmed convolution of a pulse at p puts the tap of lag `t - p` at sample t (zero beyond `side`): the trim aligns lag 0 with the pulse |
| Framer.Padded | Rnn.py:328-329 | the padded row is `input_size - 1` samples longer |
| Framer.Frames | Rnn.py:330-333 | one window per time step, window t being the padded slice `[t, t + input_size)` |
| Framer.Window | Rnn.py:329-333 | each window has `input_size` samples (their contents are in WindowAt) |
| Framer.WindowAt | Rnn.py:329-333 | entry j of window t is `x[t - (input_size-1) + j]` when that index is not negative and 0 otherwise; the last entry is `x[t]` |
| Framer.WindowSlides | Rnn.py:331-333 | consecutive windows share all but one sample |
| Framer.SlidingShape | Rnn.py:320-334 | the framing loop fills a (batch, T, input_size) array whose entry `[b, t, j]` is entry j of window t of row b |
| Decoder.PaddedInput | Rnn.py:560-561 | the padded input is `overlap` samples longer and begins with the input |
| Decoder.TruncationAt | Rnn.py:571 | a truncation inside the input holds the input's samples, then the zero tail, and is cut short only by the end of the tail |
| Decoder.BlockInput | Rnn.py:571-574 | the block handed to the detector is the state's dummy start block, then the truncation at `idx`, then the dummy end block, and its length is the sum of the three |
| Decoder.DecodeBlock | Rnn.py:572-578 | a block keeps at most `eval_length` decisions, and exactly that many when the detector yields at least that many on it |
| Decoder.DecodeOneBlock | Rnn.py:570-578 | one pass of the evaluation loop body cuts, frames and classifies the block exactly as DecodeBlock specifies |
| Decoder.RecoverState | Rnn.py:582-587 | the state recovery of the loop body yields exactly NextState, whose meaning is NextStateSpec |
| Decoder.NextState | Rnn.py:583-587 | the recovered state always indexes a dummy start block |
| Decoder.NextStateSpec | Rnn.py:583-587 | the next state is the index of the first label row equal to the last `state_num` decisions, and 0 when no row is |
| Decoder.NextStateOfLabel | Rnn.py:583-584 | with distinct label rows, decisions ending in the label of state s lead to state s |
| Decoder.FrameBlock | Rnn.py:575 | the framing of one block equals its windows |
| Decoder.Decode | Rnn.py:552-589 | the reference decisions: none for an empty input, and otherwise they begin with the first block decoded in state 0 (the block layout is in DecodeBlocks) |
| Decoder.Evaluation | Rnn.py:552-589 | the evaluation loop returns exactly the reference decisions: blocks from position 0 in state 0, each in the state recovered from the decisions before it |
| Decoder.BlocksExtends | Rnn.py:580 | decisions are only appended: earlier decisions are never changed |
| Decoder.DecodeLength | Rnn.py:569-580 | the decoder emits at most `ceil(x_len / eval_length) * eval_length` decisions, and exactly that many when the detector yields at least `eval_length` decisions on every block cut from the input |
| Decoder.PerFrameCovers | Rnn.py:571-578 | a detector that answers one decision per frame, with a dummy end block at least `eval_length` long, yields enough decisions on every block |
| Decoder.DecodeBlocks | Rnn.py:566-587 | block k occupies decisions `[k*eval, (k+1)*eval)` and is the detector's decision on the block at `k*eval`, taken in state 0 for k = 0 and otherwise in the state recovered from all decisions before it |

## Left out

- The random initial encoder state (Rnn.py:346) is the parameter `init` of `Encoder.EncoderConstrain`. The caller is expected to draw it from the states of the table.
- White-noise generation, the noise scale and the SNR law (Rnn.py:415-422) involve random numbers, square roots and powers of ten. The scaled white-noise vector is an input of `Noise.AcgnMis`.
- The per-lag coefficient formulas (Rnn.py:203-208, 405) and the scaling by the square root of 10 (Rnn.py:210) are floating-point numerics. They are folded into the lag function `g`, and only the index layout is modelled.
- Floating point is modelled by Dafny reals. Rounding is not modelled. The precoder works on integers, since its sums are exact integers in floating point.
- The GRU detector and `codeword_threshold` (Rnn.py:576-578) are the abstract function `classify` of `Decoder.Detector`. `codeword_threshold` comes from `lib/utils.py`, which is not part of this model.
- `lib/utils.py` (`find_index`) and `lib/Constant.py` (the encoder, channel and dummy tables) are not part of this model. The tables are parameters with well-formedness predicates.
- Decoder.Evaluation models the batch of one row that the source evaluates. The framing of that row goes through the batch method `Framer.SlidingShape`.
- Channel.E2pr4Channel requires a non-empty word, as does Channel.E2pr4. The source returns `state[0]` (Rnn.py:393), and for an empty word `state` is still the integer `ini_state`, so indexing it raises an error.
- Channel.E2pr4Channel requires at least two in/out columns. With fewer, the stride `in_out.shape[1] / 2` is 0 and the source's `range` raises an error.
- Taps.IsiCoefDerivation, Taps.LorentzianDiChannel, Noise.Stage and Noise.AcgnMis use the intended rotation and trim, not the ones as written. They differ only for `side = 0` (one or two taps): there the source builds `[g(0), g(0)]` or `[g(0), 0, g(0)]` and its trim-and-reshape raises (see Findings; the as-written behaviour is Taps.RotateAsWritten and Noise.TrimAsWritten).
- Encoder.EncoderConstrain does not model numpy's behaviour after `find_index` returns none. The source then indexes with `None` and fails later; the model stops with a failure naming the position and state.
- Training and validation batching, the training loop, argument parsing, device handling and result files (Rnn.py:20-158, 217-318, 441-550, 591-599) are orchestration and I/O outside the core.

## Findings

| source | as written | input that shows it | evidently intended | confidence | as-written member | corrected member |
|---|---|---|---|---|---|---|
| Rnn.py:212-213, 407-408 | `ori[:, -side:]` with `side = 0` is `ori[:, 0:]`, the whole vector, so the rotation appends the zero-lag tap to the whole vector | `tap_isi_num = 1` (or `tap_lor_num = 1`): the result is `[g(0), g(0)]`, two taps; `tap_isi_num = 2`: the lag loop writes `[g(0), 0]` and the result is `[g(0), 0, g(0)]`, three taps | an empty negative-lag part, giving the one-tap vector `[g(0)]` | high, not executed | Taps.RotateAsWrittenSingleTap, Taps.RotateAsWrittenTwoTaps | Taps.CentredTaps |
| Rnn.py:427-437 | the slice `[side:-side]` with `side = 0` is `[0:0]`, which is empty | `tap_isi_num = 1`: the noise colouring slice is empty and `.reshape(codeword.shape)` fails for any non-empty codeword | no trimming when `side = 0`, so the stage keeps the codeword length | high, not executed | Noise.StageAsWrittenSingleTap | Noise.StageLength |
