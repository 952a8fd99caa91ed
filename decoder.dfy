/** Block-wise evaluation of the trained detector over a long read-back.
    The input is padded with `overlap` zeros. Every `evalLength` samples a
    block is cut: the known dummy samples for the current state, then
    `evalLength + overlap` samples of the input, then the fixed dummy end.
    The block is framed into sliding windows and classified, and the first
    `evalLength` decisions are kept. The state for the next block is the
    row of the state-label table equal to the last decisions, or 0 when no
    row is. The detector network and its threshold are one function of the
    framed block. */
module Decoder {
  import opened Common
  import opened Framer

  datatype Detector = Detector(
    evalLength: nat,
    overlap: nat,
    inputSize: nat,
    dummyStart: seq<seq<real>>,
    dummyEndEval: seq<real>,
    stateLabel: seq<seq<int>>,
    labelWidth: nat,
    classify: seq<seq<real>> -> seq<int>)

  /** Well-formed configuration: a positive block and window length, one
      dummy prefix per labelled state and for the initial state 0, and a
      rectangular label table. */
  predicate Valid(d: Detector)
  {
    d.evalLength >= 1 && d.inputSize >= 1 &&
    |d.dummyStart| >= 1 && |d.stateLabel| <= |d.dummyStart| &&
    forall r :: 0 <= r < |d.stateLabel| ==> |d.stateLabel[r]| == d.labelWidth
  }

  /** The detector's decisions on the framed block cut at `idx` in
      `state`. */
  function Classified(d: Detector, xp: seq<real>, idx: nat, state: nat): seq<int>
    requires Valid(d) && state < |d.dummyStart|
  {
    d.classify(Frames(BlockInput(d, xp, idx, state), d.inputSize))
  }

  /** The detector yields at least `evalLength` decisions on every block
      the decoder cuts from `x`, in every state. */
  ghost predicate Covers(d: Detector, x: seq<real>)
    requires Valid(d)
  {
    forall idx: nat, s: nat :: idx < |x| && s < |d.dummyStart| ==>
      |Classified(d, PaddedInput(d, x), idx, s)| >= d.evalLength
  }

  /** The input followed by `overlap` zero tail samples. */
  function PaddedInput(d: Detector, x: seq<real>): (xp: seq<real>)
    ensures |xp| == |x| + d.overlap
    ensures xp[..|x|] == x
  {
    x + Repeat(0.0, d.overlap)
  }

  /** `x[idx : idx + evalLength + overlap]` of the padded input. */
  function Truncation(d: Detector, xp: seq<real>, idx: nat): seq<real>
  {
    SliceClip(xp, idx, d.evalLength + d.overlap)
  }

  /** Inside the input the truncation is the input's samples, then the zero
      tail; it is cut short only by the end of the tail. */
  lemma TruncationAt(d: Detector, x: seq<real>, idx: nat)
    requires idx < |x|
    ensures |Truncation(d, PaddedInput(d, x), idx)| == Min(d.evalLength + d.overlap, |x| + d.overlap - idx)
    ensures forall j :: 0 <= j < |Truncation(d, PaddedInput(d, x), idx)| ==>
              Truncation(d, PaddedInput(d, x), idx)[j] == if idx + j < |x| then x[idx + j] else 0.0
  {
    var xp := PaddedInput(d, x);
    assert forall p :: |x| <= p < |xp| ==> xp[p] == 0.0;
  }

  /** The block handed to the detector in `state`: the state's dummy start
      block, the truncation at `idx`, then the dummy end block. */
  function BlockInput(d: Detector, xp: seq<real>, idx: nat, state: nat): (b: seq<real>)
    requires state < |d.dummyStart|
    ensures var head := d.dummyStart[state];
            var t := Truncation(d, xp, idx);
            |b| == |head| + |t| + |d.dummyEndEval| &&
            b[..|head|] == head && b[|head|..|head| + |t|] == t &&
            b[|b| - |d.dummyEndEval|..] == d.dummyEndEval
  {
    d.dummyStart[state] + Truncation(d, xp, idx) + d.dummyEndEval
  }

  /** The decisions kept from one block: at most `evalLength`. */
  function DecodeBlock(d: Detector, xp: seq<real>, idx: nat, state: nat): (blk: seq<int>)
    requires Valid(d) && state < |d.dummyStart|
    ensures |blk| <= d.evalLength
    ensures |Classified(d, xp, idx, state)| >= d.evalLength ==> |blk| == d.evalLength
  {
    SliceClip(Classified(d, xp, idx, state), 0, d.evalLength)
  }

  /** The state for the next block, always the index of a dummy start
      block. */
  function NextState(d: Detector, dec: seq<int>): (s: nat)
    requires Valid(d)
    ensures s < |d.dummyStart|
  {
    match FindIndex(d.stateLabel, PyLast(dec, d.labelWidth))
    case None => 0
    case Some(i) => i
  }

  /** The next state is the first label row equal to the last `labelWidth`
      decisions, and 0 when no row is. */
  lemma NextStateSpec(d: Detector, dec: seq<int>)
    requires Valid(d)
    ensures var s := NextState(d, dec);
            var last := PyLast(dec, d.labelWidth);
            (s < |d.stateLabel| && d.stateLabel[s] == last &&
             forall r :: 0 <= r < s ==> d.stateLabel[r] != last) ||
            (s == 0 && forall r :: 0 <= r < |d.stateLabel| ==> d.stateLabel[r] != last)
  {
    FindIndexSpec(d.stateLabel, PyLast(dec, d.labelWidth));
  }

  /** With distinct label rows, decisions ending in the label of state s
      lead to state s. */
  lemma NextStateOfLabel(d: Detector, dec: seq<int>, s: nat)
    requires Valid(d) && s < |d.stateLabel|
    requires forall a, b :: 0 <= a < b < |d.stateLabel| ==> d.stateLabel[a] != d.stateLabel[b]
    requires PyLast(dec, d.labelWidth) == d.stateLabel[s]
    ensures NextState(d, dec) == s
  {
    NextStateSpec(d, dec);
  }

  // ---- the block loop ----

  /** The block loop for a block decoder `blockAt` (the decisions for the
      block at a position, decoded in a state) and a state-recovery rule
      `next`: the blocks at `idx`, `idx + e`, ... below `xLen`, appended to
      the decisions `dec` made so far. */
  function Blocks(blockAt: (nat, nat) -> seq<int>, next: seq<int> -> nat,
                  xLen: nat, e: nat, idx: nat, state: nat, dec: seq<int>): seq<int>
    requires e >= 1
    decreases xLen - idx
  {
    if idx >= xLen then dec
    else
      var dec' := dec + blockAt(idx, state);
      Blocks(blockAt, next, xLen, e, idx + e, next(dec'), dec')
  }

  /** The detector's block decoder on the padded input. A state without a
      dummy start block, which `NextState` never yields, is read as 0. */
  function BlockFn(d: Detector, xp: seq<real>): (nat, nat) -> seq<int>
    requires Valid(d)
  {
    (idx: nat, s: nat) => DecodeBlock(d, xp, idx, if s < |d.dummyStart| then s else 0)
  }

  /** The detector's state-recovery rule. */
  function NextFn(d: Detector): seq<int> -> nat
    requires Valid(d)
  {
    dec => NextState(d, dec)
  }

  /** The reference the evaluation loop is proved against: the decisions
      for the whole input, starting in state 0. */
  function Decode(d: Detector, x: seq<real>): (dec: seq<int>)
    requires Valid(d)
    ensures |x| == 0 ==> dec == []
    ensures |x| >= 1 ==> var first := DecodeBlock(d, PaddedInput(d, x), 0, 0);
                         |dec| >= |first| && dec[..|first|] == first
  {
    var blockAt := BlockFn(d, PaddedInput(d, x));
    var first := blockAt(0, 0);
    BlocksExtends(blockAt, NextFn(d), |x|, d.evalLength, d.evalLength, NextState(d, first), first);
    assert [] + first == first;
    Blocks(blockAt, NextFn(d), |x|, d.evalLength, 0, 0, [])
  }

  /** The evaluation loop. */
  method Evaluation(d: Detector, x: seq<real>) returns (dec: seq<int>)
    requires Valid(d)
    ensures dec == Decode(d, x)
  {
    var xLen := |x|;
    var xp := x + Repeat(0.0, d.overlap);
    var state: nat := 0;
    dec := [];
    var idx := 0;
    while idx < xLen
      invariant state < |d.dummyStart|
      invariant Decode(d, x) == Blocks(BlockFn(d, xp), NextFn(d), xLen, d.evalLength, idx, state, dec)
      decreases xLen - idx
    {
      var decBlock := DecodeOneBlock(d, xp, idx, state);
      BlocksStep(BlockFn(d, xp), NextFn(d), xLen, d.evalLength, idx, state, dec);
      assert BlockFn(d, xp)(idx, state) == decBlock;
      dec := dec + decBlock;
      state := RecoverState(d, dec);
      assert NextFn(d)(dec) == state;
      idx := idx + d.evalLength;
    }
  }

  /** One block: the truncation between the dummy blocks, framed, then
      classified, keeping the first `evalLength` decisions. */
  method DecodeOneBlock(d: Detector, xp: seq<real>, idx: nat, state: nat) returns (decBlock: seq<int>)
    requires Valid(d) && state < |d.dummyStart|
    ensures decBlock == DecodeBlock(d, xp, idx, state)
  {
    var truncation := SliceClip(xp, idx, d.evalLength + d.overlap);
    var block := d.dummyStart[state] + truncation + d.dummyEndEval;
    var frames := FrameBlock(block, d.inputSize);
    decBlock := SliceClip(d.classify(frames), 0, d.evalLength);
  }

  /** The state for the next block: the label row equal to the last
      `labelWidth` decisions, or 0 when there is none. */
  method RecoverState(d: Detector, dec: seq<int>) returns (state: nat)
    requires Valid(d)
    ensures state == NextState(d, dec)
  {
    var found := FindIndex(d.stateLabel, PyLast(dec, d.labelWidth));
    if found.None? {
      state := 0;
    } else {
      state := found.value;
    }
  }

  /** The framing of one block for the detector: the single-row batch
      framed by the sliding window, read back row by row. */
  method FrameBlock(block: seq<real>, w: nat) returns (frames: seq<seq<real>>)
    requires w >= 1
    ensures frames == Frames(block, w)
  {
    var framed := SlidingShape([block], |block|, w);
    frames := seq(|block|, t requires 0 <= t < |block| reads framed =>
                seq(w, j requires 0 <= j < w reads framed => framed[0, t, j]));
    forall t | 0 <= t < |block|
      ensures frames[t] == Frames(block, w)[t]
    {
      assert [block][0] == block;
      assert forall j :: 0 <= j < w ==> frames[t][j] == framed[0, t, j];
    }
  }

  /** One block of the loop, unfolded. */
  lemma BlocksStep(blockAt: (nat, nat) -> seq<int>, next: seq<int> -> nat,
                   xLen: nat, e: nat, idx: nat, state: nat, dec: seq<int>)
    requires e >= 1 && idx < xLen
    ensures Blocks(blockAt, next, xLen, e, idx, state, dec) ==
            Blocks(blockAt, next, xLen, e, idx + e, next(dec + blockAt(idx, state)), dec + blockAt(idx, state))
  {}

  // ---- properties of the decisions ----

  /** Every block decision has at most `e` entries. */
  ghost predicate AtMost(blockAt: (nat, nat) -> seq<int>, e: nat)
  {
    forall i, s :: |blockAt(i, s)| <= e
  }

  /** Every block decision at a position below `xLen` has exactly `e`
      entries. */
  ghost predicate Exactly(blockAt: (nat, nat) -> seq<int>, e: nat, xLen: nat)
  {
    forall i: nat, s: nat :: i < xLen ==> |blockAt(i, s)| == e
  }

  /** Decisions are only ever appended. */
  lemma {:induction false} BlocksExtends(blockAt: (nat, nat) -> seq<int>, next: seq<int> -> nat,
                                         xLen: nat, e: nat, idx: nat, state: nat, dec: seq<int>)
    requires e >= 1
    ensures |Blocks(blockAt, next, xLen, e, idx, state, dec)| >= |dec|
    ensures Blocks(blockAt, next, xLen, e, idx, state, dec)[..|dec|] == dec
    decreases xLen - idx
  {
    if idx < xLen {
      var dec' := dec + blockAt(idx, state);
      BlocksExtends(blockAt, next, xLen, e, idx + e, next(dec'), dec');
      assert dec'[..|dec|] == dec;
    }
  }

  /** One block per start position: at most `e` decisions each, and
      exactly `e` each when every block yields `e`. */
  lemma {:induction false} BlocksLength(blockAt: (nat, nat) -> seq<int>, next: seq<int> -> nat,
                                        xLen: nat, e: nat, idx: nat, state: nat, dec: seq<int>)
    requires e >= 1
    ensures AtMost(blockAt, e) ==>
              |Blocks(blockAt, next, xLen, e, idx, state, dec)| <= |dec| + |Starts(xLen, idx, e)| * e
    ensures Exactly(blockAt, e, xLen) ==>
              |Blocks(blockAt, next, xLen, e, idx, state, dec)| == |dec| + |Starts(xLen, idx, e)| * e
    decreases xLen - idx
  {
    if idx < xLen {
      var dec' := dec + blockAt(idx, state);
      BlocksLength(blockAt, next, xLen, e, idx + e, next(dec'), dec');
      var c := |Starts(xLen, idx + e, e)|;
      assert |Starts(xLen, idx, e)| == c + 1;
      MulSucc(c, e);
    }
  }

  /** The decisions `res` hold, from position p, the block at p decoded in
      state `st` when given, and otherwise in the state recovered from the
      decisions before p. */
  predicate BlockPlaced(blockAt: (nat, nat) -> seq<int>, next: seq<int> -> nat, e: nat,
                        res: seq<int>, p: nat, st: Option<nat>)
  {
    var s := if st.Some? then st.value else next(res[..Min(p, |res|)]);
    p + e <= |res| && res[p..p + e] == blockAt(p, s)
  }

  /** With blocks of exactly `e` decisions, block k of the loop sits at
      its start position, decoded in the given state for k = 0 and in the
      state recovered from all decisions before it otherwise. */
  lemma {:induction false} BlocksAt(blockAt: (nat, nat) -> seq<int>, next: seq<int> -> nat,
                                    xLen: nat, e: nat, idx: nat, state: nat, dec: seq<int>, k: nat)
    requires e >= 1 && Exactly(blockAt, e, xLen) && |dec| == idx
    requires k < |Starts(xLen, idx, e)|
    ensures BlockPlaced(blockAt, next, e, Blocks(blockAt, next, xLen, e, idx, state, dec),
                        Starts(xLen, idx, e)[k], if k == 0 then Some(state) else None)
    decreases xLen - idx
  {
    var blk := blockAt(idx, state);
    var dec' := dec + blk;
    var nx := next(dec');
    var res := Blocks(blockAt, next, xLen, e, idx, state, dec);
    assert idx < xLen;
    BlocksStep(blockAt, next, xLen, e, idx, state, dec);
    BlocksExtends(blockAt, next, xLen, e, idx + e, nx, dec');
    assert |blk| == e;
    assert Starts(xLen, idx, e) == [idx] + Starts(xLen, idx + e, e);
    if k == 0 {
      assert res[idx..idx + e] == dec'[idx..idx + e];
    } else {
      var p := Starts(xLen, idx + e, e)[k - 1];
      BlocksAt(blockAt, next, xLen, e, idx + e, nx, dec', k - 1);
      if k == 1 {
        StartsAt(xLen, idx + e, e, 0);
        assert res[..p] == dec';
      }
    }
  }

  /** The detector's blocks have at most `evalLength` decisions, and
      exactly that many inside the input when the detector yields enough
      on every block cut from it. */
  lemma BlockFnLength(d: Detector, x: seq<real>)
    requires Valid(d)
    ensures AtMost(BlockFn(d, PaddedInput(d, x)), d.evalLength)
    ensures Covers(d, x) ==> Exactly(BlockFn(d, PaddedInput(d, x)), d.evalLength, |x|)
  {
    var xp := PaddedInput(d, x);
    var f := BlockFn(d, xp);
    forall i: nat, s: nat
      ensures |f(i, s)| <= d.evalLength && (Covers(d, x) && i < |x| ==> |f(i, s)| == d.evalLength)
    {
      var s' := if s < |d.dummyStart| then s else 0;
      assert f(i, s) == DecodeBlock(d, xp, i, s');
    }
  }

  /** A detector with one decision per frame covers every block once the
      dummy end alone holds `evalLength` samples. */
  lemma PerFrameCovers(d: Detector, x: seq<real>)
    requires Valid(d) && |d.dummyEndEval| >= d.evalLength
    requires forall f :: |d.classify(f)| == |f|
    ensures Covers(d, x)
  {
    forall idx: nat, s: nat | idx < |x| && s < |d.dummyStart|
      ensures |Classified(d, PaddedInput(d, x), idx, s)| >= d.evalLength
    {
      var block := BlockInput(d, PaddedInput(d, x), idx, s);
      assert |Frames(block, d.inputSize)| == |block| >= |d.dummyEndEval|;
    }
  }

  /** The decoder emits `ceil(|x| / evalLength)` blocks: at most
      `evalLength` decisions each, exactly `evalLength` each when the
      detector yields enough on every block cut from the input. */
  lemma DecodeLength(d: Detector, x: seq<real>)
    requires Valid(d)
    ensures |Decode(d, x)| <= CeilDiv(|x|, d.evalLength) * d.evalLength
    ensures Covers(d, x) ==> |Decode(d, x)| == CeilDiv(|x|, d.evalLength) * d.evalLength
  {
    BlockFnLength(d, x);
    BlocksLength(BlockFn(d, PaddedInput(d, x)), NextFn(d), |x|, d.evalLength, 0, 0, []);
    StartsCount(|x|, 0, d.evalLength);
  }

  /** On the whole input: block k occupies decisions
      `[k * evalLength, (k + 1) * evalLength)` and is the detector's
      decision on the block at `k * evalLength`, taken in state 0 for the
      first block and, after that, in the state recovered from all
      decisions before it. */
  lemma DecodeBlocks(d: Detector, x: seq<real>, k: nat)
    requires Valid(d) && Covers(d, x) && k < CeilDiv(|x|, d.evalLength)
    ensures k * d.evalLength + d.evalLength <= |Decode(d, x)|
    ensures Decode(d, x)[k * d.evalLength..k * d.evalLength + d.evalLength] ==
            DecodeBlock(d, PaddedInput(d, x), k * d.evalLength,
                        if k == 0 then 0 else NextState(d, Decode(d, x)[..k * d.evalLength]))
  {
    var xp := PaddedInput(d, x);
    var e := d.evalLength;
    BlockFnLength(d, x);
    StartsCount(|x|, 0, e);
    StartsAt(|x|, 0, e, k);
    BlocksAt(BlockFn(d, xp), NextFn(d), |x|, e, 0, 0, [], k);
    var s := if k == 0 then 0 else NextState(d, Decode(d, x)[..k * e]);
    assert BlockFn(d, xp)(k * e, s) == DecodeBlock(d, xp, k * e, s);
  }
}
