/** The table-driven constrained encoder (a Markov chain over encoder
    states): information bits are read in chunks of `numIn` symbols, each
    chunk is looked up among the input rows of the current state, the
    matching output row is written into its codeword slot, and the state
    moves to the row's next state. */
module Encoder {
  import opened Common

  /** The rows of one encoder state: input tuples, output tuples and next
      states, row by row. */
  datatype StateTable = StateTable(input: seq<seq<int>>, output: seq<seq<int>>, nextState: seq<int>)

  /** The encoder configuration: input and output tuple widths and the
      table of every state, keyed by state id. */
  datatype EncoderMachine = EncoderMachine(numIn: nat, numOut: nat, table: map<int, StateTable>)

  /** The chunk at `position` matches no input row of `state`. */
  datatype EncodeError = NoMatchingInput(position: nat, state: int)

  predicate TableValid(m: EncoderMachine, t: StateTable)
  {
    |t.input| == |t.output| == |t.nextState| &&
    forall r :: 0 <= r < |t.input| ==>
      |t.input[r]| == m.numIn && |t.output[r]| == m.numOut && t.nextState[r] in m.table
  }

  /** Well-formed configuration: non-zero widths, rectangular rows, and
      every next state is a state of the table. */
  predicate Valid(m: EncoderMachine)
  {
    m.numIn >= 1 && m.numOut >= 1 &&
    forall s {:trigger m.table[s]} :: s in m.table ==> TableValid(m, m.table[s])
  }

  /** One transition: the output tuple and next state for `chunk` read in
      state `s`, or None when no input row equals the chunk. */
  function EncodeStep(m: EncoderMachine, s: int, chunk: seq<int>): (r: Option<(seq<int>, int)>)
    requires Valid(m) && s in m.table
    ensures r.Some? ==> |chunk| == m.numIn && |r.value.0| == m.numOut && r.value.1 in m.table
  {
    var t := m.table[s];
    match FindIndex(t.input, chunk)
    case None => None
    case Some(k) => Some((t.output[k], t.nextState[k]))
  }

  /** A transition exists exactly when the chunk is one of the state's
      input rows; it is then a full chunk, and the step follows a row whose
      input is the chunk. */
  lemma EncodeStepSpec(m: EncoderMachine, s: int, chunk: seq<int>)
    requires Valid(m) && s in m.table
    ensures var t := m.table[s];
            var r := EncodeStep(m, s, chunk);
            (r.Some? <==> chunk in t.input) &&
            (r.Some? ==>
               |chunk| == m.numIn &&
               exists k :: 0 <= k < |t.input| && t.input[k] == chunk && r.value == (t.output[k], t.nextState[k]))
  {
    var t := m.table[s];
    FindIndexSpec(t.input, chunk);
    var f := FindIndex(t.input, chunk);
    if f.Some? {
      assert t.input[f.value] == chunk;
    } else {
      assert chunk !in t.input by {
        forall k | 0 <= k < |t.input| ensures t.input[k] != chunk {}
      }
    }
  }

  function Prepend(p: seq<int>, r: Result<seq<int>, EncodeError>): Result<seq<int>, EncodeError>
  {
    match r
    case Success(c) => Success(p + c)
    case Failure(e) => Failure(e)
  }

  /** The transition taken from state `s` on the chunk of `info` at
      position `i` (None also for a state outside the table). */
  function StepAt(m: EncoderMachine, info: seq<int>): (int, nat) -> Option<(seq<int>, int)>
    requires Valid(m)
  {
    (s: int, i: nat) => if s in m.table then EncodeStep(m, s, SliceClip(info, i, m.numIn)) else None
  }

  /** The codeword for positions i.. of a sequence of `len` symbols read
      `n` at a time, started in state `s`, for any step function. */
  function Chain(step: (int, nat) -> Option<(seq<int>, int)>, n: nat, len: nat, i: nat, s: int)
    : (res: Result<seq<int>, EncodeError>)
    requires n >= 1
    ensures res.Failure? ==> i <= res.error.position < len
    decreases len - i
  {
    if i >= len then Success([])
    else match step(s, i)
      case None => Failure(NoMatchingInput(i, s))
      case Some((out, next)) => Prepend(out, Chain(step, n, len, i + n, next))
  }

  /** The state reached after `k` steps from position `i` in state `s`, or
      None when one of those steps is missing. */
  function ChainWalk(step: (int, nat) -> Option<(seq<int>, int)>, n: nat, i: nat, s: int, k: nat): Option<int>
    decreases k
  {
    if k == 0 then Some(s)
    else match step(s, i)
      case None => None
      case Some((_, next)) => ChainWalk(step, n, i + n, next, k - 1)
  }

  /** Every step taken before `len` reads a whole chunk and writes `w`
      symbols. */
  ghost predicate Shaped(step: (int, nat) -> Option<(seq<int>, int)>, n: nat, w: nat, len: nat)
  {
    forall s: int, i: nat :: i < len && step(s, i).Some? ==> i + n <= len && |step(s, i).value.0| == w
  }

  /** The encoder's steps are shaped: a transition needs a full chunk and
      writes one output tuple. */
  lemma StepAtShaped(m: EncoderMachine, info: seq<int>)
    requires Valid(m)
    ensures Shaped(StepAt(m, info), m.numIn, m.numOut, |info|)
  {
    forall s: int, i: nat | i < |info| && StepAt(m, info)(s, i).Some?
      ensures i + m.numIn <= |info| && |StepAt(m, info)(s, i).value.0| == m.numOut
    {
      assert |SliceClip(info, i, m.numIn)| == m.numIn;
    }
  }

  /** The codeword for `info[i..]` started in state `s`. */
  function EncodeFrom(m: EncoderMachine, info: seq<int>, i: nat, s: int): (res: Result<seq<int>, EncodeError>)
    requires Valid(m)
    ensures res.Failure? ==> i <= res.error.position < |info|
  {
    Chain(StepAt(m, info), m.numIn, |info|, i, s)
  }

  /** The reference the encoding loop is proved against. */
  function Encode(m: EncoderMachine, info: seq<int>, init: int): (res: Result<seq<int>, EncodeError>)
    requires Valid(m) && init in m.table
    ensures res.Failure? ==> res.error.position < |info|
  {
    EncodeFrom(m, info, 0, init)
  }

  /** The state reached after `k` chunks read from position `i` in state
      `s`, or None when one of those chunks has no matching row. */
  function Walk(m: EncoderMachine, info: seq<int>, i: nat, s: int, k: nat): Option<int>
    requires Valid(m)
  {
    ChainWalk(StepAt(m, info), m.numIn, i, s, k)
  }

  /** The encoding loop. The initial state, drawn at random by the source,
      is the parameter `init`. */
  method EncoderConstrain(m: EncoderMachine, info: seq<int>, init: int) returns (res: Result<seq<int>, EncodeError>)
    requires Valid(m) && init in m.table
    ensures res == Encode(m, info, init)
  {
    var infoLen := |info|;
    var codeword := new int[infoLen * m.numOut / m.numIn](_ => 0);
    var state := init;
    // `lo` is the slot offset numOut * idx of the chunk being written
    var i, idx, lo := 0, 0, 0;
    ghost var written: seq<int> := [];
    PrependNil(Encode(m, info, init));
    while i < infoLen
      invariant 0 <= i <= infoLen && i == idx * m.numIn && lo == idx * m.numOut
      invariant state in m.table
      invariant lo <= codeword.Length && codeword[..lo] == written
      invariant Encode(m, info, init) == Prepend(written, EncodeFrom(m, info, i, state))
    {
      var inputSym := SliceClip(info, i, m.numIn);
      var idxIn := FindIndex(m.table[state].input, inputSym);
      if idxIn.None? {
        UnfoldMiss(m, info, i, state);
        return Failure(NoMatchingInput(i, state));
      }
      var outputSym := m.table[state].output[idxIn.value];
      var next := m.table[state].nextState[idxIn.value];
      Advance(m, info, init, i, state, idxIn.value, written);
      SlotFits(idx, i, lo, m.numIn, m.numOut, infoLen);
      WriteSlot(codeword, lo, outputSym);
      written := written + outputSym;
      state := next;
      i, idx, lo := i + m.numIn, idx + 1, lo + m.numOut;
    }
    assert codeword.Length == lo by {
      Rescale(idx, m.numIn, m.numOut);
      MulDivCancel(lo, m.numIn);
    }
    assert codeword[..] == written;
    assert written + [] == written;
    res := Success(codeword[..]);
  }

  /** One loop step: the reference, already unfolded over the tuples
      written so far, unfolds by one more output tuple. */
  lemma Advance(m: EncoderMachine, info: seq<int>, init: int, i: nat, s: int, k: nat, written: seq<int>)
    requires Valid(m) && init in m.table && s in m.table && i < |info|
    requires FindIndex(m.table[s].input, SliceClip(info, i, m.numIn)) == Some(k)
    requires Encode(m, info, init) == Prepend(written, EncodeFrom(m, info, i, s))
    ensures i + m.numIn <= |info| && |m.table[s].output[k]| == m.numOut && m.table[s].nextState[k] in m.table
    ensures Encode(m, info, init) ==
            Prepend(written + m.table[s].output[k], EncodeFrom(m, info, i + m.numIn, m.table[s].nextState[k]))
  {
    UnfoldStep(m, info, i, s, k);
    PrependTwice(written, m.table[s].output[k], EncodeFrom(m, info, i + m.numIn, m.table[s].nextState[k]));
  }

  /** The slot of chunk `idx` lies inside a codeword of
      infoLen * numOut / numIn symbols when the chunk is whole. */
  lemma SlotFits(idx: nat, i: nat, lo: nat, n: nat, w: nat, infoLen: nat)
    requires n > 0 && i == idx * n && lo == idx * w && i + n <= infoLen
    ensures i + n == (idx + 1) * n && lo + w == (idx + 1) * w
    ensures lo + w <= infoLen * w / n
  {
    Slot(idx + 1, n);
    Slot(idx + 1, w);
    MulBelowScaled(idx + 1, n, w, infoLen);
  }

  /** codeword[lo : lo + |row|] = row */
  method WriteSlot(a: array<int>, lo: nat, row: seq<int>)
    requires lo + |row| <= a.Length
    modifies a
    ensures a[..lo] == old(a[..lo]) && a[lo..lo + |row|] == row && a[..lo + |row|] == old(a[..lo]) + row
    ensures a[lo + |row|..] == old(a[lo + |row|..])
  {
    forall j | 0 <= j < |row| {
      a[lo + j] := row[j];
    }
    assert a[..lo + |row|] == a[..lo] + a[lo..lo + |row|];
  }

  /** An unmatched chunk makes the reference fail at that position. */
  lemma UnfoldMiss(m: EncoderMachine, info: seq<int>, i: nat, s: int)
    requires Valid(m) && s in m.table && i < |info|
    requires FindIndex(m.table[s].input, SliceClip(info, i, m.numIn)).None?
    ensures EncodeFrom(m, info, i, s) == Failure(NoMatchingInput(i, s))
  {}

  /** One matched chunk unfolds the reference by one output tuple. */
  lemma UnfoldStep(m: EncoderMachine, info: seq<int>, i: nat, s: int, k: nat)
    requires Valid(m) && s in m.table && i < |info|
    requires FindIndex(m.table[s].input, SliceClip(info, i, m.numIn)) == Some(k)
    ensures i + m.numIn <= |info|
    ensures EncodeFrom(m, info, i, s) ==
            Prepend(m.table[s].output[k], EncodeFrom(m, info, i + m.numIn, m.table[s].nextState[k]))
  {
    FindIndexSpec(m.table[s].input, SliceClip(info, i, m.numIn));
    assert |m.table[s].input[k]| == m.numIn;
  }

  lemma Rescale(k: int, a: int, b: int)
    ensures (k * a) * b == (k * b) * a
  {}

  /** Peeling one chunk of `n` symbols off `x` symbols. */
  lemma ChunkCount(x: int, n: int, w: int)
    requires n > 0 && x >= n
    ensures x % n == (x - n) % n
    ensures x / n == (x - n) / n + 1
    ensures x / n * w == (x - n) / n * w + w
  {
    DivPlusOne(x - n, n);
  }

  lemma QuotientPositive(x: int, n: int)
    requires n > 0 && x > 0 && x % n == 0
    ensures x / n >= 1
  {
    assert x == x / n * n;
  }

  lemma PrependNil(r: Result<seq<int>, EncodeError>)
    ensures Prepend([], r) == r
  {
    if r.Success? {
      assert [] + r.value == r.value;
    }
  }

  lemma PrependTwice(p: seq<int>, o: seq<int>, r: Result<seq<int>, EncodeError>)
    ensures Prepend(p, Prepend(o, r)) == Prepend(p + o, r)
  {
    if r.Success? {
      assert p + (o + r.value) == (p + o) + r.value;
    }
  }

  /** Length law of a shaped chain. */
  lemma {:induction false} ChainLength(step: (int, nat) -> Option<(seq<int>, int)>, n: nat, w: nat, len: nat, i: nat, s: int)
    requires n >= 1 && Shaped(step, n, w, len) && i <= len
    requires Chain(step, n, len, i, s).Success?
    ensures (len - i) % n == 0
    ensures |Chain(step, n, len, i, s).value| == (len - i) / n * w
    decreases len - i
  {
    if i < len {
      var next := step(s, i).value.1;
      ChainLength(step, n, w, len, i + n, next);
      ChunkCount(len - i, n, w);
    }
  }

  /** Length law: a successful encoding consumed whole chunks, and the
      codeword holds `numOut` symbols per chunk. */
  lemma EncodeLength(m: EncoderMachine, info: seq<int>, i: nat, s: int)
    requires Valid(m) && i <= |info|
    requires EncodeFrom(m, info, i, s).Success?
    ensures (|info| - i) % m.numIn == 0
    ensures |EncodeFrom(m, info, i, s).value| == (|info| - i) / m.numIn * m.numOut
  {
    StepAtShaped(m, info);
    ChainLength(StepAt(m, info), m.numIn, m.numOut, |info|, i, s);
  }

  /** Chunk `k` of a successful encoding sits at codeword positions
      [numOut*k, numOut*(k+1)) and is the output row selected for that
      chunk in the state reached after the first `k` chunks; the state then
      follows that row's next state. */
  lemma EncodeChunk(m: EncoderMachine, info: seq<int>, i: nat, s: int, k: nat)
    requires Valid(m) && i <= |info|
    requires EncodeFrom(m, info, i, s).Success?
    requires k < (|info| - i) / m.numIn
    ensures Walk(m, info, i, s, k).Some?
    ensures (k + 1) * m.numOut <= |EncodeFrom(m, info, i, s).value|
    ensures var t := Walk(m, info, i, s, k).value;
            t in m.table &&
            var step := EncodeStep(m, t, SliceClip(info, i + k * m.numIn, m.numIn));
            step.Some? &&
            step.value.0 == EncodeFrom(m, info, i, s).value[k * m.numOut..(k + 1) * m.numOut] &&
            Walk(m, info, i, s, k + 1) == Some(step.value.1)
  {
    EncodeLength(m, info, i, s);
    MulMonotone(k + 1, (|info| - i) / m.numIn, m.numOut);
    Slot(k + 1, m.numOut);
    StepAtShaped(m, info);
    ChunkAt(StepAt(m, info), m.numIn, m.numOut, |info|, i, s, k, k * m.numOut, i + k * m.numIn);
  }

  /** Chunk `k` of a shaped chain, with the slot offset `lo` and chunk
      position `pos` named, so that the induction only does linear
      arithmetic. */
  lemma {:induction false} ChunkAt(step: (int, nat) -> Option<(seq<int>, int)>, n: nat, w: nat, len: nat,
                                   i: nat, s: int, k: nat, lo: nat, pos: nat)
    requires n >= 1 && w >= 1 && Shaped(step, n, w, len) && i <= len
    requires Chain(step, n, len, i, s).Success?
    requires lo == k * w && pos == i + k * n
    requires lo + w <= |Chain(step, n, len, i, s).value|
    ensures ChainWalk(step, n, i, s, k).Some?
    ensures var t := ChainWalk(step, n, i, s, k).value;
            step(t, pos).Some? &&
            step(t, pos).value.0 == Chain(step, n, len, i, s).value[lo..lo + w] &&
            ChainWalk(step, n, i, s, k + 1) == Some(step(t, pos).value.1)
    decreases k
  {
    var c := Chain(step, n, len, i, s).value;
    assert i < len;
    var out, next := step(s, i).value.0, step(s, i).value.1;
    var rest := Chain(step, n, len, i + n, next);
    assert c == out + rest.value && |out| == w;
    if k == 0 {
      assert lo == 0 && pos == i;
      assert c[lo..lo + w] == out;
    } else {
      Slot(k, n);
      Slot(k, w);
      ChunkAt(step, n, w, len, i + n, next, k - 1, lo - w, pos);
      assert ChainWalk(step, n, i, s, k) == ChainWalk(step, n, i + n, next, k - 1);
      SliceAfter(out, rest.value, lo - w, lo);
      assert c[lo..lo + w] == rest.value[lo - w..lo];
    }
  }

  /** Slot arithmetic: slot k - 1 shifted by one width is slot k. */
  lemma Slot(k: int, w: int)
    ensures (k - 1) * w + w == k * w && k * w + w == (k + 1) * w
  {}

  lemma SliceAfter(p: seq<int>, q: seq<int>, lo: nat, hi: nat)
    requires lo <= hi <= |q|
    ensures (p + q)[|p| + lo..|p| + hi] == q[lo..hi]
  {}

  /** A shaped chain succeeds exactly when the length left is a whole
      number of steps and the walk over them never misses. */
  lemma {:induction false} ChainSucceedsIff(step: (int, nat) -> Option<(seq<int>, int)>, n: nat, w: nat,
                                            len: nat, i: nat, s: int)
    requires n >= 1 && i <= len && Shaped(step, n, w, len)
    ensures Chain(step, n, len, i, s).Success? <==>
            (len - i) % n == 0 && ChainWalk(step, n, i, s, (len - i) / n).Some?
    decreases len - i
  {
    var x := len - i;
    if i < len {
      if step(s, i).None? {
        assert Chain(step, n, len, i, s).Failure?;
        if x % n == 0 {
          QuotientPositive(x, n);
          assert ChainWalk(step, n, i, s, x / n).None?;
        }
      } else {
        var next := step(s, i).value.1;
        assert i + n <= len;
        ChunkCount(x, n, 0);
        ChainSucceedsIff(step, n, w, len, i + n, next);
        assert Chain(step, n, len, i, s).Success? <==> Chain(step, n, len, i + n, next).Success?;
        assert ChainWalk(step, n, i, s, x / n) == ChainWalk(step, n, i + n, next, (x - n) / n);
      }
    } else {
      DivUnique(0, n, 0, 0);
    }
  }

  /** Encoding succeeds exactly when the information length is a whole
      number of chunks and every chunk along the walk has a matching row. */
  lemma EncodeSucceedsIff(m: EncoderMachine, info: seq<int>, i: nat, s: int)
    requires Valid(m) && i <= |info|
    ensures EncodeFrom(m, info, i, s).Success? <==>
            (|info| - i) % m.numIn == 0 && Walk(m, info, i, s, (|info| - i) / m.numIn).Some?
  {
    StepAtShaped(m, info);
    ChainSucceedsIff(StepAt(m, info), m.numIn, m.numOut, |info|, i, s);
  }

  /** The information length chosen for a training block:
      ceil((blockLength - dummyEnd) / numOut) * numIn. */
  function InfoLength(m: EncoderMachine, blockLength: nat, dummyEnd: nat): nat
    requires Valid(m) && dummyEnd <= blockLength
  {
    CeilDiv(blockLength - dummyEnd, m.numOut) * m.numIn
  }

  /** A training block encodes enough information that the codeword covers
      the prefix of `blockLength - dummyEnd` symbols taken from it. */
  lemma TrainingCodewordCovers(m: EncoderMachine, info: seq<int>, init: int, blockLength: nat, dummyEnd: nat)
    requires Valid(m) && init in m.table && dummyEnd <= blockLength
    requires |info| == InfoLength(m, blockLength, dummyEnd)
    requires Encode(m, info, init).Success?
    ensures |Encode(m, info, init).value| >= blockLength - dummyEnd
  {
    var q := CeilDiv(blockLength - dummyEnd, m.numOut);
    EncodeLength(m, info, 0, init);
    MulDivCancel(q, m.numIn);
  }
}
