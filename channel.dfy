/** The E2PR4-style channel as a finite-state transducer: starting from the
    configured initial state, every `NumInputSym` positions the channel
    looks up the one row whose from-state is the current state and whose
    input symbol is the current sample, writes that row's output symbol at
    the sample's position, and moves to the row's to-state. */
module Channel {
  import opened Common

  datatype Transition = Transition(from: int, to: int)

  /** The channel configuration. Row r of the transducer is
      `stateMachine[r]` (from-state, to-state) together with `inOut[r]`
      (input symbols, then output symbols; `ioWidth` columns). The state
      label table of the same configuration is read only by the block
      decoder and lives in its detector. */
  datatype ChannelMachine = ChannelMachine(
    stateMachine: seq<Transition>,
    inOut: seq<seq<int>>,
    ioWidth: nat,
    iniState: int)

  datatype ChannelError = NoUniqueRow(position: nat, state: int)

  /** Well-formed configuration: one in/out row per transition, rectangular
      tables, and at least one input column and one more column. */
  predicate Valid(cm: ChannelMachine)
  {
    cm.ioWidth >= 2 && |cm.inOut| == |cm.stateMachine| &&
    forall r :: 0 <= r < |cm.inOut| ==> |cm.inOut[r]| == cm.ioWidth
  }

  /** The stride: half the number of in/out columns, rounded down. */
  function NumInputSym(cm: ChannelMachine): (n: nat)
    requires Valid(cm)
    ensures n >= 1
    ensures 2 * n <= cm.ioWidth <= 2 * n + 1
  {
    cm.ioWidth / 2
  }

  /** Row r leaves `state` on input symbol `sym` (column 0 of in/out). */
  predicate IsMatch(cm: ChannelMachine, state: int, sym: int, r: nat)
    requires Valid(cm) && r < |cm.stateMachine|
  {
    cm.stateMachine[r].from == state && cm.inOut[r][0] == sym
  }

  /** The output symbol of row r (column 1 of in/out). */
  function Output(cm: ChannelMachine, r: nat): int
    requires Valid(cm) && r < |cm.stateMachine|
  {
    cm.inOut[r][1]
  }

  /** The matching rows from row `lo` on, in ascending order. */
  function MatchingRows(cm: ChannelMachine, state: int, sym: int, lo: nat): (rs: seq<nat>)
    requires Valid(cm) && lo <= |cm.stateMachine|
    ensures forall k :: 0 <= k < |rs| ==> lo <= rs[k] < |cm.stateMachine|
    decreases |cm.stateMachine| - lo
  {
    if lo == |cm.stateMachine| then []
    else if IsMatch(cm, state, sym, lo) then [lo] + MatchingRows(cm, state, sym, lo + 1)
    else MatchingRows(cm, state, sym, lo + 1)
  }

  /** `rs` lists exactly the rows from `lo` on that match, in ascending order. */
  ghost predicate ListsMatches(cm: ChannelMachine, state: int, sym: int, lo: nat, rs: seq<nat>)
    requires Valid(cm)
  {
    (forall k :: 0 <= k < |rs| ==> rs[k] < |cm.stateMachine| && IsMatch(cm, state, sym, rs[k])) &&
    (forall r :: lo <= r < |cm.stateMachine| && IsMatch(cm, state, sym, r) ==> r in rs) &&
    (forall a, b :: 0 <= a < b < |rs| ==> rs[a] < rs[b])
  }

  lemma {:induction false} MatchingRowsSpec(cm: ChannelMachine, state: int, sym: int, lo: nat)
    requires Valid(cm) && lo <= |cm.stateMachine|
    ensures ListsMatches(cm, state, sym, lo, MatchingRows(cm, state, sym, lo))
    decreases |cm.stateMachine| - lo
  {
    if lo < |cm.stateMachine| {
      MatchingRowsSpec(cm, state, sym, lo + 1);
      var rs' := MatchingRows(cm, state, sym, lo + 1);
      if IsMatch(cm, state, sym, lo) {
        assert MatchingRows(cm, state, sym, lo) == [lo] + rs';
        PrependMatch(cm, state, sym, lo, rs');
      } else {
        assert MatchingRows(cm, state, sym, lo) == rs';
        SkipMiss(cm, state, sym, lo, rs');
      }
    }
  }

  /** A row that does not match can be passed over. */
  lemma SkipMiss(cm: ChannelMachine, state: int, sym: int, lo: nat, rs: seq<nat>)
    requires Valid(cm) && lo < |cm.stateMachine| && !IsMatch(cm, state, sym, lo)
    requires ListsMatches(cm, state, sym, lo + 1, rs)
    ensures ListsMatches(cm, state, sym, lo, rs)
  {}

  /** Prepending a matching row below every listed one keeps the listing exact. */
  lemma PrependMatch(cm: ChannelMachine, state: int, sym: int, lo: nat, rs': seq<nat>)
    requires Valid(cm) && lo < |cm.stateMachine| && IsMatch(cm, state, sym, lo)
    requires ListsMatches(cm, state, sym, lo + 1, rs')
    requires forall k :: 0 <= k < |rs'| ==> lo < rs'[k]
    ensures ListsMatches(cm, state, sym, lo, [lo] + rs')
  {
    var rs := [lo] + rs';
    forall r | lo <= r < |cm.stateMachine| && IsMatch(cm, state, sym, r) ensures r in rs {
      if r > lo {
        assert r in rs';
      }
    }
    forall a, b | 0 <= a < b < |rs| ensures rs[a] < rs[b] {
      assert rs[b] == rs'[b - 1];
      if a > 0 {
        assert rs[a] == rs'[a - 1];
      }
    }
  }

  /** The row taken from `state` on `sym`: defined exactly when one row
      matches. */
  function ChannelStep(cm: ChannelMachine, state: int, sym: int): (r: Option<nat>)
    requires Valid(cm)
    ensures r.Some? ==> r.value < |cm.stateMachine|
  {
    var rs := MatchingRows(cm, state, sym, 0);
    if |rs| == 1 then Some(rs[0]) else None
  }

  /** A step is taken by a matching row, and then by the only one. */
  lemma ChannelStepSpec(cm: ChannelMachine, state: int, sym: int)
    requires Valid(cm)
    ensures var r := ChannelStep(cm, state, sym);
            r.Some? ==> IsMatch(cm, state, sym, r.value) &&
                        forall q :: 0 <= q < |cm.stateMachine| && IsMatch(cm, state, sym, q) ==> q == r.value
  {
    MatchingRowsSpec(cm, state, sym, 0);
    var rs := MatchingRows(cm, state, sym, 0);
    if |rs| == 1 {
      forall q | 0 <= q < |cm.stateMachine| && IsMatch(cm, state, sym, q) ensures q == rs[0] {
        assert q in rs;
      }
    }
  }

  /** A step fails only when no row or several rows match. */
  lemma StepMissNotUnique(cm: ChannelMachine, state: int, sym: int, q: nat)
    requires Valid(cm) && ChannelStep(cm, state, sym).None?
    requires q < |cm.stateMachine| && IsMatch(cm, state, sym, q)
    ensures exists q' :: 0 <= q' < |cm.stateMachine| && q' != q && IsMatch(cm, state, sym, q')
  {
    MatchingRowsSpec(cm, state, sym, 0);
    var rs := MatchingRows(cm, state, sym, 0);
    assert q in rs;
    assert |rs| >= 2;
    if q == rs[0] {
      assert rs[1] in rs;
    } else {
      assert rs[0] in rs;
    }
  }

  /** The run of the channel over `x` from position `i` in `state`: the
      samples written for positions i.., the rows taken, and the state
      reached. */
  datatype Run = Run(y: seq<int>, path: seq<nat>, end: int)

  /** The reference the channel loop is proved against. */
  function ChannelFrom(cm: ChannelMachine, x: seq<int>, i: nat, state: int): (res: Result<Run, ChannelError>)
    requires Valid(cm)
    ensures res.Success? ==> |res.value.y| == if i < |x| then |x| - i else 0
    ensures res.Failure? ==> i <= res.error.position < |x|
    ensures res.Success? ==> forall k :: 0 <= k < |res.value.path| ==> res.value.path[k] < |cm.stateMachine|
    decreases |x| - i
  {
    if i >= |x| then Success(Run([], [], state))
    else match ChannelStep(cm, state, x[i])
      case None => Failure(NoUniqueRow(i, state))
      case Some(r) =>
        var gap := Min(NumInputSym(cm), |x| - i) - 1;
        match ChannelFrom(cm, x, i + NumInputSym(cm), cm.stateMachine[r].to)
        case Failure(e) => Failure(e)
        case Success(run) => Success(Run([Output(cm, r)] + Repeat(0, gap) + run.y, [r] + run.path, run.end))
  }

  /** The channel on a whole sequence: the noiseless output and the ending
      state. The source reads the ending state off the last transition, so
      an empty sequence is refused. */
  function E2pr4(cm: ChannelMachine, x: seq<int>): (res: Result<(seq<int>, int), ChannelError>)
    requires Valid(cm) && |x| >= 1
    ensures res.Success? ==> |res.value.0| == |x|
    ensures res.Failure? ==> res.error.position < |x|
  {
    match ChannelFrom(cm, x, 0, cm.iniState)
    case Failure(e) => Failure(e)
    case Success(run) => Success((run.y, run.end))
  }

  /** The channel loop: y starts all zero, and each step writes one sample
      and moves the state. */
  method E2pr4Channel(cm: ChannelMachine, x: seq<int>) returns (res: Result<(seq<int>, int), ChannelError>)
    requires Valid(cm) && |x| >= 1
    ensures res == E2pr4(cm, x)
  {
    var length := |x|;
    var y := new int[length](_ => 0);
    var state := cm.iniState;
    var i := 0;
    ghost var written: seq<int> := [];
    ghost var path: seq<nat> := [];
    ExtendNil(ChannelFrom(cm, x, 0, cm.iniState));
    while i < length
      invariant Min(i, length) == |written| && written == y[..|written|]
      invariant forall q :: |written| <= q < length ==> y[q] == 0
      invariant ChannelFrom(cm, x, 0, cm.iniState) == Extend(written, path, ChannelFrom(cm, x, i, state))
      decreases length - i
    {
      var idxIn := ChannelStep(cm, state, x[i]);
      if idxIn.None? {
        UnfoldMiss(cm, x, i, state);
        return Failure(NoUniqueRow(i, state));
      }
      var r := idxIn.value;
      ghost var block := Advance(cm, x, i, state, r, written, path);
      WriteBlock(y, i, Output(cm, r), written, block);
      written, path := written + block, path + [r];
      state := cm.stateMachine[r].to;
      i := i + NumInputSym(cm);
    }
    assert y[..] == written;
    assert written + [] == written && path + [] == path;
    res := Success((y[..], state));
  }

  /** One loop step: the reference, already unfolded over the samples
      written and the rows taken so far, unfolds by one more block. */
  lemma Advance(cm: ChannelMachine, x: seq<int>, i: nat, state: int, r: nat,
                written: seq<int>, path: seq<nat>) returns (block: seq<int>)
    requires Valid(cm) && i < |x| && ChannelStep(cm, state, x[i]) == Some(r)
    requires ChannelFrom(cm, x, 0, cm.iniState) == Extend(written, path, ChannelFrom(cm, x, i, state))
    ensures |block| == Min(i + NumInputSym(cm), |x|) - i && |block| >= 1 && block[0] == Output(cm, r)
    ensures forall j :: 1 <= j < |block| ==> block[j] == 0
    ensures ChannelFrom(cm, x, 0, cm.iniState) ==
            Extend(written + block, path + [r], ChannelFrom(cm, x, i + NumInputSym(cm), cm.stateMachine[r].to))
  {
    block := UnfoldStep(cm, x, i, state, r);
    ExtendTwice(written, path, block, [r], ChannelFrom(cm, x, i + NumInputSym(cm), cm.stateMachine[r].to));
  }

  /** Writes the first sample of `block` at `i`; the rest of the block is
      already zero. */
  method WriteBlock(y: array<int>, i: nat, v: int, ghost written: seq<int>, ghost block: seq<int>)
    requires i == |written| && i + |block| <= y.Length && |block| >= 1 && block[0] == v
    requires written == y[..i] && forall q :: i <= q < y.Length ==> y[q] == 0
    requires forall j :: 1 <= j < |block| ==> block[j] == 0
    modifies y
    ensures y[..i + |block|] == written + block
    ensures forall q :: i + |block| <= q < y.Length ==> y[q] == 0
  {
    y[i] := v;
    assert y[..i + |block|] == written + block;
  }

  /** One step with a unique matching row unfolds the reference by the
      written block: the output symbol followed by zeros up to the next
      step (or the end). */
  lemma UnfoldStep(cm: ChannelMachine, x: seq<int>, i: nat, state: int, r: nat) returns (block: seq<int>)
    requires Valid(cm) && i < |x| && ChannelStep(cm, state, x[i]) == Some(r)
    ensures block == [Output(cm, r)] + Repeat(0, Min(NumInputSym(cm), |x| - i) - 1)
    ensures |block| == Min(i + NumInputSym(cm), |x|) - i
    ensures ChannelFrom(cm, x, i, state) ==
            Extend(block, [r], ChannelFrom(cm, x, i + NumInputSym(cm), cm.stateMachine[r].to))
  {
    block := [Output(cm, r)] + Repeat(0, Min(NumInputSym(cm), |x| - i) - 1);
  }

  lemma UnfoldMiss(cm: ChannelMachine, x: seq<int>, i: nat, state: int)
    requires Valid(cm) && i < |x| && ChannelStep(cm, state, x[i]).None?
    ensures ChannelFrom(cm, x, i, state) == Failure(NoUniqueRow(i, state))
  {}

  lemma ExtendNil(r: Result<Run, ChannelError>)
    ensures Extend([], [], r) == r
  {
    if r.Success? {
      assert [] + r.value.y == r.value.y && [] + r.value.path == r.value.path;
    }
  }

  /** Prefixing a run with already written samples and rows. */
  function Extend(ys: seq<int>, ps: seq<nat>, r: Result<Run, ChannelError>): Result<Run, ChannelError>
  {
    match r
    case Failure(e) => Failure(e)
    case Success(run) => Success(Run(ys + run.y, ps + run.path, run.end))
  }

  lemma ExtendTwice(ys: seq<int>, ps: seq<nat>, ys': seq<int>, ps': seq<nat>, r: Result<Run, ChannelError>)
    ensures Extend(ys, ps, Extend(ys', ps', r)) == Extend(ys + ys', ps + ps', r)
  {
    if r.Success? {
      assert ys + (ys' + r.value.y) == (ys + ys') + r.value.y;
      assert ps + (ps' + r.value.path) == (ps + ps') + r.value.path;
    }
  }

  // ---- what a run looks like ----

  /** A successful run from a position inside `x` is one step followed by
      a successful run from the next step position. */
  lemma UnfoldRun(cm: ChannelMachine, x: seq<int>, i: nat, state: int, run: Run) returns (r: nat, rest: Run)
    requires Valid(cm) && i < |x| && ChannelFrom(cm, x, i, state) == Success(run)
    ensures ChannelStep(cm, state, x[i]) == Some(r) && r < |cm.stateMachine|
    ensures ChannelFrom(cm, x, i + NumInputSym(cm), cm.stateMachine[r].to) == Success(rest)
    ensures run.y == [Output(cm, r)] + Repeat(0, Min(NumInputSym(cm), |x| - i) - 1) + rest.y
    ensures run.path == [r] + rest.path && run.end == rest.end
    ensures Starts(|x|, i, NumInputSym(cm)) == [i] + Starts(|x|, i + NumInputSym(cm), NumInputSym(cm))
  {
    r := ChannelStep(cm, state, x[i]).value;
    rest := ChannelFrom(cm, x, i + NumInputSym(cm), cm.stateMachine[r].to).value;
  }

  /** A successful run takes one row per step position, each the unique
      match for the state reached and the sample read, and ends in the last
      row's to-state. */
  lemma {:induction false} RunFollowsSteps(cm: ChannelMachine, x: seq<int>, i: nat, state: int, run: Run)
    requires Valid(cm) && ChannelFrom(cm, x, i, state) == Success(run)
    ensures |run.path| == |Starts(|x|, i, NumInputSym(cm))|
    ensures |run.path| > 0 ==> ChannelStep(cm, state, x[i]) == Some(run.path[0])
    ensures forall k :: 0 <= k < |run.path| - 1 ==>
              ChannelStep(cm, cm.stateMachine[run.path[k]].to, x[Starts(|x|, i, NumInputSym(cm))[k + 1]]) == Some(run.path[k + 1])
    ensures run.end == if |run.path| == 0 then state else cm.stateMachine[run.path[|run.path| - 1]].to
    decreases |x| - i
  {
    if i < |x| {
      var nic := NumInputSym(cm);
      var r, rest := UnfoldRun(cm, x, i, state, run);
      RunFollowsSteps(cm, x, i + nic, cm.stateMachine[r].to, rest);
      var ps, ps' := Starts(|x|, i, NumInputSym(cm)), Starts(|x|, i + nic, NumInputSym(cm));
      forall k | 0 <= k < |run.path| - 1
        ensures ChannelStep(cm, cm.stateMachine[run.path[k]].to, x[ps[k + 1]]) == Some(run.path[k + 1])
      {
        if k > 0 {
          assert run.path[k] == rest.path[k - 1] && ps[k + 1] == ps'[k];
        }
      }
    }
  }

  /** The output symbols of the rows of a path. */
  function Outputs(cm: ChannelMachine, path: seq<nat>): (outs: seq<int>)
    requires Valid(cm) && forall k :: 0 <= k < |path| ==> path[k] < |cm.stateMachine|
    ensures |outs| == |path| && forall k :: 0 <= k < |path| ==> outs[k] == Output(cm, path[k])
  {
    seq(|path|, k requires 0 <= k < |path| => Output(cm, path[k]))
  }

  /** `y` holds the symbols of `outs` at every `nic`-th position and zero
      everywhere else. */
  ghost predicate Laid(y: seq<int>, outs: seq<int>, nic: nat)
    requires nic >= 1
  {
    forall p :: 0 <= p < |y| ==>
      y[p] == if p % nic == 0 && p / nic < |outs| then outs[p / nic] else 0
  }

  /** Laying one more symbol and its zero gap in front of a laid-out tail. */
  lemma LaidCons(y: seq<int>, o: int, gap: nat, ys: seq<int>, outs: seq<int>, nic: nat)
    requires nic >= 1 && gap < nic && (|ys| > 0 ==> gap == nic - 1)
    requires Laid(ys, outs, nic) && y == [o] + Repeat(0, gap) + ys
    ensures Laid(y, [o] + outs, nic)
  {
    forall p | 0 <= p < |y|
      ensures y[p] == if p % nic == 0 && p / nic < |outs| + 1 then ([o] + outs)[p / nic] else 0
    {
      if p <= gap {
        DivUnique(p, nic, 0, p);
      } else {
        var q := p - nic;
        DivPlusOne(q, nic);
        assert y[p] == ys[q];
      }
    }
  }

  /** A successful run lays the output symbols of its rows out at the
      stride, with zeros in between. */
  lemma {:induction false} RunLayout(cm: ChannelMachine, x: seq<int>, i: nat, state: int, run: Run)
    requires Valid(cm) && ChannelFrom(cm, x, i, state) == Success(run)
    ensures Laid(run.y, Outputs(cm, run.path), NumInputSym(cm))
    decreases |x| - i
  {
    var nic := NumInputSym(cm);
    if i < |x| {
      var r, rest := UnfoldRun(cm, x, i, state, run);
      RunLayout(cm, x, i + nic, cm.stateMachine[r].to, rest);
      assert Outputs(cm, run.path) == [Output(cm, r)] + Outputs(cm, rest.path);
      LaidCons(run.y, Output(cm, r), Min(nic, |x| - i) - 1, rest.y, Outputs(cm, rest.path), nic);
    }
  }

  /** A successful run writes the output symbol of each row it takes at
      that step's position. */
  lemma RunOutputs(cm: ChannelMachine, x: seq<int>, i: nat, state: int, run: Run)
    requires Valid(cm) && ChannelFrom(cm, x, i, state) == Success(run)
    ensures |run.path| == |Starts(|x|, i, NumInputSym(cm))|
    ensures forall k :: 0 <= k < |run.path| ==>
              run.y[Starts(|x|, i, NumInputSym(cm))[k] - i] == Output(cm, run.path[k])
  {
    var nic := NumInputSym(cm);
    RunPathLength(cm, x, i, state, run);
    RunLayout(cm, x, i, state, run);
    forall k | 0 <= k < |run.path|
      ensures run.y[Starts(|x|, i, nic)[k] - i] == Output(cm, run.path[k])
    {
      StartsAt(|x|, i, nic, k);
      MulDivCancel(k, nic);
      var q := k * nic;
      assert Starts(|x|, i, nic)[k] - i == q < |run.y|;
      assert run.y[q] == Outputs(cm, run.path)[k];
    }
  }

  /** A successful run takes one row per step position. */
  lemma {:induction false} RunPathLength(cm: ChannelMachine, x: seq<int>, i: nat, state: int, run: Run)
    requires Valid(cm) && ChannelFrom(cm, x, i, state) == Success(run)
    ensures |run.path| == |Starts(|x|, i, NumInputSym(cm))|
    decreases |x| - i
  {
    if i < |x| {
      var r, rest := UnfoldRun(cm, x, i, state, run);
      RunPathLength(cm, x, i + NumInputSym(cm), cm.stateMachine[r].to, rest);
    }
  }

  /** A successful run leaves every position that is not a step position
      at zero. */
  lemma RunZeros(cm: ChannelMachine, x: seq<int>, i: nat, state: int, run: Run)
    requires Valid(cm) && ChannelFrom(cm, x, i, state) == Success(run)
    ensures forall p :: i <= p < |x| && p !in Starts(|x|, i, NumInputSym(cm)) ==> run.y[p - i] == 0
  {
    RunLayout(cm, x, i, state, run);
    forall p | i <= p < |x| && p !in Starts(|x|, i, NumInputSym(cm))
      ensures run.y[p - i] == 0
    {
      StartsMember(|x|, i, NumInputSym(cm), p);
    }
  }

  /** A failing run stops at a step position whose state and sample have
      no unique row. */
  lemma {:induction false} FailureAtStep(cm: ChannelMachine, x: seq<int>, i: nat, state: int, p: nat, st: int)
    requires Valid(cm) && ChannelFrom(cm, x, i, state) == Failure(NoUniqueRow(p, st))
    ensures p in Starts(|x|, i, NumInputSym(cm))
    ensures ChannelStep(cm, st, x[p]).None?
    decreases |x| - i
  {
    var nic := NumInputSym(cm);
    if ChannelStep(cm, state, x[i]).Some? {
      var r := ChannelStep(cm, state, x[i]).value;
      FailureAtStep(cm, x, i + nic, cm.stateMachine[r].to, p, st);
    }
  }

  /** Every state of `states` has a unique row for every sample of `x`,
      and that row leads back into `states`. */
  ghost predicate Deterministic(cm: ChannelMachine, x: seq<int>, states: set<int>)
    requires Valid(cm)
  {
    forall st, k {:trigger ChannelStep(cm, st, x[k])} :: st in states && 0 <= k < |x| ==>
      ChannelStep(cm, st, x[k]).Some? && cm.stateMachine[ChannelStep(cm, st, x[k]).value].to in states
  }

  /** Started in a set of states that the transducer is deterministic and
      complete on, the channel never fails. */
  lemma {:induction false} DeterministicRunSucceeds(cm: ChannelMachine, x: seq<int>, i: nat, state: int,
                                                    states: set<int>)
    requires Valid(cm) && Deterministic(cm, x, states) && state in states
    ensures ChannelFrom(cm, x, i, state).Success?
    decreases |x| - i
  {
    if i < |x| {
      var r := ChannelStep(cm, state, x[i]).value;
      var block := UnfoldStep(cm, x, i, state, r);
      DeterministicRunSucceeds(cm, x, i + NumInputSym(cm), cm.stateMachine[r].to, states);
    }
  }

  /** The two-state accumulator channel (state = last input bit, output =
      input + state) is deterministic and complete on its states {0, 1}
      for any bit sequence. */
  lemma TwoStateDeterministic(x: seq<int>)
    requires forall k :: 0 <= k < |x| ==> 0 <= x[k] <= 1
    ensures Valid(TwoState()) && Deterministic(TwoState(), x, {0, 1})
  {
    forall st, k | st in {0, 1} && 0 <= k < |x|
      ensures ChannelStep(TwoState(), st, x[k]) == Some(2 * st + x[k])
    {
      TwoStateStep(st, x[k]);
    }
  }

  /** From state s on bit b the accumulator channel takes row 2s + b. */
  lemma TwoStateStep(st: int, b: int)
    requires 0 <= st <= 1 && 0 <= b <= 1
    ensures ChannelStep(TwoState(), st, b) == Some(2 * st + b)
  {
    var cm := TwoState();
    var q := 2 * st + b;
    forall r | 0 <= r < 4 ensures IsMatch(cm, st, b, r) <==> r == q {}
    assert MatchingRows(cm, st, b, 4) == [];
    assert MatchingRows(cm, st, b, 3) == if q == 3 then [3] else [];
    assert MatchingRows(cm, st, b, 2) == if q >= 2 then [q] else [];
    assert MatchingRows(cm, st, b, 1) == if q >= 1 then [q] else [];
  }

  /** Rows (from, to) with in/out (input, output) for state s and input b:
      row 2s + b goes to state b and writes b + s. */
  function TwoState(): ChannelMachine
  {
    ChannelMachine(
      [Transition(0, 0), Transition(0, 1), Transition(1, 0), Transition(1, 1)],
      [[0, 0], [1, 1], [0, 1], [1, 2]],
      2, 0)
  }

  /** On a whole sequence: every sample off the stride is zero, and the
      ending state is the to-state of the transition taken at the last
      step position. */
  lemma E2pr4Shape(cm: ChannelMachine, x: seq<int>, y: seq<int>, end: int)
    requires Valid(cm) && |x| >= 1 && E2pr4(cm, x) == Success((y, end))
    ensures |y| == |x|
    ensures forall p :: 0 <= p < |x| && p % NumInputSym(cm) != 0 ==> y[p] == 0
    ensures exists r :: 0 <= r < |cm.stateMachine| && end == cm.stateMachine[r].to &&
              ChannelStep(cm, cm.stateMachine[r].from, x[LastStart(|x|, NumInputSym(cm))]) == Some(r)
    ensures var path := ChannelFrom(cm, x, 0, cm.iniState).value.path;
            var n := |path|;
            n >= 1 && end == cm.stateMachine[path[n - 1]].to &&
            ChannelStep(cm, if n >= 2 then cm.stateMachine[path[n - 2]].to else cm.iniState,
                        x[LastStart(|x|, NumInputSym(cm))]) == Some(path[n - 1])
  {
    var run := ChannelFrom(cm, x, 0, cm.iniState).value;
    RunFollowsSteps(cm, x, 0, cm.iniState, run);
    RunZeros(cm, x, 0, cm.iniState, run);
    forall p | 0 <= p < |x| && p % NumInputSym(cm) != 0
      ensures y[p] == 0
    {
      StartsMember(|x|, 0, NumInputSym(cm), p);
    }
    var ps := Starts(|x|, 0, NumInputSym(cm));
    var n := |run.path|;
    assert n >= 1;
    StartsLast(|x|, 0, NumInputSym(cm));
    var r := run.path[n - 1];
    var prev := if n >= 2 then cm.stateMachine[run.path[n - 2]].to else cm.iniState;
    assert ChannelStep(cm, prev, x[ps[n - 1]]) == Some(r);
    ChannelStepSpec(cm, prev, x[ps[n - 1]]);
  }
}
