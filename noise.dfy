/** The mismatched-channel read-back of `acgn_mis`: the codeword passes
    through the Lorentzian dipulse channel and then through the equaliser
    taps, with white noise added before the equaliser. Each convolution is
    the full linear convolution, cut down to the codeword's length by
    dropping `side` samples at each end and reshaped to the codeword's
    shape. The white noise samples are an input (already scaled by the
    noise level). */
module Noise {
  import opened Common

  /** Term i of sample t of the convolution of `a` with `v`. */
  function ConvTerm(a: seq<real>, v: seq<real>, t: int, i: nat): real
    requires i < |a|
  {
    if 0 <= t - i < |v| then a[i] * v[t - i] else 0.0
  }

  /** The sum of the first `m` terms of sample t. */
  function ConvSum(a: seq<real>, v: seq<real>, t: int, m: nat): real
    requires m <= |a|
  {
    if m == 0 then 0.0 else ConvSum(a, v, t, m - 1) + ConvTerm(a, v, t, m - 1)
  }

  /** The full linear convolution: `|a| + |v| - 1` samples. */
  function Convolve(a: seq<real>, v: seq<real>): (r: seq<real>)
    requires |a| >= 1 && |v| >= 1
    ensures |r| == |a| + |v| - 1
  {
    seq(|a| + |v| - 1, t => ConvSum(a, v, t, |a|))
  }

  function Add(u: seq<real>, v: seq<real>): (w: seq<real>)
    requires |u| == |v|
    ensures |w| == |u|
  {
    seq(|u|, i requires 0 <= i < |u| => u[i] + v[i])
  }

  function Zeros(n: nat): (z: seq<real>)
    ensures |z| == n
  {
    seq(n, _ => 0.0)
  }

  /** `s[side:-side]` read as "drop `side` samples at each end"; with
      `side == 0` nothing is dropped. */
  function Trim(s: seq<real>, side: nat): (r: seq<real>)
    ensures 2 * side <= |s| ==> |r| == |s| - 2 * side
    ensures 2 * side <= |s| ==> forall t :: 0 <= t < |r| ==> r[t] == s[t + side]
    ensures 2 * side > |s| ==> r == []
  {
    if 2 * side > |s| then [] else s[side..|s| - side]
  }

  /** `s[side:-side]` exactly as Python reads it: `-0` is `0`, so with
      `side == 0` the slice `s[0:0]` is empty, and the slice is empty
      whenever the two cuts meet. */
  function TrimAsWritten(s: seq<real>, side: nat): (r: seq<real>)
    ensures side >= 1 ==> r == Trim(s, side)
    ensures side == 0 ==> r == []
  {
    if side == 0 || 2 * side >= |s| then [] else s[side..|s| - side]
  }

  /** `.reshape(codeword.shape)`: fails unless the sample count matches. */
  function Reshape(s: seq<real>, n: nat): (r: Option<seq<real>>)
    ensures r.Some? <==> |s| == n
    ensures r.Some? ==> r.value == s
  {
    if |s| == n then Some(s) else None
  }

  /** One stage: convolve, trim `side` at each end, reshape to `n`. */
  function Stage(c: seq<real>, v: seq<real>, side: nat, n: nat): (r: Option<seq<real>>)
    ensures r.Some? ==> |c| >= 1 && |v| >= 1 && |r.value| == n
  {
    if |c| == 0 || |v| == 0 then None else Reshape(Trim(Convolve(c, v), side), n)
  }

  /** A stage over taps of length `2 * side + 1` keeps the length of its
      input. */
  lemma StageLength(c: seq<real>, v: seq<real>, side: nat)
    requires |c| == 2 * side + 1 && |v| >= 1
    ensures Stage(c, v, side, |v|).Some?
    ensures |Stage(c, v, side, |v|).value| == |v|
  {}

  /** With a single tap as written, the trim leaves nothing and the reshape
      to a non-empty codeword fails. */
  lemma StageAsWrittenSingleTap(c: seq<real>, v: seq<real>)
    requires |c| == 1 && |v| >= 1
    ensures Reshape(TrimAsWritten(Convolve(c, v), 0), |v|).None?
    ensures Stage(c, v, 0, |v|) == Some(Convolve(c, v))
  {
    var s := Convolve(c, v);
    assert s[0..|s|] == s;
  }

  /** The intermediate signals of the read-back. */
  datatype Stages = Stages(noiseColor: seq<real>, lor: seq<real>, outputIsi: seq<real>, outputMis: seq<real>)

  /** All four stages of `acgn_mis` on codeword `x` with white noise `w`;
      None where a convolution input is empty or a reshape fails. */
  function AcgnMisStages(x: seq<real>, w: seq<real>, isi: seq<real>, lorDi: seq<real>,
                         sideIsi: nat, sideLor: nat): (r: Option<Stages>)
    requires |w| == |x|
    ensures r.Some? ==> |x| >= 1 && |r.value.noiseColor| == |x| && |r.value.lor| == |x| &&
                        |r.value.outputIsi| == |x| && |r.value.outputMis| == |x|
  {
    var n := |x|;
    match Stage(isi, w, sideIsi, n)
    case None => None
    case Some(noiseColor) =>
      match Stage(lorDi, x, sideLor, n)
      case None => None
      case Some(lor) =>
        match Stage(isi, lor, sideIsi, n)
        case None => None
        case Some(outputIsi) =>
          match Stage(isi, Add(lor, w), sideIsi, n)
          case None => None
          case Some(outputMis) => Some(Stages(noiseColor, lor, outputIsi, outputMis))
  }

  /** The returned signal: the equalised read-back with noise. */
  function AcgnMis(x: seq<real>, w: seq<real>, isi: seq<real>, lorDi: seq<real>,
                   sideIsi: nat, sideLor: nat): (r: Option<seq<real>>)
    requires |w| == |x|
    ensures r.Some? ==> |r.value| == |x|
  {
    match AcgnMisStages(x, w, isi, lorDi, sideIsi, sideLor)
    case None => None
    case Some(st) => Some(st.outputMis)
  }

  /** With `2 * side + 1` taps on both filters every stage keeps the
      codeword's length, so the read-back is defined for every non-empty
      codeword; an empty codeword is refused by the first convolution. */
  lemma AcgnMisDefined(x: seq<real>, w: seq<real>, isi: seq<real>, lorDi: seq<real>, sideIsi: nat, sideLor: nat)
    requires |w| == |x|
    requires |isi| == 2 * sideIsi + 1 && |lorDi| == 2 * sideLor + 1
    ensures AcgnMisStages(x, w, isi, lorDi, sideIsi, sideLor).Some? <==> |x| >= 1
  {
    if |x| >= 1 {
      StageLength(isi, w, sideIsi);
      StageLength(lorDi, x, sideLor);
      var lor := Stage(lorDi, x, sideLor, |x|).value;
      StageLength(isi, lor, sideIsi);
      StageLength(isi, Add(lor, w), sideIsi);
    }
  }

  // ---- linearity ----

  lemma {:induction false} ConvSumAdd(a: seq<real>, u: seq<real>, v: seq<real>, t: int, m: nat)
    requires |u| == |v| && m <= |a|
    ensures ConvSum(a, Add(u, v), t, m) == ConvSum(a, u, t, m) + ConvSum(a, v, t, m)
  {
    if m > 0 {
      ConvSumAdd(a, u, v, t, m - 1);
      var i := m - 1;
      if 0 <= t - i < |u| {
        assert a[i] * (u[t - i] + v[t - i]) == a[i] * u[t - i] + a[i] * v[t - i];
      }
    }
  }

  /** Convolution distributes over adding signals. */
  lemma ConvolveAdd(a: seq<real>, u: seq<real>, v: seq<real>)
    requires |a| >= 1 && |u| >= 1 && |u| == |v|
    ensures Convolve(a, Add(u, v)) == Add(Convolve(a, u), Convolve(a, v))
  {
    forall t | 0 <= t < |a| + |u| - 1
      ensures Convolve(a, Add(u, v))[t] == Add(Convolve(a, u), Convolve(a, v))[t]
    {
      ConvSumAdd(a, u, v, t, |a|);
    }
  }

  lemma TrimAdd(u: seq<real>, v: seq<real>, side: nat)
    requires |u| == |v|
    ensures |Trim(u, side)| == |Trim(v, side)|
    ensures Trim(Add(u, v), side) == Add(Trim(u, side), Trim(v, side))
  {
    if 2 * side <= |u| {
      var l, r := Trim(Add(u, v), side), Add(Trim(u, side), Trim(v, side));
      assert |l| == |r|;
      forall t | 0 <= t < |l|
        ensures l[t] == r[t]
      {
        assert l[t] == Add(u, v)[t + side];
      }
    }
  }

  lemma {:induction false} ConvSumZeros(a: seq<real>, n: nat, t: int, m: nat)
    requires m <= |a|
    ensures ConvSum(a, Zeros(n), t, m) == 0.0
  {
    if m > 0 {
      ConvSumZeros(a, n, t, m - 1);
    }
  }

  /** The mismatched read-back is the noiseless read-back plus the
      coloured noise. */
  lemma {:induction false} AcgnMisSuperposition(x: seq<real>, w: seq<real>, isi: seq<real>, lorDi: seq<real>,
                                                sideIsi: nat, sideLor: nat)
    requires |w| == |x|
    requires AcgnMisStages(x, w, isi, lorDi, sideIsi, sideLor).Some?
    ensures var st := AcgnMisStages(x, w, isi, lorDi, sideIsi, sideLor).value;
            |st.outputIsi| == |st.noiseColor| &&
            st.outputMis == Add(st.outputIsi, st.noiseColor)
  {
    var st := AcgnMisStages(x, w, isi, lorDi, sideIsi, sideLor).value;
    var n := |x|;
    assert Stage(lorDi, x, sideLor, n) == Some(st.lor);
    assert |st.lor| == n;
    ConvolveAdd(isi, st.lor, w);
    TrimAdd(Convolve(isi, st.lor), Convolve(isi, w), sideIsi);
  }

  /** Without noise the mismatched read-back equals the noiseless one. */
  lemma AcgnMisNoiseless(x: seq<real>, isi: seq<real>, lorDi: seq<real>, sideIsi: nat, sideLor: nat)
    requires AcgnMisStages(x, Zeros(|x|), isi, lorDi, sideIsi, sideLor).Some?
    ensures var st := AcgnMisStages(x, Zeros(|x|), isi, lorDi, sideIsi, sideLor).value;
            st.outputMis == st.outputIsi && st.noiseColor == Zeros(|x|)
  {
    var w := Zeros(|x|);
    var st := AcgnMisStages(x, w, isi, lorDi, sideIsi, sideLor).value;
    AcgnMisSuperposition(x, w, isi, lorDi, sideIsi, sideLor);
    forall t | 0 <= t < |Convolve(isi, w)|
      ensures Convolve(isi, w)[t] == 0.0
    {
      ConvSumZeros(isi, |x|, t, |isi|);
    }
    assert st.noiseColor == Trim(Convolve(isi, w), sideIsi);
  }

  // ---- alignment ----

  /** The unit impulse at position p. */
  function Impulse(n: nat, p: nat): (d: seq<real>)
    requires p < n
    ensures |d| == n && d[p] == 1.0
  {
    seq(n, i => if i == p then 1.0 else 0.0)
  }

  lemma {:induction false} ConvSumImpulse(a: seq<real>, n: nat, p: nat, t: int, m: nat)
    requires p < n && m <= |a|
    ensures ConvSum(a, Impulse(n, p), t, m) == if 0 <= t - p < m then a[t - p] else 0.0
  {
    if m > 0 {
      ConvSumImpulse(a, n, p, t, m - 1);
    }
  }

  /** The trimmed convolution of a centred tap vector with a pulse at p
      places tap `side + d` at p + d: sample t carries the tap of lag
      `t - p`, so lags are aligned with time and not shifted by `side`. */
  lemma StageImpulse(c: seq<real>, side: nat, n: nat, p: nat, t: nat)
    requires |c| == 2 * side + 1 && p < n && t < n
    ensures Stage(c, Impulse(n, p), side, n).Some?
    ensures Stage(c, Impulse(n, p), side, n).value[t] ==
            if -(side as int) <= t - p <= side then c[t - p + side] else 0.0
  {
    StageLength(c, Impulse(n, p), side);
    ConvSumImpulse(c, n, p, t + side, |c|);
  }
}
