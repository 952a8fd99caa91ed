/** Layout of the tap vectors of the partial-response equaliser and of the
    Lorentzian dipulse channel. The value at each lag is a parameter `g`
    (the closed-form per-lag coefficient, already scaled); what is modelled
    is where each lag lands: lags -side..side are written into a zero
    vector of `tap` entries with Python's negative-index wrap, and the
    vector is then rotated so that the most negative lag comes first. */
module Taps {
  import opened Common

  /** `int((tap - 1) / 2)`: the number of lags on each side of zero. The
      lags -side..side fit in the `tap` entries, with at most one entry to
      spare (an even tap count). */
  function Side(tap: nat): (side: nat)
    requires tap >= 1
    ensures 2 * side + 1 <= tap <= 2 * side + 2
  {
    (tap - 1) / 2
  }

  /** Python's index `k` into a vector of length `n`: a negative index
      counts from the end. */
  function WrapIndex(k: int, n: nat): (p: nat)
    requires 0 <= k + n && k < n
    ensures p < n && (p == k || p == k + n)
  {
    if k < 0 then n + k else k
  }

  /** The vector after the lag loop: lag k (for -side <= k <= side) sits at
      `WrapIndex(k, tap)`; the entries no lag reaches stay zero. */
  function Lagged(tap: nat, g: int -> real): (ori: seq<real>)
    requires tap >= 1
    ensures |ori| == tap
  {
    seq(tap, p requires 0 <= p < tap =>
      if p <= Side(tap) then g(p) else if p >= tap - Side(tap) then g(p - tap as int) else 0.0)
  }

  /** Each lag lands at its wrapped index, and nothing else is written. */
  lemma LaggedAt(tap: nat, g: int -> real, k: int)
    requires tap >= 1 && -(Side(tap) as int) <= k <= Side(tap)
    ensures Lagged(tap, g)[WrapIndex(k, tap)] == g(k)
  {}

  lemma LaggedUnwritten(tap: nat, g: int -> real, p: nat)
    requires tap >= 1 && Side(tap) < p < tap - Side(tap)
    ensures Lagged(tap, g)[p] == 0.0
  {}

  /** The lag loop shared by both coefficient derivations: a zero vector of
      `tap` entries, then `ori[k] = g(k)` for k from -side to side, each
      negative k wrapping to the end of the vector. */
  method FillLags(tap: nat, g: int -> real) returns (ori: seq<real>)
    requires tap >= 1
    ensures ori == Lagged(tap, g)
  {
    var side: int := Side(tap);
    var a := new real[tap](_ => 0.0);
    for k := -side to side + 1
      invariant forall p: int {:trigger a[p]} :: 0 <= p < tap ==>
        a[p] == if 0 <= p < k then g(p) else if tap - side <= p && p - tap < k then g(p - tap) else 0.0
    {
      a[WrapIndex(k, tap)] := g(k);
    }
    ori := a[..];
  }

  /** `append(ori[-side:], ori[:side+1])` for `side >= 1`: the last `side`
      entries (the negative lags) moved in front of the first `side + 1`. */
  function Rotate(ori: seq<real>, side: nat): (c: seq<real>)
    requires 2 * side + 1 <= |ori|
    ensures |c| == 2 * side + 1
  {
    ori[|ori| - side..] + ori[..side + 1]
  }

  /** The same rotation exactly as written, where `ori[-0:]` is the whole
      vector rather than an empty one. */
  function RotateAsWritten(ori: seq<real>, side: nat): (c: seq<real>)
    requires 2 * side + 1 <= |ori|
    ensures side >= 1 ==> c == Rotate(ori, side)
    ensures side == 0 ==> c == ori + [ori[0]]
  {
    PyLast(ori, side) + ori[..side + 1]
  }

  /** With a single tap the rotation as written doubles the zero-lag
      coefficient, where a one-entry vector is intended. */
  lemma RotateAsWrittenSingleTap(g: int -> real)
    ensures RotateAsWritten(Lagged(1, g), Side(1)) == [g(0), g(0)]
    ensures Rotate(Lagged(1, g), Side(1)) == [g(0)]
  {}

  /** With two taps the lag loop writes only lag 0, and the rotation as
      written gives three entries, the unwritten zero between two copies of
      the zero-lag coefficient. */
  lemma RotateAsWrittenTwoTaps(g: int -> real)
    ensures RotateAsWritten(Lagged(2, g), Side(2)) == [g(0), 0.0, g(0)]
    ensures Rotate(Lagged(2, g), Side(2)) == [g(0)]
  {}

  /** The centred tap vector: `2 * side + 1` entries, entry j holding lag
      `j - side`, so the most negative lag comes first. */
  function CentredTaps(tap: nat, g: int -> real): (c: seq<real>)
    requires tap >= 1
    ensures |c| == 2 * Side(tap) + 1
    ensures forall j :: 0 <= j < |c| ==> c[j] == g(j - Side(tap))
  {
    var side := Side(tap);
    var ori := Lagged(tap, g);
    assert forall p :: tap - side <= p < tap ==> ori[p] == g(p - tap);
    Rotate(ori, side)
  }

  /** The equaliser taps: the lag loop followed by the rotation. */
  method IsiCoefDerivation(tap: nat, g: int -> real) returns (c: seq<real>)
    requires tap >= 1
    ensures |c| == 2 * Side(tap) + 1
    ensures forall j :: 0 <= j < |c| ==> c[j] == g(j - Side(tap))
    ensures c == CentredTaps(tap, g)
  {
    var ori := FillLags(tap, g);
    c := Rotate(ori, Side(tap));
  }

  /** `h(t) = g(t) - g(t - T)`: each tap minus the tap before it, the first
      minus zero. */
  function Dipulse(c: seq<real>): (d: seq<real>)
    ensures |d| == |c|
  {
    seq(|c|, j requires 0 <= j < |c| => c[j] - if j == 0 then 0.0 else c[j - 1])
  }

  /** The sum of the first `j + 1` entries. */
  function PrefixSum(d: seq<real>, j: nat): real
    requires j < |d|
  {
    if j == 0 then d[0] else PrefixSum(d, j - 1) + d[j]
  }

  /** Summing the dipulse recovers the step response it was taken from. */
  lemma {:induction false} PrefixSumOfDipulse(c: seq<real>, j: nat)
    requires j < |c|
    ensures PrefixSum(Dipulse(c), j) == c[j]
  {
    if j > 0 {
      PrefixSumOfDipulse(c, j - 1);
    }
  }

  /** The dipulse taps are determined by the centred taps and vice versa. */
  lemma DipulseInjective(c1: seq<real>, c2: seq<real>)
    requires |c1| == |c2| && Dipulse(c1) == Dipulse(c2)
    ensures c1 == c2
  {
    forall j | 0 <= j < |c1|
      ensures c1[j] == c2[j]
    {
      PrefixSumOfDipulse(c1, j);
      PrefixSumOfDipulse(c2, j);
    }
  }

  /** The Lorentzian dipulse taps: the lag loop, the rotation, then the
      centred vector minus its one-step shift. */
  method LorentzianDiChannel(tap: nat, g: int -> real) returns (di: seq<real>)
    requires tap >= 1
    ensures |di| == 2 * Side(tap) + 1
    ensures di[0] == g(-(Side(tap) as int))
    ensures forall j :: 1 <= j < |di| ==> di[j] == g(j - Side(tap)) - g(j - 1 - Side(tap))
    ensures di == Dipulse(CentredTaps(tap, g))
  {
    var ori := FillLags(tap, g);
    var c := Rotate(ori, Side(tap));
    assert c == CentredTaps(tap, g);
    var shift := [0.0] + c[..|c| - 1];
    di := seq(|c|, j requires 0 <= j < |c| => c[j] - shift[j]);
    forall j | 0 <= j < |c|
      ensures di[j] == Dipulse(c)[j]
    {
      if j > 0 {
        assert shift[j] == c[j - 1];
      }
    }
  }

  /** An even lag response gives a palindromic tap vector. */
  lemma {:induction false} CentredTapsSymmetric(tap: nat, g: int -> real)
    requires tap >= 1
    requires forall k :: 0 <= k <= Side(tap) ==> g(-k) == g(k)
    ensures forall j :: 0 <= j < |CentredTaps(tap, g)| ==>
              CentredTaps(tap, g)[j] == CentredTaps(tap, g)[|CentredTaps(tap, g)| - 1 - j]
  {
    var c := CentredTaps(tap, g);
    var side: int := Side(tap);
    forall j | 0 <= j < |c|
      ensures c[j] == c[|c| - 1 - j]
    {
      assert c[|c| - 1 - j] == g(side - j);
      if j <= side {
        assert g(-(side - j)) == g(side - j);
      } else {
        assert g(-(j - side)) == g(j - side);
      }
    }
  }
}
