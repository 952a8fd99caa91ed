/** The sliding-window framing of the detector input: each row of samples
    is prefixed with `w - 1` zeros, and time step t of the row becomes the
    window of `w` samples ending at sample t. */
module Framer {
  import opened Common

  /** The row prefixed with `w - 1` zeros. */
  function Padded(row: seq<real>, w: nat): (p: seq<real>)
    requires w >= 1
    ensures |p| == |row| + w - 1
  {
    Repeat(0.0, w - 1) + row
  }

  /** The window of time step t: `w` padded samples starting at t. */
  function Window(row: seq<real>, w: nat, t: nat): (v: seq<real>)
    requires w >= 1 && t < |row|
    ensures |v| == w
  {
    Padded(row, w)[t..t + w]
  }

  /** All windows of a row, one per time step. */
  function Frames(row: seq<real>, w: nat): (f: seq<seq<real>>)
    requires w >= 1
    ensures |f| == |row|
    ensures forall t :: 0 <= t < |row| ==> f[t] == Window(row, w, t)
  {
    seq(|row|, t requires 0 <= t < |row| => Window(row, w, t))
  }

  /** Entry j of window t is sample `t - (w - 1) + j` when that index is
      not negative and zero otherwise; the window ends with sample t. */
  lemma WindowAt(row: seq<real>, w: nat, t: nat, j: nat)
    requires w >= 1 && t < |row| && j < w
    ensures Window(row, w, t)[j] == if t + j >= w - 1 then row[t + j - (w - 1)] else 0.0
    ensures Window(row, w, t)[w - 1] == row[t]
  {
    assert Window(row, w, t)[w - 1] == Padded(row, w)[t + w - 1];
  }

  /** Consecutive windows overlap in all but one sample. */
  lemma WindowSlides(row: seq<real>, w: nat, t: nat)
    requires w >= 1 && 1 <= t < |row|
    ensures Window(row, w, t)[..w - 1] == Window(row, w, t - 1)[1..]
  {
    var a, b := Window(row, w, t)[..w - 1], Window(row, w, t - 1)[1..];
    forall j | 0 <= j < w - 1
      ensures a[j] == b[j]
    {
      WindowAt(row, w, t, j);
      WindowAt(row, w, t - 1, j + 1);
    }
  }

  /** A batch is rectangular: every row has `n` samples. */
  predicate Rectangular(x: seq<seq<real>>, n: nat)
  {
    forall b :: 0 <= b < |x| ==> |x[b]| == n
  }

  /** The framing loop over a batch: `y[b, t, :]` is the window of time
      step t of row b. The source fails on a window width of zero. */
  method SlidingShape(x: seq<seq<real>>, timeStep: nat, w: nat) returns (y: array3<real>)
    requires w >= 1 && Rectangular(x, timeStep)
    ensures y.Length0 == |x| && y.Length1 == timeStep && y.Length2 == w
    ensures forall b, t, j :: 0 <= b < |x| && 0 <= t < timeStep && 0 <= j < w ==>
              y[b, t, j] == Frames(x[b], w)[t][j]
  {
    y := new real[|x|, timeStep, w]((_, _, _) => 0.0);
    for b := 0 to |x|
      invariant forall b', t, j :: 0 <= b' < b && 0 <= t < timeStep && 0 <= j < w ==>
                  y[b', t, j] == Frames(x[b'], w)[t][j]
    {
      var padded := Padded(x[b], w);
      for t := 0 to timeStep
        invariant forall b', t', j :: 0 <= b' < b && 0 <= t' < timeStep && 0 <= j < w ==>
                    y[b', t', j] == Frames(x[b'], w)[t'][j]
        invariant forall t', j :: 0 <= t' < t && 0 <= j < w ==> y[b, t', j] == Frames(x[b], w)[t'][j]
      {
        forall j | 0 <= j < w {
          y[b, t, j] := padded[t + j];
        }
      }
    }
  }
}
