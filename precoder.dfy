/** The differential precoder x = z / (1 + D) over GF(2): a running sum of
    the encoder output, reduced mod 2 once at the end. */
module Precoder {

  /** z[0] + z[1] + ... + z[i], the value the loop keeps before reduction. */
  function RunningSum(z: seq<int>, i: nat): int
    requires i < |z|
  {
    if i == 0 then z[0] else RunningSum(z, i - 1) + z[i]
  }

  /** The reference the precoding loop is proved against. */
  function Precode(z: seq<int>): (x: seq<int>)
    ensures |x| == |z|
    ensures forall i :: 0 <= i < |x| ==> 0 <= x[i] <= 1
  {
    seq(|z|, i requires 0 <= i < |z| => RunningSum(z, i) % 2)
  }

  predicate IsBits(s: seq<int>)
  {
    forall i :: 0 <= i < |s| ==> 0 <= s[i] <= 1
  }

  /** The mod-2 first difference 1 + D, the inverse of the precoder. */
  function FirstDifference(x: seq<int>): (z: seq<int>)
    ensures |z| == |x|
  {
    seq(|x|, i requires 0 <= i < |x| => if i == 0 then x[0] % 2 else (x[i] - x[i - 1]) % 2)
  }

  /** The precoding loop: partial sums in a fresh buffer, then mod 2. An
      empty input is refused, as the source reads z[0] unconditionally. */
  method Precoding(z: seq<int>) returns (x: seq<int>)
    requires |z| >= 1
    ensures x == Precode(z)
  {
    var length := |z|;
    var acc := new int[length](_ => 0);
    acc[0] := z[0];
    for i := 1 to length
      invariant forall j :: 0 <= j < i ==> acc[j] == RunningSum(z, j)
    {
      assert acc[i - 1] + z[i] == RunningSum(z, i);
      acc[i] := acc[i - 1] + z[i];
    }
    var sums := acc[..];
    x := seq(length, i requires 0 <= i < length => sums[i] % 2);
  }

  /** The precoder's defining recurrence: the first output is the first
      input bit and every further output adds the next input mod 2. */
  lemma PrecodeRecurrence(z: seq<int>)
    ensures |z| > 0 ==> Precode(z)[0] == z[0] % 2
    ensures forall i :: 1 <= i < |z| ==> Precode(z)[i] == (Precode(z)[i - 1] + z[i]) % 2
  {
    var x := Precode(z);
    forall i | 1 <= i < |z|
      ensures x[i] == (x[i - 1] + z[i]) % 2
    {
      ModAddLeft(RunningSum(z, i - 1), z[i]);
    }
  }

  lemma ModAddLeft(a: int, b: int)
    ensures (a % 2 + b) % 2 == (a + b) % 2
  {
    var q := a / 2;
    assert a == 2 * q + a % 2;
    assert a + b == (a % 2 + b) + 2 * q;
  }

  /** Differencing undoes precoding on bit sequences. */
  lemma {:induction false} DifferenceOfPrecode(z: seq<int>)
    requires IsBits(z)
    ensures FirstDifference(Precode(z)) == z
  {
    var x := Precode(z);
    PrecodeRecurrence(z);
    forall i | 0 <= i < |z|
      ensures FirstDifference(x)[i] == z[i]
    {
      if i > 0 {
        assert x[i] == (x[i - 1] + z[i]) % 2;
      }
    }
  }

  /** Precoding undoes differencing on bit sequences, so the precoder is a
      bijection on bit sequences of each length. */
  lemma {:induction false} PrecodeOfDifference(x: seq<int>)
    requires IsBits(x)
    ensures Precode(FirstDifference(x)) == x
  {
    var z := FirstDifference(x);
    forall i | 0 <= i < |x|
      ensures RunningSum(z, i) % 2 == x[i]
    {
      RunningSumOfDifference(x, i);
    }
  }

  lemma {:induction false} RunningSumOfDifference(x: seq<int>, i: nat)
    requires IsBits(x) && i < |x|
    ensures RunningSum(FirstDifference(x), i) % 2 == x[i]
  {
    var z := FirstDifference(x);
    if i > 0 {
      RunningSumOfDifference(x, i - 1);
      ModAddLeft(RunningSum(z, i - 1), z[i]);
      ModAddLeft(x[i] - x[i - 1], x[i - 1]);
      assert (z[i] + x[i - 1]) % 2 == (x[i] - x[i - 1] + x[i - 1]) % 2;
    }
  }
}
