/** Shared vocabulary of the model: optional and failing results, bits,
    the row lookup used against every configuration table, Python slice
    semantics, and a few facts of integer arithmetic. */
module Common {

  datatype Option<T> = None | Some(value: T)

  datatype Result<T, E> = Success(value: T) | Failure(error: E)

  /** A hard-decided binary symbol. */
  type Bit = b: int | 0 <= b <= 1

  /** Two rows are equal: the same length and equal element by element. */
  predicate SameRow<T(==)>(a: seq<T>, b: seq<T>)
    decreases |a|
  {
    if |a| == 0 then |b| == 0 else |b| >= 1 && a[0] == b[0] && SameRow(a[1..], b[1..])
  }

  lemma {:induction false} SameRowIsEqual<T>(a: seq<T>, b: seq<T>)
    ensures SameRow(a, b) <==> a == b
    decreases |a|
  {
    if |a| >= 1 && |b| >= 1 {
      SameRowIsEqual(a[1..], b[1..]);
      assert a == [a[0]] + a[1..] && b == [b[0]] + b[1..];
    }
  }

  /** The table lookup helper of the repository: the index of the first row
      of `rows` equal to `key`, or None when no row is equal to it. */
  function FindIndex<T(==)>(rows: seq<seq<T>>, key: seq<T>): (r: Option<nat>)
    ensures r.Some? ==> r.value < |rows| && |rows[r.value]| == |key|
  {
    FindIndexFrom(rows, key, 0)
  }

  /** The lookup over rows `i..`. */
  function FindIndexFrom<T(==)>(rows: seq<seq<T>>, key: seq<T>, i: nat): (r: Option<nat>)
    requires i <= |rows|
    ensures r.Some? ==> i <= r.value < |rows| && |rows[r.value]| == |key|
    decreases |rows| - i
  {
    if i == |rows| then None
    else if SameRow(rows[i], key) then SameRowIsEqual(rows[i], key); Some(i)
    else FindIndexFrom(rows, key, i + 1)
  }

  /** Some(i) when row i is the first row equal to the key; None exactly
      when no row is equal to it. */
  lemma {:induction false} FindIndexFromSpec<T>(rows: seq<seq<T>>, key: seq<T>, i: nat)
    requires i <= |rows|
    ensures var r := FindIndexFrom(rows, key, i);
            (r.Some? ==> rows[r.value] == key && forall j :: i <= j < r.value ==> rows[j] != key) &&
            (r.None? <==> forall j :: i <= j < |rows| ==> rows[j] != key)
    decreases |rows| - i
  {
    if i < |rows| {
      SameRowIsEqual(rows[i], key);
      FindIndexFromSpec(rows, key, i + 1);
    }
  }

  lemma FindIndexSpec<T>(rows: seq<seq<T>>, key: seq<T>)
    ensures var r := FindIndex(rows, key);
            (r.Some? ==> rows[r.value] == key && forall j :: 0 <= j < r.value ==> rows[j] != key) &&
            (r.None? <==> forall j :: 0 <= j < |rows| ==> rows[j] != key)
  {
    FindIndexFromSpec(rows, key, 0);
  }

  function Min(a: int, b: int): int { if a <= b then a else b }

  /** Python's `s[i:i+n]` for `0 <= i`: the slice is clipped at the end. */
  function SliceClip<T>(s: seq<T>, i: nat, n: nat): (r: seq<T>)
    ensures i <= |s| ==> r == s[i..Min(i + n, |s|)]
    ensures |r| == if i >= |s| then 0 else Min(n, |s| - i)
  {
    if i >= |s| then [] else s[i..Min(i + n, |s|)]
  }

  /** Python's `s[-k:]`: the last `k` elements, the whole of `s` when it is
      shorter than `k`, and also the whole of `s` when `k == 0` (since `-0`
      is `0`). */
  function PyLast<T>(s: seq<T>, k: nat): (r: seq<T>)
    ensures k == 0 ==> r == s
    ensures 0 < k <= |s| ==> |r| == k && r == s[|s| - k..]
    ensures k > |s| ==> r == s
  {
    if k == 0 || k > |s| then s else s[|s| - k..]
  }

  /** `n` copies of `x`. */
  function Repeat<T>(x: T, n: nat): (r: seq<T>)
    ensures |r| == n && forall i :: 0 <= i < n ==> r[i] == x
  {
    seq(n, _ => x)
  }

  /** The positions `i, i + e, i + 2e, ...` below `n`: `range(i, n, e)`. */
  function Starts(n: nat, i: nat, e: nat): (ps: seq<nat>)
    requires e >= 1
    ensures forall k :: 0 <= k < |ps| ==> i <= ps[k] < n
    decreases n - i
  {
    if i >= n then [] else [i] + Starts(n, i + e, e)
  }

  /** The k-th position is `i + k * e`. */
  lemma {:induction false} StartsAt(n: nat, i: nat, e: nat, k: nat)
    requires e >= 1 && k < |Starts(n, i, e)|
    ensures Starts(n, i, e)[k] == i + k * e
    decreases n - i
  {
    if k > 0 {
      StartsAt(n, i + e, e, k - 1);
      assert (k - 1) * e + e == k * e;
    }
  }

  /** A position is in the range exactly when its distance from `i` is a
      multiple of the stride. */
  lemma {:induction false} StartsMember(n: nat, i: nat, e: nat, p: int)
    requires e >= 1
    ensures p in Starts(n, i, e) <==> i <= p < n && (p - i) % e == 0
    decreases n - i
  {
    if i < n {
      var ps' := Starts(n, i + e, e);
      assert Starts(n, i, e) == [i] + ps';
      if p == i {
        DivUnique(0, e, 0, 0);
      } else if i < p < i + e {
        assert p !in ps';
        DivUnique(p - i, e, 0, p - i);
      } else if i + e <= p {
        StartsMember(n, i + e, e, p);
        DivPlusOne(p - i - e, e);
      }
    }
  }

  /** ceil(a / b) for natural a and positive b. */
  function CeilDiv(a: nat, b: nat): (q: nat)
    requires b >= 1
    ensures q * b >= a && (q - 1) * b < a
  {
    var q := (a + b - 1) / b;
    assert a + b - 1 == q * b + (a + b - 1) % b;
    q
  }

  /** The ceiling is the only quotient with both bounds. */
  lemma CeilUnique(a: nat, b: nat, q: int)
    requires b >= 1 && q * b >= a && (q - 1) * b < a
    ensures q == CeilDiv(a, b)
  {
    var c := CeilDiv(a, b);
    if q < c {
      MulMonotone(q, c - 1, b);
    } else if q > c {
      MulMonotone(c, q - 1, b);
    }
  }

  /** The range holds `ceil((n - i) / e)` positions. */
  lemma {:induction false} StartsCount(n: nat, i: nat, e: nat)
    requires e >= 1 && i <= n
    ensures |Starts(n, i, e)| == CeilDiv(n - i, e)
    decreases n - i
  {
    var c := |Starts(n, i, e)|;
    if i < n && i + e <= n {
      StartsCount(n, i + e, e);
      var c' := |Starts(n, i + e, e)|;
      assert c == c' + 1;
      assert c * e == c' * e + e;
      assert (c - 1) * e == c' * e;
      assert (c' - 1) * e == c' * e - e;
      CeilUnique(n - i, e, c);
    } else if i < n {
      assert c == 1 && c * e == e;
      CeilUnique(n - i, e, c);
    } else {
      CeilUnique(0, e, 0);
    }
  }

  /** The last multiple of `e` below `n`. */
  function LastStart(n: nat, e: nat): (p: nat)
    requires e >= 1 && n >= 1
    ensures p < n && p % e == 0 && n - p <= e
  {
    DivUnique((n - 1) / e * e + (n - 1) % e, e, (n - 1) / e, (n - 1) % e);
    MulDivCancel((n - 1) / e, e);
    (n - 1) / e * e
  }

  /** A range starting at a multiple of `e` ends at `LastStart`. */
  lemma {:induction false} StartsLast(n: nat, i: nat, e: nat)
    requires e >= 1 && i < n && i % e == 0
    ensures |Starts(n, i, e)| >= 1
    ensures Starts(n, i, e)[|Starts(n, i, e)| - 1] == LastStart(n, e)
    decreases n - i
  {
    var l := LastStart(n, e);
    if i + e < n {
      DivPlusOne(i, e);
      StartsLast(n, i + e, e);
    } else {
      assert Starts(n, i + e, e) == [];
      NearMultiplesEqual(i, l, e);
    }
  }

  // ---- integer arithmetic used by the index calculations ----

  lemma MulAtLeast(a: int, n: int)
    requires a >= 1 && n > 0
    ensures a * n >= n
  {}

  /** Euclidean division is determined by quotient and remainder. */
  lemma DivUnique(x: int, n: int, q: int, r: int)
    requires n > 0 && 0 <= r < n && x == q * n + r
    ensures x / n == q && x % n == r
  {
    var q', r' := x / n, x % n;
    assert x == q' * n + r';
    assert (q - q') * n == r' - r;
    if q' < q {
      MulAtLeast(q - q', n);
    } else if q' > q {
      MulAtLeast(q' - q, n);
    }
  }

  /** Two multiples of `e` less than `e` apart are equal. */
  lemma NearMultiplesEqual(a: nat, b: nat, e: nat)
    requires e >= 1 && a % e == 0 && b % e == 0 && a < b + e && b < a + e
    ensures a == b
  {
    var qa, qb := a / e, b / e;
    DivUnique(a, e, qa, 0);
    DivUnique(b, e, qb, 0);
    assert a == qa * e && b == qb * e;
    if qa < qb {
      MulAtLeast(qb - qa, e);
    } else if qa > qb {
      MulAtLeast(qa - qb, e);
    }
  }

  lemma MulSucc(c: int, e: int)
    ensures (c + 1) * e == c * e + e
  {}

  lemma MulDivCancel(a: int, n: int)
    requires n > 0
    ensures a * n / n == a && a * n % n == 0
  {
    DivUnique(a * n, n, a, 0);
  }

  lemma DivPlusOne(x: int, n: int)
    requires n > 0
    ensures (x + n) / n == x / n + 1 && (x + n) % n == x % n
  {
    DivUnique(x + n, n, x / n + 1, x % n);
  }

  lemma DivMonotone(x: int, y: int, n: int)
    requires n > 0 && x <= y
    ensures x / n <= y / n
  {
    var qx, qy := x / n, y / n;
    assert x == qx * n + x % n;
    assert y == qy * n + y % n;
    if qx > qy {
      MulAtLeast(qx - qy, n);
    }
  }

  /** Scaling both sides of `a * n <= b` by `m / n`. */
  lemma MulBelowScaled(a: int, n: int, m: int, b: int)
    requires n > 0 && m >= 0 && a * n <= b
    ensures a * m <= b * m / n
  {
    MulDivCancel(a * m, n);
    assert a * m * n == (a * n) * m;
    MulMonotone(a * n, b, m);
    DivMonotone(a * m * n, b * m, n);
  }

  lemma MulMonotone(x: int, y: int, m: int)
    requires x <= y && m >= 0
    ensures x * m <= y * m
  {
    assert y * m - x * m == (y - x) * m;
  }
}
