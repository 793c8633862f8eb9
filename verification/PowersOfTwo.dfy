/** Powers of two, as used for Merkle layer sizes. */
module PowersOfTwo {

  function Pow2(n: nat): (r: nat)
    ensures r >= 1
  {
    if n == 0 then 1 else 2 * Pow2(n - 1)
  }

  /** The least exponent h with n <= 2^h. */
  function CeilLog2(n: nat): (h: nat)
    ensures n <= Pow2(h)
    ensures n >= 2 ==> h >= 1 && Pow2(h - 1) < n
  {
    if n <= 1 then 0
    else
      var h := CeilLog2((n + 1) / 2);
      assert Pow2(h + 1) == 2 * Pow2(h);
      assert h >= 1 ==> Pow2(h) == 2 * Pow2(h - 1);
      h + 1
  }

  /** The bit test `n & (n - 1) == 0` for n >= 1, written arithmetically. */
  predicate IsPow2(n: nat) {
    n == 1 || (n >= 2 && n % 2 == 0 && IsPow2(n / 2))
  }

  /** The number of trailing zero bits of a power of two. */
  function Log2(n: nat): (k: nat)
    requires IsPow2(n)
    ensures n == Pow2(k)
  {
    if n == 1 then 0 else 1 + Log2(n / 2)
  }

  lemma {:induction false} Pow2IsPow2(k: nat)
    ensures IsPow2(Pow2(k))
    ensures Log2(Pow2(k)) == k
  {
    if k > 0 {
      Pow2IsPow2(k - 1);
      assert Pow2(k) / 2 == Pow2(k - 1);
    }
  }

  lemma {:induction false} Pow2Add(a: nat, b: nat)
    ensures Pow2(a + b) == Pow2(a) * Pow2(b)
  {
    if a > 0 {
      Pow2Add(a - 1, b);
      assert Pow2(a + b) == 2 * Pow2(a - 1 + b);
    }
  }

  lemma {:induction false} Pow2Monotonic(a: nat, b: nat)
    requires a <= b
    ensures Pow2(a) <= Pow2(b)
    ensures a < b ==> Pow2(a) < Pow2(b)
    decreases b - a
  {
    if a < b {
      Pow2Monotonic(a, b - 1);
    }
  }

  lemma {:induction false} Pow2Injective(a: nat, b: nat)
    requires Pow2(a) == Pow2(b)
    ensures a == b
  {
    if a < b {
      Pow2Monotonic(a, b);
    } else if b < a {
      Pow2Monotonic(b, a);
    }
  }

  lemma {:induction false} RemainderUnique(i: nat, d: nat, q: nat, r: nat)
    requires d > 0 && r < d
    requires i == d * q + r
    ensures i % d == r && i / d == q
  {
    var q' := i / d;
    assert i == d * q' + i % d;
    MulGap(d, q', q);
    MulGap(d, q, q');
  }

  lemma {:induction false} MulDistributes(d: nat, a: nat, b: nat)
    ensures d * (a + b) == d * a + d * b && d * b >= 0
  {
  }

  /** Distinct multiples of d are at least d apart. */
  lemma {:induction false} MulGap(d: nat, a: nat, b: nat)
    ensures a < b ==> d * a + d <= d * b
  {
    if a < b {
      MulDistributes(d, a, 1);
      MulDistributes(d, a + 1, b - a - 1);
    }
  }

  /** `i` halved m times. */
  function Shift(i: nat, m: nat): (r: nat) {
    if m == 0 then i else Shift(i / 2, m - 1)
  }

  /** `j` doubled k times. */
  function Scale(j: nat, k: nat): (r: nat) {
    if k == 0 then j else 2 * Scale(j, k - 1)
  }

  lemma {:induction false} ScaleIsProduct(j: nat, k: nat)
    ensures Scale(j, k) == j * Pow2(k)
  {
    if k > 0 {
      ScaleIsProduct(j, k - 1);
      MulDistributes(j, Pow2(k - 1), Pow2(k - 1));
    }
  }

  /** Block j of 2^k lies inside 2^(a + k) when j is below 2^a. */
  lemma {:induction false} ScaleFits(j: nat, a: nat, k: nat)
    requires j < Pow2(a)
    ensures Scale(j, k) + Pow2(k) <= Pow2(a + k)
  {
    if k > 0 {
      ScaleFits(j, a, k - 1);
      assert Pow2(a + k) == 2 * Pow2(a + k - 1);
    }
  }

  /** The low m bits of `i`. */
  function Low(i: nat, m: nat): (r: nat)
    ensures r < Pow2(m)
  {
    if m == 0 then 0 else 2 * Low(i / 2, m - 1) + i % 2
  }

  lemma {:induction false} LowOfSmall(i: nat, m: nat)
    requires i < Pow2(m)
    ensures Low(i, m) == i
  {
    if m > 0 {
      LowOfSmall(i / 2, m - 1);
    }
  }

  lemma {:induction false} ShiftAgain(i: nat, m: nat)
    ensures Shift(i, m) / 2 == Shift(i, m + 1)
  {
    if m > 0 {
      ShiftAgain(i / 2, m - 1);
    }
  }

  /** What is shifted out and what is left make up the number. */
  lemma {:induction false} ShiftSplits(i: nat, m: nat)
    ensures i == Scale(Shift(i, m), m) + Low(i, m)
  {
    if m > 0 {
      ShiftSplits(i / 2, m - 1);
    }
  }

  /** Halving m times divides by 2^m; the bits shifted out are the remainder. */
  lemma {:induction false} ShiftIsDivision(i: nat, m: nat)
    ensures i == Pow2(m) * Shift(i, m) + Low(i, m)
    ensures Shift(i, m) == i / Pow2(m) && Low(i, m) == i % Pow2(m)
  {
    hide Pow2, Shift, Low, Scale;
    ShiftSplits(i, m);
    ScaleIsProduct(Shift(i, m), m);
    RemainderUnique(i, Pow2(m), Shift(i, m), Low(i, m));
  }

  lemma {:induction false} MulMonotone(d: nat, a: nat, b: nat)
    requires a <= b
    ensures d * a <= d * b
  {
    MulGap(d, a, b);
  }

  lemma {:induction false} MulMonotoneIf(d: nat, a: nat, b: nat)
    ensures a <= b ==> d * a <= d * b
  {
    if a <= b {
      MulMonotone(d, a, b);
    }
  }

  lemma {:induction false} QuotientBelow(x: nat, d: nat, n: nat)
    requires d > 0 && x < d * n
    ensures x / d < n && (x / d) % n == x / d
  {
    var q := x / d;
    assert x == d * q + x % d;
    MulMonotoneIf(d, n, q);
  }

  lemma {:induction false} MulCancel(d: nat, a: nat, b: nat)
    requires d >= 1 && d * a <= d * b
    ensures a <= b
  {
    MulGap(d, b, a);
  }

  lemma {:induction false} MulAssoc(a: nat, b: nat, c: nat)
    ensures a * (b * c) == (a * b) * c
  {
  }

  /** An aligned block of 2^k indices inside 2^e of them. */
  lemma {:induction false} AlignedBlock(index: nat, k: nat, e: nat)
    requires index % Pow2(k) == 0 && index + Pow2(k) <= Pow2(e)
    ensures k <= e && index / Pow2(k) < Pow2(e - k)
    ensures index == Scale(index / Pow2(k), k)
  {
    if k > e {
      Pow2Monotonic(e, k);
    }
    hide Pow2, Scale;
    var n, j := Pow2(k), index / Pow2(k);
    assert index == n * j;
    MulDistributes(n, j, 1);
    Pow2Add(k, e - k);
    MulCancel(n, j + 1, Pow2(e - k));
    ScaleIsProduct(j, k);
  }
}
