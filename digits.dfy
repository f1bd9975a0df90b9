/** Positional notation over natural numbers, most significant digit first.
    One codec serves every base the application shows: 2, 8, 10, 16 for the
    text fields and 256 for the bytes of a 64-bit word. */
module Digits {

  function Pow(b: nat, k: nat): (r: nat)
    ensures b >= 1 ==> r >= 1
  {
    if k == 0 then 1 else b * Pow(b, k - 1)
  }

  lemma {:induction false} PowAdd(b: nat, j: nat, k: nat)
    ensures Pow(b, j + k) == Pow(b, j) * Pow(b, k)
    decreases j
  {
    if j > 0 {
      PowAdd(b, j - 1, k);
      assert Pow(b, j + k) == b * Pow(b, j - 1 + k);
      MulAssoc(b, Pow(b, j - 1), Pow(b, k));
    }
  }

  lemma {:induction false} PowMonotone(b: nat, j: nat, k: nat)
    requires b >= 1 && j <= k
    ensures Pow(b, j) <= Pow(b, k)
    decreases k
  {
    if j < k {
      PowMonotone(b, j, k - 1);
      assert Pow(b, k) == b * Pow(b, k - 1);
      MulLe(1, b, Pow(b, k - 1));
    }
  }

  /** 256^k is 2^(8k): a word of k bytes holds 8k bits. */
  lemma {:induction false} PowBytes(k: nat)
    ensures Pow(256, k) == Pow(2, 8 * k)
    decreases k
  {
    if k > 0 {
      PowBytes(k - 1);
      var j := 8 * (k - 1);
      assert 8 * k == 8 + j;
      PowAdd(2, 8, j);
      assert Pow(2, 8) == 256;
    }
  }

  /** Two hexadecimal digits make a byte. */
  lemma {:induction false} PowNibbles(k: nat)
    ensures Pow(16, 2 * k) == Pow(256, k)
    decreases k
  {
    if k > 0 {
      PowNibbles(k - 1);
      var j := 2 * (k - 1);
      assert 2 * k == 2 + j;
      PowAdd(16, 2, j);
      assert Pow(16, 2) == 256;
    }
  }

  predicate IsDigits(ds: seq<nat>, base: nat)
  {
    forall i :: 0 <= i < |ds| ==> ds[i] < base
  }

  /** The number a digit string denotes. */
  function Value(ds: seq<nat>, base: nat): nat
  {
    if ds == [] then 0 else Value(ds[..|ds| - 1], base) * base + ds[|ds| - 1]
  }

  lemma {:induction false} ValueBound(ds: seq<nat>, base: nat)
    requires IsDigits(ds, base)
    ensures Value(ds, base) < Pow(base, |ds|)
    decreases |ds|
  {
    if ds != [] {
      var init := ds[..|ds| - 1];
      ValueBound(init, base);
      var v := Value(init, base);
      MulLe(v + 1, Pow(base, |init|), base);
      MulSucc(v, base);
      assert Value(ds, base) == v * base + ds[|ds| - 1];
      assert Pow(base, |ds|) == base * Pow(base, |init|);
    }
  }

  /** Appending digits shifts the prefix up by the suffix's length. */
  lemma {:induction false} ValueAppend(a: seq<nat>, b: seq<nat>, base: nat)
    ensures Value(a + b, base) == Value(a, base) * Pow(base, |b|) + Value(b, base)
    decreases |b|
  {
    if b == [] {
      assert a + b == a;
    } else {
      var b' := b[..|b| - 1];
      assert (a + b)[..|a + b| - 1] == a + b';
      ValueAppend(a, b', base);
      var last := b[|b| - 1];
      assert Value(a + b, base) == Value(a + b', base) * base + last;
      assert Value(b, base) == Value(b', base) * base + last;
      assert Pow(base, |b|) == base * Pow(base, |b'|);
      ShiftDigit(Value(a, base), Pow(base, |b'|), Value(b', base), base, last);
    }
  }

  lemma ShiftDigit(x: nat, p: nat, y: nat, base: nat, last: nat)
    ensures (x * p + y) * base + last == x * (base * p) + (y * base + last)
  {
  }

  lemma MulSucc(v: nat, base: nat)
    ensures (v + 1) * base == v * base + base
  {
  }

  function Zeros(k: nat): (z: seq<nat>)
    ensures |z| == k && forall i :: 0 <= i < k ==> z[i] == 0
  {
    seq(k, i => 0)
  }

  lemma {:induction false} ValueZeros(k: nat, base: nat)
    ensures Value(Zeros(k), base) == 0
    decreases k
  {
    if k > 0 {
      assert Zeros(k)[..k - 1] == Zeros(k - 1);
      ValueZeros(k - 1, base);
    }
  }

  /** Leading zeros do not change the value. */
  lemma LeadingZeros(k: nat, ds: seq<nat>, base: nat)
    ensures Value(Zeros(k) + ds, base) == Value(ds, base)
  {
    ValueAppend(Zeros(k), ds, base);
    ValueZeros(k, base);
  }

  /** The shortest digit string of n: "0" for zero, no leading zero
      otherwise. This is what Rust's `{}`, `{:b}`, `{:o}` and `{:X}` emit. */
  function ToDigits(n: nat, base: nat): (ds: seq<nat>)
    requires base >= 2
    ensures |ds| >= 1 && IsDigits(ds, base) && Value(ds, base) == n
    ensures |ds| > 1 ==> ds[0] != 0
    decreases n
  {
    if n < base then [n]
    else
      var q, r := n / base, n % base;
      DivDecreases(n, base);
      var ds := ToDigits(q, base) + [r];
      assert ds[..|ds| - 1] == ToDigits(q, base);
      ds
  }

  lemma DivDecreases(n: nat, base: nat)
    requires base >= 2 && n >= base
    ensures 0 < n / base < n && n % base < base && n == n / base * base + n % base
  {
    MulLe(2, base, n);
    DivBelow(n, base, n);
  }

  lemma MulAssoc(a: nat, b: nat, c: nat)
    ensures a * (b * c) == (a * b) * c
  {
  }

  /** A number has at most k digits exactly when it is below base^k. */
  lemma {:induction false} DigitCount(n: nat, base: nat, k: nat)
    requires base >= 2 && k >= 1
    ensures |ToDigits(n, base)| <= k <==> n < Pow(base, k)
    decreases n
  {
    if n < base {
      assert |ToDigits(n, base)| == 1;
      PowMonotone(base, 1, k);
    } else {
      var q := n / base;
      assert |ToDigits(n, base)| == |ToDigits(q, base)| + 1;
      var P := Pow(base, k - 1);
      assert Pow(base, k) == P * base;
      DivBelow(n, base, P);
      if k == 1 {
        assert P == 1;
      } else {
        MulLe(2, base, n);
        DivBelow(n, base, n);
        DigitCount(q, base, k - 1);
      }
    }
  }

  /** Zero-padded to at least `width` digits: Rust's `{:0width$}` on a number. */
  function PadDigits(n: nat, base: nat, width: nat): (ds: seq<nat>)
    requires base >= 2
    ensures IsDigits(ds, base) && Value(ds, base) == n
    ensures |ds| == if |ToDigits(n, base)| <= width then width else |ToDigits(n, base)|
  {
    var short := ToDigits(n, base);
    if |short| < width then
      var ds := Zeros(width - |short|) + short;
      LeadingZeros(width - |short|, short, base);
      ds
    else short
  }

  /** Cutting a digit string in two: the tail holds the remainder. */
  lemma ValueSplit(a: seq<nat>, b: seq<nat>, base: nat)
    requires IsDigits(b, base) && base >= 1
    ensures Value(a + b, base) % Pow(base, |b|) == Value(b, base)
    ensures Value(a + b, base) / Pow(base, |b|) == Value(a, base)
  {
    ValueAppend(a, b, base);
    ValueBound(b, base);
    var p := Pow(base, |b|);
    var q := Value(a, base);
    var r := Value(b, base);
    assert q * p + r == Value(a + b, base);
    assert 0 <= r < p;
    DivModUnique(q * p + r, p, q, r);
  }

  lemma DivBelow(n: nat, d: nat, P: nat)
    requires d > 0
    ensures n / d < P <==> n < P * d
  {
    var q := n / d;
    assert n == q * d + n % d;
    if q < P {
      MulLe(q + 1, P, d);
      MulSucc(q, d);
    } else {
      MulLe(P, q, d);
    }
  }

  lemma MulLe(a: nat, b: nat, c: nat)
    requires a <= b
    ensures a * c <= b * c
  {
    var d := b - a;
    assert b * c == a * c + d * c;
  }

  lemma DivModUnique(n: nat, p: nat, q: nat, r: nat)
    requires p > 0 && r < p && n == q * p + r
    ensures n % p == r && n / p == q
  {
    var q', r' := n / p, n % p;
    assert n == q' * p + r';
    if q' < q {
      MulLe(q' + 1, q, p);
    } else if q' > q {
      MulLe(q + 1, q', p);
    }
  }

  /** Equal length digit strings with equal value are equal. */
  lemma {:induction false} ValueInjective(a: seq<nat>, b: seq<nat>, base: nat)
    requires base >= 1 && |a| == |b| && IsDigits(a, base) && IsDigits(b, base)
    requires Value(a, base) == Value(b, base)
    ensures a == b
    decreases |a|
  {
    if a != [] {
      var n := |a|;
      ValueBound(a[..n - 1], base);
      ValueBound(b[..n - 1], base);
      DivModUnique(Value(a, base), base, Value(a[..n - 1], base), a[n - 1]);
      DivModUnique(Value(b, base), base, Value(b[..n - 1], base), b[n - 1]);
      ValueInjective(a[..n - 1], b[..n - 1], base);
      assert a == a[..n - 1] + [a[n - 1]];
      assert b == b[..n - 1] + [b[n - 1]];
    }
  }
}
