/** Powers of two and bitwise and/or on naturals, with the mask identities IPv4 subnets rest on. */
module Bits {

  function Pow2(n: nat): (p: nat)
    ensures p >= 1
  {
    if n == 0 then 1 else 2 * Pow2(n - 1)
  }

  lemma Pow2Of32()
    ensures Pow2(32) == 0x1_0000_0000
  {
    assert Pow2(8) == 0x100;
    assert Pow2(16) == 0x1_0000;
    assert Pow2(24) == 0x100_0000;
  }

  function BitOr(a: nat, b: nat): nat
    decreases a + b
  {
    if a == 0 && b == 0 then 0
    else 2 * BitOr(a / 2, b / 2) + if a % 2 == 1 || b % 2 == 1 then 1 else 0
  }

  function BitAnd(a: nat, b: nat): nat
    decreases a + b
  {
    if a == 0 && b == 0 then 0
    else 2 * BitAnd(a / 2, b / 2) + if a % 2 == 1 && b % 2 == 1 then 1 else 0
  }

  lemma {:induction false} Pow2Monotone(a: nat, b: nat)
    requires a <= b
    ensures Pow2(a) <= Pow2(b)
    decreases b - a
  {
    if a < b {
      Pow2Monotone(a, b - 1);
    }
  }

  lemma {:induction false} Pow2Divides(a: nat, b: nat)
    requires a <= b
    ensures Pow2(b) % Pow2(a) == 0
    decreases b
  {
    if a == b {
    } else {
      Pow2Divides(a, b - 1);
      var q := Pow2(b - 1) / Pow2(a);
      assert Pow2(b - 1) == q * Pow2(a);
      MultipleOf(2 * q, Pow2(a));
      assert Pow2(b) == (2 * q) * Pow2(a);
    }
  }

  lemma MulGap(m: nat, a: nat, b: nat)
    requires a > b
    ensures m * a >= m * b + m
  {
    assert m * a == m * b + m * (a - b);
    assert m * (a - b) == m * (a - b - 1) + m;
  }

  lemma DivisionUnique(x: nat, m: nat, q: nat, r: nat)
    requires x == m * q + r && r < m
    ensures x / m == q && x % m == r
  {
    var q', r' := x / m, x % m;
    assert x == m * q' + r';
    if q > q' {
      MulGap(m, q, q');
    } else if q < q' {
      MulGap(m, q', q);
    }
  }

  lemma MultipleOf(q: nat, m: nat)
    requires m >= 1
    ensures q * m % m == 0
  {
    DivisionUnique(q * m, m, q, 0);
  }

  lemma HalfOfMultiple(n: nat, h: nat)
    requires h > 0 && n % Pow2(h) == 0
    ensures n % 2 == 0 && (n / 2) % Pow2(h - 1) == 0
  {
    var q, m := n / Pow2(h), Pow2(h - 1);
    assert n == (2 * m) * q == 2 * (m * q);
    MultipleOf(q, m);
    assert n / 2 == q * m;
  }

  lemma {:induction false} OrWithHostMask(n: nat, h: nat)
    requires n % Pow2(h) == 0
    ensures BitOr(n, Pow2(h) - 1) == n + Pow2(h) - 1
    decreases h, n
  {
    if h == 0 {
      OrWithZero(n);
    } else {
      HalfOfMultiple(n, h);
      OrWithHostMask(n / 2, h - 1);
      assert (Pow2(h) - 1) / 2 == Pow2(h - 1) - 1 && (Pow2(h) - 1) % 2 == 1;
    }
  }

  lemma {:induction false} OrWithZero(n: nat)
    ensures BitOr(n, 0) == n
  {
    if n != 0 {
      OrWithZero(n / 2);
    }
  }

  lemma {:induction false} AndWithAllOnes(x: nat, w: nat)
    requires x < Pow2(w)
    ensures BitAnd(x, Pow2(w) - 1) == x
  {
    if w == 0 {
    } else {
      AndWithAllOnes(x / 2, w - 1);
      assert (Pow2(w) - 1) / 2 == Pow2(w - 1) - 1 && (Pow2(w) - 1) % 2 == 1;
    }
  }

  /** Masking with an even mask clears bit 0 and masks the rest. */
  lemma AndWithEven(x: nat, half: nat, low: nat)
    requires BitAnd(x / 2, half) == x / 2 - low
    ensures BitAnd(x, 2 * half) == x - (2 * low + x % 2)
  {
    assert (2 * half) / 2 == half && (2 * half) % 2 == 0;
    assert x == 2 * (x / 2) + x % 2;
  }

  lemma RemainderHalves(x: nat, h: nat)
    requires h > 0
    ensures x % Pow2(h) == 2 * ((x / 2) % Pow2(h - 1)) + x % 2
  {
    var m, r := Pow2(h - 1), (x / 2) % Pow2(h - 1);
    var q := (x / 2) / m;
    assert x / 2 == q * m + r;
    assert x == (2 * m) * q + (2 * r + x % 2) by {
      assert 2 * (q * m) == (2 * m) * q;
    }
    DivisionUnique(x, 2 * m, q, 2 * r + x % 2);
  }

  /** The number formed by the low h bits of x. */
  function LowBits(x: nat, h: nat): nat {
    if h == 0 then 0 else 2 * LowBits(x / 2, h - 1) + x % 2
  }

  lemma {:induction false} LowBitsIsRemainder(x: nat, h: nat)
    ensures LowBits(x, h) == x % Pow2(h)
    decreases h
  {
    if h > 0 {
      LowBitsIsRemainder(x / 2, h - 1);
      RemainderHalves(x, h);
    }
  }

  lemma {:induction false} AndClearsLowBits(x: nat, w: nat, h: nat)
    requires h <= w && x < Pow2(w)
    ensures Pow2(h) <= Pow2(w) && BitAnd(x, Pow2(w) - Pow2(h)) == x - LowBits(x, h)
    decreases w
  {
    Pow2Monotone(h, w);
    if h == 0 {
      AndWithAllOnes(x, w);
    } else {
      AndClearsLowBits(x / 2, w - 1, h - 1);
      var half := Pow2(w - 1) - Pow2(h - 1);
      AndWithEven(x, half, LowBits(x / 2, h - 1));
      assert Pow2(w) - Pow2(h) == 2 * half;
    }
  }

  /** Masking a w-bit word with its network mask clears the low h bits. */
  lemma AndWithNetMask(x: nat, w: nat, h: nat)
    requires h <= w && x < Pow2(w)
    ensures Pow2(h) <= Pow2(w) && BitAnd(x, Pow2(w) - Pow2(h)) == x - x % Pow2(h)
  {
    AndClearsLowBits(x, w, h);
    LowBitsIsRemainder(x, h);
  }

  /** The low h bits of n are clear. */
  ghost predicate LowBitsClear(n: nat, h: nat) {
    h == 0 || (n % 2 == 0 && LowBitsClear(n / 2, h - 1))
  }

  lemma {:induction false} LowBitsClearIsMultiple(n: nat, h: nat)
    ensures LowBitsClear(n, h) <==> n % Pow2(h) == 0
    decreases h
  {
    if h > 0 {
      LowBitsClearIsMultiple(n / 2, h - 1);
      RemainderHalves(n, h);
    }
  }
}
