/** The three word operations of IDEA besides exclusive-or: multiplication
    modulo 2^16 + 1 with the word 0 standing for 2^16 (ModuloMult), its
    inverse (ModuloMultInv, the extended Euclidean algorithm) and the
    additive inverse modulo 2^16 (ModuloAddInv). */
module ModArith {
  import opened Words
  import opened Prime65537
  import opened Arith

  /** The number a word stands for in multiplication: 0 stands for 2^16. */
  function Value(x: Word): int
  {
    if x == 0 then 0x10000 else x
  }

  /** ModuloMult, branch by branch. Each `0x10001 - ...` result is stored
      into a Uint16, which turns 0x10000 into 0. */
  function Mul(x1: Word, x2: Word): Word
  {
    if x1 == 0 && x2 != 0 then (P - x2) % 0x10000
    else if x1 != 0 && x2 == 0 then (P - x1) % 0x10000
    else if x1 == 0 && x2 == 0 then 1
    else ProductBound(x1, x2); LowHigh(x1 * x2)
  }

  /** Low half minus high half of a 32-bit product, corrected by 2^16 + 1
      when negative, and truncated to a Uint16. */
  function LowHigh(m: int): Word
    requires 0 <= m < 0x1_0000_0000
  {
    var r := m % 0x10000;
    var q := m / 0x10000;
    if r >= q then r - q else (P + r - q) % 0x10000
  }

  lemma ProductBound(a: Word, b: Word)
    ensures 0 <= a * b < 0x1_0000_0000
  {
    MulLe(a, b, 0xFFFF);
    MulLe(0xFFFF, a, 0xFFFF);
  }

  /** Since 2^16 leaves remainder -1 modulo 2^16 + 1, low minus high is the
      product's remainder. */
  lemma LowHighMod(m: int)
    requires 0 <= m < 0x1_0000_0000
    ensures LowHigh(m) == m % P % 0x10000
  {
    var r := m % 0x10000;
    var q := m / 0x10000;
    assert m == q * P + (r - q);
    if r >= q {
      DivModUnique(m, P, q, r - q);
    } else {
      DivModUnique(m, P, q - 1, P + r - q);
    }
  }

  /** Every branch of ModuloMult computes the product of the two values
      modulo 2^16 + 1, truncated to a word. */
  lemma MulSem(x1: Word, x2: Word)
    ensures Mul(x1, x2) == (Value(x1) * Value(x2)) % P % 0x10000
  {
    if x1 != 0 && x2 != 0 {
      ProductBound(x1, x2);
      LowHighMod(x1 * x2);
    } else if x1 == 0 && x2 != 0 {
      DivModUnique(0x10000 * x2, P, x2 - 1, P - x2);
    } else if x1 != 0 && x2 == 0 {
      DivModUnique(x1 * 0x10000, P, x1 - 1, P - x1);
    } else {
      DivModUnique(0x10000 * 0x10000, P, 0xFFFF, 1);
    }
  }

  /** Modulo a prime, a product of non-multiples is not a multiple. */
  lemma {:induction false} NoZeroDivisors(a: int, b: int)
    requires 0 < a < P && 0 < b < P
    ensures (a * b) % P != 0
    decreases a
  {
    if a > 1 && (a * b) % P == 0 {
      var q, r := P / a, P % a;
      NoDivisor(a);
      assert 0 < r < a;
      var k := (a * b) / P;
      assert a * b == k * P;
      assert r * b == (b - q * k) * P by {
        assert r * b == (P - q * a) * b;
        assert (P - q * a) * b == P * b - q * (a * b);
      }
      DivModUnique(r * b, P, b - q * k, 0);
      NoZeroDivisors(r, b);
      assert false;
    }
  }

  /** The result of ModuloMult, read as a value, is exactly the product of
      the values modulo 2^16 + 1: the product is never 0 modulo the prime,
      so truncation to a word loses nothing. */
  lemma MulValue(x1: Word, x2: Word)
    ensures Value(Mul(x1, x2)) == (Value(x1) * Value(x2)) % P
  {
    MulSem(x1, x2);
    NoZeroDivisors(Value(x1), Value(x2));
  }

  lemma ValueInjective(x: Word, y: Word)
    requires Value(x) == Value(y)
    ensures x == y
  {
  }

  /** Reducing a factor first does not change a remainder modulo 2^16 + 1. */
  lemma ModMulLeft(a: nat, z: nat)
    ensures ((a % P) * z) % P == (a * z) % P
  {
    var q, r := a / P, a % P;
    var s := r * z;
    assert a * z == (q * z) * P + s by {
      assert a == q * P + r;
      assert a * z == (q * P) * z + r * z;
    }
    assert s == (s / P) * P + s % P;
    DivModUnique(a * z, P, q * z + s / P, s % P);
  }

  lemma MulCommutes(x: Word, y: Word)
    ensures Mul(x, y) == Mul(y, x)
  {
    MulSem(x, y);
    MulSem(y, x);
    assert Value(x) * Value(y) == Value(y) * Value(x);
  }

  lemma MulAssoc(x: Word, y: Word, z: Word)
    ensures Mul(Mul(x, y), z) == Mul(x, Mul(y, z))
  {
    var left, right := Mul(Mul(x, y), z), Mul(Mul(y, z), x);
    TripleLeft(x, y, z);
    TripleLeft(y, z, x);
    Rearrange(Value(x), Value(y), Value(z));
    ValueInjective(left, right);
    MulCommutes(x, Mul(y, z));
  }

  lemma Rearrange(a: int, b: int, c: int)
    ensures (a * b) * c == (b * c) * a
  {
  }

  lemma TripleLeft(x: Word, y: Word, z: Word)
    ensures Value(Mul(Mul(x, y), z)) == ((Value(x) * Value(y)) * Value(z)) % P
  {
    MulValue(x, y);
    MulValue(Mul(x, y), z);
    ModMulLeft(Value(x) * Value(y), Value(z));
  }

  /** The word 1 is the multiplicative identity. */
  lemma MulOne(x: Word)
    ensures Mul(x, 1) == x && Mul(1, x) == x
  {
    MulValue(x, 1);
    MulValue(1, x);
    DivModUnique(Value(x), P, 0, Value(x));
    ValueInjective(Mul(x, 1), x);
    ValueInjective(Mul(1, x), x);
  }

  /** Multiplying by a key and then by its inverse restores the word. */
  lemma MulCancel(a: Word, k: Word, ki: Word)
    requires Mul(k, ki) == 1
    ensures Mul(Mul(a, k), ki) == a
  {
    MulAssoc(a, k, ki);
    MulOne(a);
  }

  /** A word has at most one multiplicative inverse. */
  lemma MulInverseUnique(x: Word, y: Word, z: Word)
    requires Mul(x, y) == 1 && Mul(x, z) == 1
    ensures y == z
  {
    MulCommutes(x, y);
    MulAssoc(y, x, z);
    MulOne(y);
    MulOne(z);
  }

  /** ModuloAddInv: the word that added to x wraps around to 0. */
  function AddInv(x: Word): (r: Word)
    ensures Add16(x, r) == 0
  {
    (0x10000 - x) % 0x10000
  }

  lemma AddInvInvolution(x: Word)
    ensures AddInv(AddInv(x)) == x
  {
  }

  /** ModuloAddInv yields the only additive inverse. */
  lemma AddInvUnique(x: Word, y: Word)
    requires Add16(x, y) == 0
    ensures y == AddInv(x)
  {
  }

  lemma AddCancel(a: Word, k: Word)
    ensures Add16(Add16(a, k), AddInv(k)) == a
  {
    if k != 0 {
      assert AddInv(k) == 0x10000 - k;
      if a + k < 0x10000 {
        assert Add16(a, k) == a + k;
      } else {
        assert Add16(a, k) == a + k - 0x10000;
      }
    }
  }

  /** ModuloMultInv: the extended Euclidean algorithm on 2^16 + 1 and x,
      with the C integer widths checked along the way (every remainder and
      quotient fits a Uint16, every coefficient an Sint32, and the final
      `(v + 0x10001) % 0x10001` has a non-negative left operand, so C's
      truncating remainder agrees with Dafny's). The ghost variables u1, u2
      carry the Bezout coefficients of 2^16 + 1. */
  method MulInv(x: Word) returns (y: Word)
    ensures Mul(x, y) == 1
    ensures x == 0 ==> y == 0
    ensures x == 1 ==> y == 1
  {
    if x == 0 {
      assert Mul(0, 0) == 1;
      return 0;
    } else if x == 1 {
      assert Mul(1, 1) == 1;
      return 1;
    }
    var r2: int := P;
    var r1: int := x;
    var v2: int, v1: int := 0, 1;
    ghost var u2: int, u1: int := 1, 0;
    var r: int, k: int, v: int;
    while true
      invariant 2 <= r1 < r2 <= P
      invariant r2 == u2 * P + v2 * x && r1 == u1 * P + v1 * x
      invariant (v1 > 0 && v2 <= 0) || (v1 < 0 && v2 >= 0)
      invariant r2 * Abs(v1) + r1 * Abs(v2) == P
      decreases r1
    {
      r := r2 % r1;
      k := r2 / r1;
      v := v2 - k * v1;
      ghost var u := u2 - k * u1;
      EuclidStep(r2, r1, v2, v1, k, r, v);
      BezoutStep(x, r2, r1, u2, u1, v2, v1, k, r);
      r2, r1, v2, v1 := r1, r, v1, v;
      u2, u1 := u1, u;
      if r == 1 {
        break;
      }
      if r == 0 {
        NoDivisor(r2);
        assert false;
      }
    }
    // Now v1 * x == 1 + (-u1) * P, and |v1| <= P / 2 because r2 >= 2.
    MulLe(Abs(v1), 2, r2);
    assert v1 + P > 0;
    var w := (v1 + P) % P;
    y := w % 0x10000;
    InverseValue(x, v1, u1, w, y);
  }

  function Abs(n: int): nat
  {
    if n < 0 then -n else n
  }

  /** One division step keeps the remainder identity of the extended
      Euclidean algorithm, alternates the signs of the coefficients, keeps
      every quantity within a Uint16 or Sint32, and shows that a zero
      remainder would make r1 a divisor of 2^16 + 1. */
  lemma EuclidStep(r2: int, r1: int, v2: int, v1: int, k: int, r: int, v: int)
    requires 2 <= r1 < r2 <= P
    requires (v1 > 0 && v2 <= 0) || (v1 < 0 && v2 >= 0)
    requires r2 * Abs(v1) + r1 * Abs(v2) == P
    requires r == r2 % r1 && k == r2 / r1 && v == v2 - k * v1
    ensures 1 <= k < 0x10000 && 0 <= r < r1
    ensures (v > 0 && v1 <= 0) || (v < 0 && v1 >= 0)
    ensures r1 * Abs(v) + r * Abs(v1) == P
    ensures -0x8000_0000 <= v < 0x8000_0000
    ensures r == 0 ==> P % r1 == 0
  {
    Quotient(r2, r1, k, r);
    Coefficients(r2, r1, v2, v1, k, r, v);
    if r == 0 {
      assert P == Abs(v) * r1;
      DivModUnique(P, r1, Abs(v), 0);
    }
  }

  lemma Quotient(r2: int, r1: int, k: int, r: int)
    requires 2 <= r1 < r2 <= P
    requires r == r2 % r1 && k == r2 / r1
    ensures r2 == k * r1 + r
    ensures 1 <= k < 0x10000 && 0 <= r < r1
  {
    if k == 0 {
      assert false;
    }
    MulLe(k, 2, r1);
  }

  lemma Coefficients(r2: int, r1: int, v2: int, v1: int, k: int, r: int, v: int)
    requires 2 <= r1 && 1 <= k && 0 <= r
    requires r2 == k * r1 + r
    requires (v1 > 0 && v2 <= 0) || (v1 < 0 && v2 >= 0)
    requires r2 * Abs(v1) + r1 * Abs(v2) == P
    requires v == v2 - k * v1
    ensures (v > 0 && v1 <= 0) || (v < 0 && v1 >= 0)
    ensures Abs(v) == Abs(v2) + k * Abs(v1)
    ensures r1 * Abs(v) + r * Abs(v1) == P
    ensures -0x8000_0000 <= v < 0x8000_0000
  {
    var av := Abs(v1);
    if v1 > 0 {
      MulLe(k, 1, v1);
    } else {
      MulLe(k, 1, -v1);
      assert k * (-v1) == -(k * v1);
    }
    assert r1 * Abs(v) == r1 * Abs(v2) + (k * r1) * av;
    assert (k * r1) * av + r * av == r2 * av;
    MulLe(Abs(v), 1, r1);
  }

  lemma BezoutStep(x: int, r2: int, r1: int, u2: int, u1: int, v2: int, v1: int, k: int, r: int)
    requires r2 == u2 * P + v2 * x && r1 == u1 * P + v1 * x
    requires r2 == k * r1 + r
    ensures r == (u2 - k * u1) * P + (v2 - k * v1) * x
  {
    assert k * r1 == (k * u1) * P + (k * v1) * x;
  }

  /** A Bezout coefficient of x, reduced into a word, is its inverse. */
  lemma InverseValue(x: Word, c: int, u: int, w: int, y: Word)
    requires x >= 2
    requires 1 == u * P + c * x
    requires c + P > 0 && w == (c + P) % P && y == w % 0x10000
    ensures Mul(x, y) == 1
  {
    DivModUnique(c + P, P, (c + P) / P, w);
    var m := (c + P) / P;
    assert c == (m - 1) * P + w;
    assert w * x == 1 + ((1 - m) * x - u) * P by {
      assert w * x == c * x - (m - 1) * P * x;
      assert (m - 1) * P * x == ((m - 1) * x) * P;
    }
    DivModUnique(w * x, P, (1 - m) * x - u, 1);
    assert w != 0;
    ProductValue(x, y, w);
    assert Value(Mul(x, y)) == 1;
  }

  /** MulValue for a first factor of at least 2 and a second factor whose
      value is w. */
  lemma ProductValue(x: Word, y: Word, w: int)
    requires x >= 2 && 0 < w <= 0x10000 && y == w % 0x10000
    ensures Value(Mul(x, y)) == (w * x) % P
  {
    assert Value(x) == x && Value(y) == w;
    MulValue(x, y);
  }
}
