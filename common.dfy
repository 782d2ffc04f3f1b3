/** Small helpers shared by the models: an Option type, bytes, powers and the
    division facts that the bit-field extractions (`>>` and `&` on unsigned
    values, written here as `/` and `%` by powers of two) rest on. */
module Common {

  datatype Option<+T> = None | Some(value: T)

  /** An unsigned 8-bit value (`uint8`, `unsigned char`). */
  type byte = x: int | 0 <= x < 256

  /** b to the power e. */
  function Pow(b: nat, e: nat): (r: nat)
    ensures b > 0 ==> r > 0
  {
    if e == 0 then 1 else b * Pow(b, e - 1)
  }

  /** 2^64: the modulus of `uintmax_t` arithmetic on the modelled platform. */
  const TwoTo64: nat := 0x1_0000_0000_0000_0000

  /** The quotient of a division is determined by any exact decomposition. */
  lemma DivUnique(a: int, d: int, q: int, r: int)
    requires d > 0 && a == q * d + r && 0 <= r < d
    ensures a / d == q && a % d == r
  {
    var q0, r0 := a / d, a % d;
    assert a == q0 * d + r0 && 0 <= r0 < d;
    if q0 < q {
      MulLe(1, q - q0, d);
      assert false;
    } else if q0 > q {
      MulLe(1, q0 - q, d);
      assert false;
    }
  }

  /** Dividing twice is dividing by the product (`(a >> m) >> n == a >> (m + n)`). */
  lemma DivDiv(a: nat, b: nat, c: nat)
    requires b > 0 && c > 0
    ensures a / b / c == a / (b * c)
  {
    var q, r := a / b, a % b;
    var q2, r2 := q / c, q % c;
    assert a == q * b + r;
    assert q == q2 * c + r2;
    Distrib(q2 * c, r2, b);
    assert q * b == q2 * (b * c) + r2 * b;
    MulLe(r2, c - 1, b);
    Distrib(c - 1, 1, b);
    DivUnique(a, b * c, q2, r2 * b + r);
  }

  /** v shifted right by n digits of base b (`v >> (k * n)` when b == 2^k),
      one digit at a time. */
  function Shift(v: nat, b: nat, n: nat): nat
    requires b > 0
  {
    if n == 0 then v else DivNat(v, b); Shift(v / b, b, n - 1)
  }

  lemma DivNat(v: nat, b: nat)
    requires b > 0
    ensures 0 <= v / b <= v
  {
    var q, r := v / b, v % b;
    assert v == q * b + r;
    if q < 0 {
      MulLe(1, -q, b);
      assert false;
    }
    MulLe(1, b, q);
  }

  /** One more digit shifted out. */
  lemma {:induction false} ShiftStep(v: nat, b: nat, n: nat)
    requires b > 0
    ensures Shift(v, b, n) / b == Shift(v, b, n + 1)
  {
    DivNat(v, b);
    if n > 0 {
      ShiftStep(v / b, b, n - 1);
    }
  }

  /** Shifting by n digits is dividing by b^n. */
  lemma {:induction false} ShiftIsDiv(v: nat, b: nat, n: nat)
    requires b > 0
    ensures Shift(v, b, n) == v / Pow(b, n)
  {
    if n > 0 {
      DivNat(v, b);
      var q: nat := v / b;
      assert Shift(v, b, n) == Shift(q, b, n - 1);
      ShiftIsDiv(q, b, n - 1);
      var p := Pow(b, n - 1);
      assert Pow(b, n) == b * p;
      DivDiv(v, b, p);
    }
  }

  /** Shifting by n digits and then by m digits at once is shifting by n + m. */
  lemma {:induction false} ShiftShift(v: nat, b: nat, n: nat, m: nat)
    requires b > 0
    ensures Shift(v, b, n) / Pow(b, m) == Shift(v, b, n + m)
  {
    ShiftIsDiv(v, b, n);
    ShiftIsDiv(v, b, n + m);
    DivDiv(v, Pow(b, n), Pow(b, m));
    PowAdd(b, n, m);
  }

  /** 2^(3n) == 8^n. */
  lemma {:induction false} PowEightBits(n: nat)
    ensures Pow(2, 3 * n) == Pow(8, n)
  {
    if n > 0 {
      PowEightBits(n - 1);
      calc {
        Pow(2, 3 * n);
        2 * Pow(2, 3 * n - 1);
        2 * (2 * Pow(2, 3 * n - 2));
        2 * (2 * (2 * Pow(2, 3 * (n - 1))));
      }
    }
  }

  lemma PowAdd(b: nat, m: nat, n: nat)
    ensures Pow(b, m + n) == Pow(b, m) * Pow(b, n)
  {
    if m > 0 {
      PowAdd(b, m - 1, n);
      assert Pow(b, m + n) == b * Pow(b, m - 1 + n);
      MulAssoc(b, Pow(b, m - 1), Pow(b, n));
    }
  }

  lemma Distrib(x: int, y: int, z: int)
    ensures (x + y) * z == x * z + y * z
  {
  }

  lemma MulComm(a: int, b: int)
    ensures a * b == b * a
  {
  }

  lemma MulAssoc(x: int, y: int, z: int)
    ensures x * (y * z) == x * y * z
  {
  }

  /** Euclidean division splits v into quotient and remainder. */
  lemma DivMod(v: nat, m: nat)
    requires m > 0
    ensures v == v / m * m + v % m
  {
  }

  /** Powers of a positive base grow with the exponent. */
  lemma PowMono(b: nat, i: nat, j: nat)
    requires b > 0 && i <= j
    ensures Pow(b, i) <= Pow(b, j)
  {
    if i < j {
      PowMono(b, i, j - 1);
      MulLe(1, b, Pow(b, j - 1));
    }
  }

  /** Multiplication is monotone in its left factor. */
  lemma MulLe(a: int, b: int, c: int)
    requires 0 <= a <= b && 0 <= c
    ensures a * c <= b * c
  {
  }
}
