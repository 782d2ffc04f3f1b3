/** `numlen`: the number of characters of the decimal representation of an
    integer, its minus sign included. The signed overloads (`int`, `short`,
    `long`, `long long`) share one body, and so do the unsigned ones; the
    width of the argument only bounds the result. */
module NumLen {
  import opened Common

  function Abs(n: int): nat
  {
    if n < 0 then -n else n
  }

  /** The number of decimal digits of a positive number. */
  function Digits(n: nat): (k: nat)
    requires n > 0
    ensures k >= 1
  {
    if n < 10 then 1 else 1 + Digits(n / 10)
  }

  /** What `numlen` returns: 1 for zero, otherwise the digits of the
      magnitude plus one for a minus sign. */
  function NumLenOf(num: int): (len: nat)
    ensures len >= 1
  {
    if num == 0 then 1 else Digits(Abs(num)) + (if num < 0 then 1 else 0)
  }

  /** C's `num / 10`, which truncates toward zero. */
  function Quot10(n: int): (q: int)
    ensures Abs(q) == Abs(n) / 10
    ensures q != 0 ==> (q < 0 <==> n < 0)
  {
    if n >= 0 then n / 10 else -((-n) / 10)
  }

  /** `numlen` for the signed overloads. */
  method NumLenSigned(num: int) returns (len: int)
    ensures len == NumLenOf(num)
  {
    len := 0;
    if num == 0 {
      return 1;
    }
    if num < 0 {
      len := 1;
    }
    var n := num;
    while n != 0
      invariant n != 0 ==> (n < 0 <==> num < 0)
      invariant n != 0 ==> len + Digits(Abs(n)) == NumLenOf(num)
      invariant n == 0 ==> len == NumLenOf(num)
      decreases Abs(n)
    {
      len := len + 1;
      n := Quot10(n);
    }
  }

  /** `numlen` for the unsigned overloads. */
  method NumLenUnsigned(num: nat) returns (len: int)
    ensures len == NumLenOf(num)
  {
    len := 0;
    if num == 0 {
      return 1;
    }
    var n := num;
    while n != 0
      invariant n != 0 ==> len + Digits(n) == NumLenOf(num)
      invariant n == 0 ==> len == NumLenOf(num)
    {
      len := len + 1;
      n := n / 10;
    }
  }

  lemma PowTenStep(k: nat)
    ensures Pow(10, k + 1) == 10 * Pow(10, k)
  {
  }

  /** A positive number has k digits exactly when 10^(k-1) <= n < 10^k. */
  lemma {:induction false} DigitsBounds(n: nat)
    requires n > 0
    ensures Pow(10, Digits(n) - 1) <= n < Pow(10, Digits(n))
  {
    if n >= 10 {
      var q := n / 10;
      DigitsBounds(q);
      var k := Digits(q);
      PowTenStep(k - 1);
      PowTenStep(k);
      assert n == 10 * q + n % 10;
      MulLe(Pow(10, k - 1), q, 10);
      MulLe(q + 1, Pow(10, k), 10);
    }
  }

  /** The converse: the bounds determine the digit count. */
  lemma DigitsUnique(n: nat, k: nat)
    requires n > 0 && k >= 1 && Pow(10, k - 1) <= n < Pow(10, k)
    ensures Digits(n) == k
  {
    DigitsBounds(n);
    var d := Digits(n);
    if d < k {
      PowMono(10, d, k - 1);
      assert false;
    } else if d > k {
      PowMono(10, k, d - 1);
      assert false;
    }
  }

  /** The result of `numlen`, sign aside, is the least k with |num| < 10^k. */
  lemma NumLenIsLength(num: int)
    requires num != 0
    ensures var k := NumLenOf(num) - (if num < 0 then 1 else 0);
      Pow(10, k - 1) <= Abs(num) < Pow(10, k)
  {
    DigitsBounds(Abs(num));
  }

  /** A magnitude below 10^k has at most k digits. */
  lemma DigitsAtMost(n: nat, k: nat)
    requires 0 < n < Pow(10, k)
    ensures Digits(n) <= k
  {
    DigitsBounds(n);
    if Digits(n) > k {
      PowMono(10, k, Digits(n) - 1);
    }
  }

  /** The widest 32-bit `int`, -2147483648, takes 11 characters, and no
      32-bit value takes more. */
  lemma NumLenInt32(num: int)
    requires -0x8000_0000 <= num < 0x8000_0000
    ensures NumLenOf(num) <= 11
    ensures NumLenOf(-0x8000_0000) == 11
  {
    assert Pow(10, 10) == 10_000_000_000 by {
      assert Pow(10, 5) == 100_000;
      PowAdd(10, 5, 5);
    }
    assert Pow(10, 9) == 1_000_000_000 by {
      assert Pow(10, 4) == 10_000;
      PowAdd(10, 4, 5);
    }
    if num != 0 {
      DigitsAtMost(Abs(num), 10);
    }
    DigitsUnique(0x8000_0000, 10);
  }

  /** A 64-bit unsigned value takes at most 20 characters. */
  lemma NumLenUint64(num: nat)
    requires num < TwoTo64
    ensures NumLenOf(num) <= 20
  {
    assert Pow(10, 20) == 100_000_000_000_000_000_000 by {
      assert Pow(10, 5) == 100_000;
      PowAdd(10, 5, 5);
      PowAdd(10, 10, 10);
    }
    if num != 0 {
      DigitsAtMost(num, 20);
    }
  }
}
