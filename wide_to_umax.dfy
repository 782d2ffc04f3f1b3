/** `wcstoumax`: conversion of the initial part of a wide C string to a
    64-bit `uintmax_t`, as ISO C99 section 7.8.2.3 describes it in terms of
    section 7.20.1.4 (`strtoul`), in the BSD formulation with a cutoff
    value for the overflow test. `iswspace` is taken in the "C" locale. */
module WideToUmax {
  import opened Common
  import opened CaseMapping

  /** `UINTMAX_MAX` for a 64-bit `uintmax_t`. */
  const UMaxMax: nat := TwoTo64 - 1

  /** What `errno` is left holding. */
  datatype Errno = Unchanged | ERANGE | EINVAL

  /** The returned value, `errno`, and where `*endptr` points (an index into
      the string; 0 is `nptr` itself). */
  datatype Conversion = Conversion(value: nat, errno: Errno, end: nat)

  /** `iswspace` in the "C" locale: space, \t, \n, \v, \f and \r. */
  predicate IsSpace(c: int)
  {
    c == ' ' as int || 9 <= c <= 13
  }

  /** The value of a digit or letter (letters in either case count from 10),
      and 36 for any other character, which no base admits. */
  function DigitValue(c: int): (d: nat)
    ensures d <= 36
  {
    if '0' as int <= c <= '9' as int then c - '0' as int
    else if 'A' as int <= c <= 'Z' as int then c - 'A' as int + 10
    else if 'a' as int <= c <= 'z' as int then c - 'a' as int + 10
    else 36
  }

  predicate IsDigitIn(c: int, base: nat)
  {
    DigitValue(c) < base
  }

  /** The first character from i on that is not white space. */
  function SkipSpace(str: seq<int>, i: nat): (j: nat)
    requires Terminated(str) && i <= CLen(str)
    ensures i <= j <= CLen(str) && !IsSpace(str[j])
    ensures forall k :: i <= k < j ==> IsSpace(str[k])
    decreases CLen(str) - i
  {
    if IsSpace(str[i]) then SkipSpace(str, i + 1) else i
  }

  /** The end of the run of base-`base` digits that starts at i. */
  function DigitEnd(str: seq<int>, i: nat, base: nat): (j: nat)
    requires Terminated(str) && i <= CLen(str) && base <= 36
    ensures i <= j <= CLen(str) && !IsDigitIn(str[j], base)
    ensures forall k :: i <= k < j ==> IsDigitIn(str[k], base)
    decreases CLen(str) - i
  {
    if IsDigitIn(str[i], base) then DigitEnd(str, i + 1, base) else i
  }

  /** The number a digit string denotes in the given base. */
  function Value(ds: seq<int>, base: nat): nat
  {
    if |ds| == 0 then 0 else Value(ds[..|ds| - 1], base) * base + DigitValue(ds[|ds| - 1])
  }

  /** Where the optional sign ends. */
  function SignEnd(str: seq<int>, p: nat): (q: nat)
    requires Terminated(str) && p <= CLen(str)
    ensures p <= q <= CLen(str)
  {
    if str[p] == '-' as int || str[p] == '+' as int then p + 1 else p
  }

  /** A "0x" or "0X" prefix that the base admits. */
  predicate HexPrefix(str: seq<int>, p: nat, base: int)
    requires Terminated(str) && p <= CLen(str)
  {
    (base == 0 || base == 16) && str[p] == '0' as int && p + 1 < |str| &&
    (str[p + 1] == 'x' as int || str[p + 1] == 'X' as int)
  }

  /** The subject sequence of `wcstoumax(str, &end, base)`: where its digits
      start, whether it is negated, and the base they are read in. */
  datatype Subject = Subject(start: nat, neg: bool, base: int)

  function ParseSubject(str: seq<int>, base: int): (sub: Subject)
    requires Terminated(str)
    ensures sub.start <= CLen(str)
  {
    var p0 := SkipSpace(str, 0);
    var p1 := SignEnd(str, p0);
    if HexPrefix(str, p1, base) then
      assert str[p1 + 1] != 0;
      Subject(p1 + 2, str[p0] == '-' as int, 16)
    else if base == 0 then Subject(p1, str[p0] == '-' as int, if str[p1] == '0' as int then 8 else 10)
    else Subject(p1, str[p0] == '-' as int, base)
  }

  /** The result of `wcstoumax`: no digits (or an unusable base) is no
      conversion, with `errno` EINVAL and the end pointer at the start; a
      value beyond `UINTMAX_MAX` gives `UINTMAX_MAX` and ERANGE; otherwise
      the value, negated modulo 2^64 after a minus sign. The end pointer is
      just past the last digit. */
  function Strtoumax(str: seq<int>, base: int): (r: Conversion)
    requires Terminated(str)
    ensures r.value <= UMaxMax && r.end <= CLen(str)
  {
    var sub := ParseSubject(str, base);
    if sub.base < 2 || sub.base > 36 then Conversion(0, EINVAL, 0)
    else
      var e := DigitEnd(str, sub.start, sub.base);
      var v := Value(str[sub.start..e], sub.base);
      if e == sub.start then Conversion(0, EINVAL, 0)
      else if v > UMaxMax then Conversion(UMaxMax, ERANGE, e)
      else if sub.neg then Conversion((TwoTo64 - v) % TwoTo64, Unchanged, e)
      else Conversion(v, Unchanged, e)
  }

  // ---------------------------------------------------------------------
  // The source's loop
  // ---------------------------------------------------------------------

  /** The overflow test of the loop: with `cutoff = UINTMAX_MAX / base` and
      `cutlim = UINTMAX_MAX % base`, a digit c overflows the accumulator
      exactly when acc * base + c exceeds `UINTMAX_MAX`. */
  lemma CutoffTest(acc: nat, c: nat, base: nat)
    requires 2 <= base && c < base
    ensures (acc > UMaxMax / base || (acc == UMaxMax / base && c > UMaxMax % base))
      <==> acc * base + c > UMaxMax
  {
    var q, r := UMaxMax / base, UMaxMax % base;
    assert UMaxMax == q * base + r;
    if acc > q {
      MulLe(q + 1, acc, base);
    } else if acc < q {
      MulLe(acc + 1, q, base);
    } else {
    }
  }

  /** `wcstoumax`, first half: skip white space, take a sign, take a hex
      prefix, settle the base. On return `c == str[s - 1]` is the first
      character of the digits. */
  method ScanSubject(str: seq<int>, base0: int) returns (s: nat, c: int, neg: bool, base: int)
    requires Terminated(str)
    ensures var sub := ParseSubject(str, base0);
      1 <= s <= CLen(str) + 1 && s - 1 == sub.start && c == str[s - 1] &&
      neg == sub.neg && base == sub.base
  {
    base := base0;
    ghost var p0 := SkipSpace(str, 0);
    s, c := SkipWhiteSpace(str);
    if c == '-' as int {
      neg := true;
      c := str[s];
      s := s + 1;
    } else {
      neg := false;
      if c == '+' as int {
        c := str[s];
        s := s + 1;
      }
    }
    assert s - 1 == SignEnd(str, p0) && neg == (str[p0] == '-' as int);
    ghost var p1 := s - 1;
    if (base == 0 || base == 16) && c == '0' as int && (str[s] == 'x' as int || str[s] == 'X' as int) {
      assert HexPrefix(str, p1, base0);
      c := str[s + 1];
      s := s + 2;
      base := 16;
    } else {
      assert !HexPrefix(str, p1, base0);
    }
    if base == 0 {
      base := if c == '0' as int then 8 else 10;
    }
  }

  /** The do-while loop at the head of `wcstoumax`: read characters until
      one is not white space; it is `c == str[s - 1]`. */
  method SkipWhiteSpace(str: seq<int>) returns (s: nat, c: int)
    requires Terminated(str)
    ensures 1 <= s && s - 1 == SkipSpace(str, 0) && c == str[s - 1]
  {
    ghost var p0 := SkipSpace(str, 0);
    s := 0;
    c := str[s];
    s := s + 1;
    while IsSpace(c)
      invariant 1 <= s <= p0 + 1 && c == str[s - 1]
      invariant forall k :: 0 <= k < s - 1 ==> IsSpace(str[k])
      decreases p0 + 1 - s
    {
      c := str[s];
      s := s + 1;
    }
  }

  /** `wcstoumax`: the subject scan, then the digit loop, then the error
      and sign handling. */
  method Wcstoumax(str: seq<int>, base0: int) returns (r: Conversion)
    requires Terminated(str)
    ensures r == Strtoumax(str, base0)
  {
    var s, c, neg, base := ScanSubject(str, base0);
    var acc: nat := 0;
    var any := 0;
    if base < 2 || base > 36 {
      return Conversion(0, EINVAL, 0);
    }
    s, acc, any := ReadDigits(str, s, c, base);
    if any < 0 {
      acc := UMaxMax;
      return Conversion(acc, ERANGE, s - 1);
    } else if any == 0 {
      return Conversion(0, EINVAL, 0);
    } else if neg {
      acc := (TwoTo64 - acc) % TwoTo64;
    }
    return Conversion(acc, Unchanged, s - 1);
  }

  /** The digit loop of `wcstoumax`: `c == str[s0 - 1]` is the first
      candidate digit. `any` ends up 0 when there was no digit, -1 when the
      value overflowed, and 1 with the value in `acc` otherwise; `s - 1` is
      just past the last digit. */
  method ReadDigits(str: seq<int>, s0: nat, c0: int, base: nat) returns (s: nat, acc: nat, any: int)
    requires Terminated(str) && 1 <= s0 <= CLen(str) + 1 && c0 == str[s0 - 1] && 2 <= base <= 36
    ensures s - 1 == DigitEnd(str, s0 - 1, base)
    ensures any == 0 <==> s - 1 == s0 - 1
    ensures any < 0 <==> Value(str[s0 - 1..s - 1], base) > UMaxMax
    ensures any > 0 ==> acc == Value(str[s0 - 1..s - 1], base)
  {
    ghost var start := s0 - 1;
    ghost var e := DigitEnd(str, start, base);
    ghost var v: nat := 0;
    s, acc, any := s0, 0, 0;
    var c := c0;
    var cutoff := UMaxMax / base;
    var cutlim := UMaxMax % base;
    while true
      invariant start < s <= e + 1 && c == str[s - 1]
      invariant v == Value(str[start..s - 1], base)
      invariant v > UMaxMax <==> any < 0
      invariant any >= 0 ==> acc == v
      invariant any == 0 <==> s - 1 == start
      invariant acc <= UMaxMax && -1 <= any <= 1
      decreases e + 1 - s
    {
      // A character that is neither digit nor letter ends the loop at once
      // in the source; its `DigitValue` of 36 ends it here.
      var d := DigitValue(c);
      if d >= base {
        break;
      }
      assert s - 1 < e;
      ValueStep(str, start, s - 1, base);
      ghost var v' := v * base + d;
      OverflowStep(v, acc, any, d, base);
      if any < 0 || acc > cutoff || (acc == cutoff && d > cutlim) {
        any := -1;
      } else {
        any := 1;
        acc := acc * base + d;
      }
      v := v';
      c := str[s];
      s := s + 1;
    }
  }

  /** The overflow test of one turn of the digit loop, in terms of the
      value read so far: it fires exactly when the value with the new digit
      exceeds `UINTMAX_MAX`, and otherwise the accumulator takes that value. */
  lemma OverflowStep(v: nat, acc: nat, any: int, d: nat, base: nat)
    requires 2 <= base && d < base && acc <= UMaxMax
    requires v > UMaxMax <==> any < 0
    requires any >= 0 ==> acc == v
    ensures var overflow := any < 0 || acc > UMaxMax / base || (acc == UMaxMax / base && d > UMaxMax % base);
      (overflow <==> v * base + d > UMaxMax) && (!overflow ==> acc * base + d == v * base + d <= UMaxMax)
  {
    CutoffTest(acc, d, base);
    if any < 0 {
      ValueGrows(v, d, base);
    }
  }

  /** One more digit: the value of the longer run. */
  lemma ValueStep(str: seq<int>, start: nat, i: nat, base: nat)
    requires start <= i < |str|
    ensures Value(str[start..i + 1], base) == Value(str[start..i], base) * base + DigitValue(str[i])
  {
    assert str[start..i + 1][..i - start] == str[start..i];
  }

  /** Once too large, the accumulated value stays too large. */
  lemma ValueGrows(v: nat, d: nat, base: nat)
    requires base >= 1
    ensures v * base + d >= v
  {
    MulLe(1, base, v);
  }

  // ---------------------------------------------------------------------
  // Properties
  // ---------------------------------------------------------------------

  /** The end pointer is just past the last digit: every character from the
      start of the digits up to it is a digit in the base, and the character
      it points to is not. When nothing is converted it is `nptr`. */
  lemma EndPastLastDigit(str: seq<int>, base: int)
    requires Terminated(str)
    ensures var r := Strtoumax(str, base); var sub := ParseSubject(str, base);
      r.errno != EINVAL ==> (2 <= sub.base <= 36 && sub.start < r.end && !IsDigitIn(str[r.end], sub.base) &&
        forall k :: sub.start <= k < r.end ==> IsDigitIn(str[k], sub.base))
    ensures Strtoumax(str, base).errno == EINVAL ==> Strtoumax(str, base).end == 0 && Strtoumax(str, base).value == 0
  {
  }

  /** A base outside 2..36 (other than 0, which is settled first) converts
      nothing. */
  lemma BadBase(str: seq<int>, base: int)
    requires Terminated(str) && (base == 1 || base < 0 || base > 36)
    ensures Strtoumax(str, base) == Conversion(0, EINVAL, 0)
  {
  }

  // ---------------------------------------------------------------------
  // Round trip with a digit formatter
  // ---------------------------------------------------------------------

  /** The character for a digit value: '0'-'9', then lower-case letters. */
  function DigitChar(d: nat): (c: int)
    requires d < 36
    ensures DigitValue(c) == d
  {
    if d < 10 then '0' as int + d else 'a' as int + d - 10
  }

  /** The digits of v in the given base, most significant first, with no
      leading zero. */
  function Format(v: nat, base: nat): (ds: seq<int>)
    requires 2 <= base <= 36
    ensures |ds| >= 1
    ensures forall k :: 0 <= k < |ds| ==> IsDigitIn(ds[k], base) && ds[k] != 0
    ensures v > 0 ==> ds[0] != '0' as int
    decreases v
  {
    if v < base then [DigitChar(v)]
    else
      DivSmaller(v, base);
      DivMod(v, base);
      Format(v / base, base) + [DigitChar(v % base)]
  }

  lemma DivSmaller(v: nat, m: nat)
    requires 2 <= m <= v
    ensures 0 < v / m < v
  {
    DivMod(v, m);
    var q, r := v / m, v % m;
    MulLe(2, m, q);
    assert q * m > 0;
  }

  /** Formatting and then taking the value gives back the number. */
  lemma {:induction false} ValueFormat(v: nat, base: nat)
    requires 2 <= base <= 36
    ensures Value(Format(v, base), base) == v
    decreases v
  {
    var ds := Format(v, base);
    if v >= base {
      var init := Format(v / base, base);
      assert ds == init + [DigitChar(v % base)];
      assert ds[..|ds| - 1] == init;
      DivSmaller(v, base);
      ValueFormat(v / base, base);
      assert Value(ds, base) == Value(init, base) * base + v % base;
      DivMod(v, base);
    }
  }

  /** A string holding the number v as `Format` writes it, after the given
      prefix and an optional minus sign. */
  function Formatted(pre: seq<int>, neg: bool, v: nat, base: nat): seq<int>
    requires 2 <= base <= 36
  {
    pre + (if neg then ['-' as int] else []) + Format(v, base) + [0]
  }

  /** `wcstoumax` reads back what `Format` writes: white space, an optional
      minus sign, then the digits of a 64-bit value and the terminator
      convert to that value (negated modulo 2^64 after the sign) with
      `errno` untouched, and the end pointer lands on the terminator. */
  lemma StrtoumaxFormat(pre: seq<int>, neg: bool, v: nat, base: nat)
    requires 2 <= base <= 36 && v <= UMaxMax
    requires forall k :: 0 <= k < |pre| ==> IsSpace(pre[k])
    ensures Terminated(Formatted(pre, neg, v, base))
    ensures Strtoumax(Formatted(pre, neg, v, base), base) ==
      Conversion(if neg then (TwoTo64 - v) % TwoTo64 else v, Unchanged, |Formatted(pre, neg, v, base)| - 1)
  {
    var str := Formatted(pre, neg, v, base);
    var q := |pre| + if neg then 1 else 0;
    FormattedSubject(pre, neg, v, base);
    Converted(str, base, Subject(q, neg, base), |str| - 1);
  }

  /** The subject of a formatted number: its digits start after the prefix
      and the sign, run up to the terminator, and denote the number. */
  lemma FormattedSubject(pre: seq<int>, neg: bool, v: nat, base: nat)
    requires 2 <= base <= 36 && v <= UMaxMax
    requires forall k :: 0 <= k < |pre| ==> IsSpace(pre[k])
    ensures var str := Formatted(pre, neg, v, base); var q := |pre| + if neg then 1 else 0;
      Terminated(str) && q < |str| - 1 && ParseSubject(str, base) == Subject(q, neg, base) &&
      DigitEnd(str, q, base) == |str| - 1 && Value(str[q..|str| - 1], base) == v
  {
    var ds := Format(v, base);
    var sign := if neg then ['-' as int] else [];
    var str := Formatted(pre, neg, v, base);
    assert str == pre + sign + ds + [0];
    var p := |pre|;
    var q := p + |sign|;
    assert forall k :: 0 <= k < p ==> str[k] == pre[k];
    assert str[q..|str| - 1] == ds;
    assert neg ==> str[p] == '-' as int;
    assert !neg ==> str[p] == ds[0];
    assert v == 0 ==> |ds| == 1;
    LaidOut(str, p, neg, base, ds);
    ValueFormat(v, base);
  }

  /** White space, an optional minus sign, a run of digits and the
      terminator: the subject starts after the sign and its digits run up to
      the terminator. */
  lemma LaidOut(str: seq<int>, p: nat, neg: bool, base: nat, ds: seq<int>)
    requires 2 <= base <= 36 && |ds| >= 1
    requires forall k :: 0 <= k < |ds| ==> IsDigitIn(ds[k], base) && ds[k] != 0
    requires |ds| == 1 || ds[0] != '0' as int
    requires var q := p + if neg then 1 else 0;
      |str| == q + |ds| + 1 && str[q..|str| - 1] == ds && str[|str| - 1] == 0
    requires forall k :: 0 <= k < p ==> IsSpace(str[k])
    requires neg ==> str[p] == '-' as int
    ensures var q := p + if neg then 1 else 0;
      Terminated(str) && ParseSubject(str, base) == Subject(q, neg, base) &&
      DigitEnd(str, q, base) == |str| - 1
  {
    var q := p + if neg then 1 else 0;
    assert forall k :: q <= k < |str| - 1 ==> str[k] == ds[k - q];
    CLenIs(str, |str| - 1);
    SpaceRun(str, 0, p);
    assert SignEnd(str, p) == q;
    assert !HexPrefix(str, q, base) by {
      if |ds| == 1 {
        assert str[q + 1] == 0;
      } else {
        assert str[q] == ds[0];
      }
    }
    DigitRun(str, q, |str| - 1, base);
  }

  /** The result of a subject with digits whose value fits. */
  lemma Converted(str: seq<int>, base: int, sub: Subject, e: nat)
    requires Terminated(str) && ParseSubject(str, base) == sub && 2 <= sub.base <= 36
    requires e == DigitEnd(str, sub.start, sub.base) && e != sub.start
    requires Value(str[sub.start..e], sub.base) <= UMaxMax
    ensures var v := Value(str[sub.start..e], sub.base);
      Strtoumax(str, base) == Conversion(if sub.neg then (TwoTo64 - v) % TwoTo64 else v, Unchanged, e)
  {
  }

  /** A run of white space followed by another character ends where the
      run ends. */
  lemma {:induction false} SpaceRun(str: seq<int>, i: nat, e: nat)
    requires Terminated(str) && i <= e <= CLen(str) && !IsSpace(str[e])
    requires forall k :: i <= k < e ==> IsSpace(str[k])
    ensures SkipSpace(str, i) == e
    decreases e - i
  {
    if i < e {
      SpaceRun(str, i + 1, e);
    }
  }

  /** A run of digits followed by a non-digit ends where the run ends. */
  lemma {:induction false} DigitRun(str: seq<int>, i: nat, e: nat, base: nat)
    requires Terminated(str) && i <= e == CLen(str) && base <= 36
    requires forall k :: i <= k < e ==> IsDigitIn(str[k], base)
    ensures DigitEnd(str, i, base) == e
    decreases e - i
  {
    if i < e {
      DigitRun(str, i + 1, e, base);
    }
  }
}
