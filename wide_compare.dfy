/** `wcscasecmp` and `wcsncasecmp`: case-insensitive comparison of wide C
    strings. Both walk the two strings in step, lower-casing each character
    with `towlower` ("C" locale), and stop at the first position where the
    lowered characters differ or the first string ends; the result is the
    difference of the two lowered characters there. Wide characters are
    modelled as integers; for values below 2^31 the `wint_t` subtraction of
    the source gives the same `int`. */
module WideCompare {
  import opened CaseMapping

  /** The walk goes on past a position: the first string has not ended and
      the lowered characters agree (so the second has not ended either). */
  predicate Continues(c1: int, c2: int)
  {
    ToLower(c1) != 0 && ToLower(c1) == ToLower(c2)
  }

  lemma ContinuesSymmetric(c1: int, c2: int)
    ensures Continues(c1, c2) == Continues(c2, c1)
  {
  }

  function Min(a: nat, b: nat): nat
  {
    if a <= b then a else b
  }

  /** The first position from i on where the walk stops, or `bound` when it
      goes on up to there. */
  function Stop(s1: seq<int>, s2: seq<int>, i: nat, bound: nat): (j: nat)
    requires i <= bound <= |s1| && bound <= |s2|
    ensures i <= j <= bound
    ensures j < bound ==> !Continues(s1[j], s2[j])
    ensures forall k :: i <= k < j ==> Continues(s1[k], s2[k])
    decreases bound - i
  {
    if i == bound || !Continues(s1[i], s2[i]) then i else Stop(s1, s2, i + 1, bound)
  }

  /** The lowered C string held in s (its terminator left out). */
  function LowerC(s: seq<int>): (l: seq<int>)
    requires Terminated(s)
    ensures |l| == CLen(s)
  {
    seq(CLen(s), i requires 0 <= i < CLen(s) => ToLower(s[i]))
  }

  /** What `wcscasecmp` returns: the lowered difference where the walk
      stops, which is before the end of either string. */
  function CaseCmp(s1: seq<int>, s2: seq<int>): (r: int)
    requires Terminated(s1) && Terminated(s2)
    ensures r != 0 ==> LowerC(s1) != LowerC(s2)
  {
    var bound := Min(|s1|, |s2|);
    StopsBeforeEnd(s1, s2, bound);
    var j := Stop(s1, s2, 0, bound);
    assert j < CLen(s1) ==> LowerC(s1)[j] == ToLower(s1[j]);
    if j < bound then ToLower(s1[j]) - ToLower(s2[j]) else 0
  }

  /** `wcscasecmp`: the do-while loop of the source, one character of each
      string per turn. */
  method WcsCaseCmp(s1: seq<int>, s2: seq<int>) returns (r: int)
    requires Terminated(s1) && Terminated(s2)
    ensures r == CaseCmp(s1, s2)
  {
    StopsBeforeEnd(s1, s2, Min(|s1|, |s2|));
    var left := ToLower(s1[0]);
    var right := ToLower(s2[0]);
    var i := 1;
    while left != 0 && left == right
      invariant 1 <= i <= Stop(s1, s2, 0, Min(|s1|, |s2|)) + 1
      invariant left == ToLower(s1[i - 1]) && right == ToLower(s2[i - 1])
      invariant forall k :: 0 <= k < i - 1 ==> Continues(s1[k], s2[k])
      decreases Min(|s1|, |s2|) - i
    {
      left := ToLower(s1[i]);
      right := ToLower(s2[i]);
      i := i + 1;
    }
    StopIs(s1, s2, 0, Min(|s1|, |s2|), i - 1);
    return left - right;
  }

  /** Whatever the bound, the walk over two C strings stops before either
      terminator is passed. */
  lemma StopsBeforeEnd(s1: seq<int>, s2: seq<int>, bound: nat)
    requires Terminated(s1) && Terminated(s2) && bound == Min(|s1|, |s2|)
    ensures Stop(s1, s2, 0, bound) < bound
    ensures Stop(s1, s2, 0, bound) <= CLen(s1) && Stop(s1, s2, 0, bound) <= CLen(s2)
  {
    var j := Stop(s1, s2, 0, bound);
    var c := Min(CLen(s1), CLen(s2));
    if j > c {
      assert Continues(s1[c], s2[c]);
    }
  }

  /** The first stopping position is the one the loop found. */
  lemma StopIs(s1: seq<int>, s2: seq<int>, i: nat, bound: nat, j: nat)
    requires i <= j < bound <= |s1| && bound <= |s2|
    requires forall k :: i <= k < j ==> Continues(s1[k], s2[k])
    requires !Continues(s1[j], s2[j])
    ensures Stop(s1, s2, i, bound) == j
  {
  }

  // ---------------------------------------------------------------------
  // wcsncasecmp
  // ---------------------------------------------------------------------

  /** The strings `wcsncasecmp` may be given: each is a C string or holds at
      least n characters (only the first n are ever looked at). */
  predicate Readable(s: seq<int>, n: nat)
  {
    Terminated(s) || n <= |s|
  }

  /** How far the walk of `wcsncasecmp` can go: n characters, or less when a
      string is shorter. */
  function NBound(s1: seq<int>, s2: seq<int>, n: nat): nat
  {
    Min(n, Min(|s1|, |s2|))
  }

  /** What `wcsncasecmp` should return: the lowered difference where the
      walk stops, if that is within the first n characters, and 0 otherwise. */
  function NCaseCmp(s1: seq<int>, s2: seq<int>, n: nat): (r: int)
    ensures n == 0 ==> r == 0
    ensures r != 0 ==> exists k :: 0 <= k < NBound(s1, s2, n) && ToLower(s1[k]) != ToLower(s2[k])
  {
    var bound := NBound(s1, s2, n);
    var j := Stop(s1, s2, 0, bound);
    if j < bound then ToLower(s1[j]) - ToLower(s2[j]) else 0
  }

  /** What the source's `wcsncasecmp` returns: the count is decremented and
      tested before the n-th characters are compared, so a stop at the n-th
      character is not reported. */
  function NCaseCmpAsWritten(s1: seq<int>, s2: seq<int>, n: nat): (r: int)
    ensures n <= 1 ==> r == 0
    ensures r != 0 ==> exists k :: 0 <= k < n - 1 && k < NBound(s1, s2, n) && ToLower(s1[k]) != ToLower(s2[k])
  {
    var bound := NBound(s1, s2, n);
    var j := Stop(s1, s2, 0, bound);
    if j + 1 < n && j < bound then ToLower(s1[j]) - ToLower(s2[j]) else 0
  }

  /** Over readable strings the walk stops within the first n characters
      or goes on to the n-th, never past the end of a shorter string. */
  lemma NStopInBounds(s1: seq<int>, s2: seq<int>, n: nat)
    requires Readable(s1, n) && Readable(s2, n)
    ensures Stop(s1, s2, 0, NBound(s1, s2, n)) < NBound(s1, s2, n) || NBound(s1, s2, n) == n
  {
    var bound := NBound(s1, s2, n);
    var j := Stop(s1, s2, 0, bound);
    if bound < n {
      if bound == |s1| {
        assert s1[CLen(s1)] == 0 && !Continues(s1[CLen(s1)], s2[CLen(s1)]);
      } else {
        assert s2[CLen(s2)] == 0 && !Continues(s1[CLen(s2)], s2[CLen(s2)]);
      }
    }
  }

  /** `wcsncasecmp` as the source writes it. Every index read is below n
      and within both strings. */
  method WcsNCaseCmpAsWritten(s1: seq<int>, s2: seq<int>, n: nat) returns (r: int)
    requires Readable(s1, n) && Readable(s2, n)
    ensures r == NCaseCmpAsWritten(s1, s2, n)
  {
    if n > 0 {
      var bound := NBound(s1, s2, n);
      NStopInBounds(s1, s2, n);
      ghost var j := Stop(s1, s2, 0, bound);
      var count := n;
      var i := 0;
      var left, right;
      while true
        invariant i <= j && i < bound && count == n - i
        invariant forall k :: 0 <= k < i ==> Continues(s1[k], s2[k])
        decreases count
      {
        left := ToLower(s1[i]);
        right := ToLower(s2[i]);
        i := i + 1;
        count := count - 1;
        if count == 0 {
          return 0;
        }
        if !(left != 0 && left == right) {
          break;
        }
        assert Continues(s1[i - 1], s2[i - 1]);
      }
      StopIs(s1, s2, 0, bound, i - 1);
      return left - right;
    } else {
      return 0;
    }
  }

  /** `wcsncasecmp` as evidently intended (and as the C library defines
      it): the n-th characters are compared too. */
  method WcsNCaseCmp(s1: seq<int>, s2: seq<int>, n: nat) returns (r: int)
    requires Readable(s1, n) && Readable(s2, n)
    ensures r == NCaseCmp(s1, s2, n)
  {
    if n > 0 {
      var bound := NBound(s1, s2, n);
      NStopInBounds(s1, s2, n);
      ghost var j := Stop(s1, s2, 0, bound);
      var count := n;
      var i := 0;
      var left, right;
      while true
        invariant i <= j && i < bound && count == n - i
        invariant forall k :: 0 <= k < i ==> Continues(s1[k], s2[k])
        decreases count
      {
        left := ToLower(s1[i]);
        right := ToLower(s2[i]);
        i := i + 1;
        if !(left != 0 && left == right) {
          break;
        }
        assert Continues(s1[i - 1], s2[i - 1]);
        count := count - 1;
        if count == 0 {
          return 0;
        }
      }
      StopIs(s1, s2, 0, bound, i - 1);
      return left - right;
    } else {
      return 0;
    }
  }

  // ---------------------------------------------------------------------
  // Properties
  // ---------------------------------------------------------------------

  /** `wcscasecmp` returns 0 exactly when the two strings are equal once
      lower-cased. */
  lemma CaseCmpZeroIff(s1: seq<int>, s2: seq<int>)
    requires Terminated(s1) && Terminated(s2)
    ensures CaseCmp(s1, s2) == 0 <==> LowerC(s1) == LowerC(s2)
  {
    var bound := Min(|s1|, |s2|);
    StopsBeforeEnd(s1, s2, bound);
    var j := Stop(s1, s2, 0, bound);
    if CaseCmp(s1, s2) == 0 {
      assert s1[j] == 0 && s2[j] == 0;
      CLenIs(s1, j);
      CLenIs(s2, j);
      assert LowerC(s1) == LowerC(s2) by {
        forall k | 0 <= k < j
          ensures LowerC(s1)[k] == LowerC(s2)[k]
        {
          assert Continues(s1[k], s2[k]);
        }
      }
    }
    if LowerC(s1) == LowerC(s2) {
      var c := CLen(s1);
      assert CLen(s2) == c;
      forall k | 0 <= k < c
        ensures Continues(s1[k], s2[k])
      {
        assert LowerC(s1)[k] == LowerC(s2)[k];
      }
      StopIs(s1, s2, 0, bound, c);
    }
  }

  /** Swapping the arguments negates the result. */
  lemma CaseCmpAntisymmetric(s1: seq<int>, s2: seq<int>)
    requires Terminated(s1) && Terminated(s2)
    ensures CaseCmp(s2, s1) == -CaseCmp(s1, s2)
  {
    var bound := Min(|s1|, |s2|);
    assert Min(|s2|, |s1|) == bound;
    StopSymmetric(s1, s2, 0, bound);
  }

  lemma {:induction false} StopSymmetric(s1: seq<int>, s2: seq<int>, i: nat, bound: nat)
    requires i <= bound <= |s1| && bound <= |s2|
    ensures Stop(s2, s1, i, bound) == Stop(s1, s2, i, bound)
    decreases bound - i
  {
    if i < bound {
      ContinuesSymmetric(s1[i], s2[i]);
      StopSymmetric(s1, s2, i + 1, bound);
    }
  }

  /** Upper-casing either argument first does not change the result. */
  lemma CaseCmpIgnoresCase(s1: seq<int>, s2: seq<int>)
    requires Terminated(s1) && Terminated(s2)
    ensures Terminated(Mapped(s1, ToUpper)) && CaseCmp(Mapped(s1, ToUpper), s2) == CaseCmp(s1, s2)
  {
    var u := Mapped(s1, ToUpper);
    MappedKeepsLength(s1, ToUpper);
    var bound := Min(|s1|, |s2|);
    assert Min(|u|, |s2|) == bound;
    forall k | 0 <= k < |s1|
      ensures ToLower(u[k]) == ToLower(s1[k])
    {
      CaseRoundTrip(s1[k]);
    }
    StopSameLowered(u, s1, s2, 0, bound);
    StopsBeforeEnd(s1, s2, bound);
  }

  /** Two first strings with the same lowered characters stop at the same
      place. */
  lemma {:induction false} StopSameLowered(a: seq<int>, b: seq<int>, s2: seq<int>, i: nat, bound: nat)
    requires |a| == |b| && i <= bound <= |a| && bound <= |s2|
    requires forall k :: 0 <= k < |a| ==> ToLower(a[k]) == ToLower(b[k])
    ensures Stop(a, s2, i, bound) == Stop(b, s2, i, bound)
    decreases bound - i
  {
    if i < bound {
      StopSameLowered(a, b, s2, i + 1, bound);
    }
  }

  /** `wcsncasecmp` with no characters to compare returns 0, and it returns 0
      whenever the first n characters agree once lower-cased (or the strings
      end equal before them). */
  lemma NCaseCmpZeroWhenPrefixAgrees(s1: seq<int>, s2: seq<int>, n: nat)
    requires n <= |s1| && n <= |s2|
    requires forall k :: 0 <= k < n ==> ToLower(s1[k]) == ToLower(s2[k])
    ensures NCaseCmp(s1, s2, n) == 0
    ensures NCaseCmp(s1, s2, 0) == 0
  {
    var j := Stop(s1, s2, 0, n);
    assert NBound(s1, s2, n) == n;
    if j < n {
      assert ToLower(s1[j]) == ToLower(s2[j]);
    }
  }

  /** With n beyond both terminators, `wcsncasecmp` is `wcscasecmp`. */
  lemma NCaseCmpAgreesWithCaseCmp(s1: seq<int>, s2: seq<int>, n: nat)
    requires Terminated(s1) && Terminated(s2)
    requires n > CLen(s1) || n > CLen(s2)
    ensures NCaseCmp(s1, s2, n) == CaseCmp(s1, s2)
  {
    var full := Min(|s1|, |s2|);
    var bound := NBound(s1, s2, n);
    StopsBeforeEnd(s1, s2, full);
    var j := Stop(s1, s2, 0, full);
    assert j < bound;
    StopIs(s1, s2, 0, bound, j);
  }

  /** The source's `wcsncasecmp` reports "a" and "b" equal when n is 1,
      where the intended comparison tells them apart. */
  lemma NCaseCmpAsWrittenMissesLastCharacter()
    ensures NCaseCmpAsWritten(['a' as int, 0], ['b' as int, 0], 1) == 0
    ensures NCaseCmp(['a' as int, 0], ['b' as int, 0], 1) == -1
  {
    var s1, s2 := ['a' as int, 0], ['b' as int, 0];
    assert NBound(s1, s2, 1) == 1;
    assert !Continues(s1[0], s2[0]);
    assert Stop(s1, s2, 0, 1) == 0;
  }

  /** Apart from that last character, the source and the intended
      comparison agree: the source's result for n + 1 is the intended one
      for n whenever the walk stops before the n-th character. */
  lemma NCaseCmpAsWrittenIsShifted(s1: seq<int>, s2: seq<int>, n: nat)
    requires n + 1 <= |s1| && n + 1 <= |s2|
    ensures Stop(s1, s2, 0, n + 1) < n ==> NCaseCmpAsWritten(s1, s2, n + 1) == NCaseCmp(s1, s2, n)
    ensures Stop(s1, s2, 0, n + 1) >= n ==> NCaseCmpAsWritten(s1, s2, n + 1) == 0
  {
    assert NBound(s1, s2, n + 1) == n + 1 && NBound(s1, s2, n) == n;
    var j := Stop(s1, s2, 0, n + 1);
    if j < n {
      StopIs(s1, s2, 0, n, j);
    }
  }
}
