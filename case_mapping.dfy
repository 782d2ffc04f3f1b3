/** `_strupr`, `strlwr`, `_wcsupr` and `_wcslwr`: in-place case mapping of a
    NUL-terminated narrow or wide string. Characters are modelled by their
    integer codes, narrow and wide alike, and `toupper`/`towupper` and
    `tolower`/`towlower` by their mappings in the "C" locale, where only the
    26 ASCII letters change. */
module CaseMapping {

  /** A C string: some element is the terminating NUL. */
  predicate Terminated(s: seq<int>)
  {
    0 in s
  }

  /** The length of the C string in s: the index of its first NUL. */
  function CLen(s: seq<int>): (n: nat)
    requires Terminated(s)
    ensures n < |s| && s[n] == 0
    ensures forall i :: 0 <= i < n ==> s[i] != 0
  {
    if s[0] == 0 then 0 else assert s == [s[0]] + s[1..]; 1 + CLen(s[1..])
  }

  /** `toupper` in the "C" locale. */
  function ToUpper(c: int): (u: int)
  {
    if 'a' as int <= c <= 'z' as int then c - 32 else c
  }

  /** `tolower` in the "C" locale. */
  function ToLower(c: int): (l: int)
  {
    if 'A' as int <= c <= 'Z' as int then c + 32 else c
  }

  /** s with f applied to every character of its C string; the terminator
      and whatever follows it stay as they are. */
  function Mapped(s: seq<int>, f: int -> int): (r: seq<int>)
    requires Terminated(s)
    ensures |r| == |s|
  {
    seq(|s|, i requires 0 <= i < |s| => if i < CLen(s) then f(s[i]) else s[i])
  }

  /** The loop shared by the four functions: walk the pointer up to the
      terminator, replacing each character by its image. */
  method MapInPlace(s: array<int>, f: int -> int)
    requires Terminated(s[..])
    requires forall c :: c != 0 ==> f(c) != 0
    modifies s
    ensures s[..] == Mapped(old(s[..]), f)
  {
    ghost var s0 := s[..];
    var p := 0;
    while s[p] != 0
      invariant 0 <= p <= CLen(s0)
      invariant forall i :: 0 <= i < p ==> s[i] == f(s0[i])
      invariant forall i :: p <= i < s.Length ==> s[i] == s0[i]
      decreases CLen(s0) - p
    {
      s[p] := f(s[p]);
      p := p + 1;
    }
    assert p == CLen(s0);
  }

  /** `_strupr`: a null pointer is returned as is; otherwise every character
      before the terminator is upper-cased in place. */
  method StrUpr(s: array?<int>) returns (r: array?<int>)
    requires s != null ==> Terminated(s[..])
    modifies s
    ensures r == s
    ensures s != null ==> s[..] == Mapped(old(s[..]), ToUpper)
  {
    if s != null {
      MapInPlace(s, ToUpper);
    }
    return s;
  }

  /** `strlwr`. */
  method StrLwr(s: array?<int>) returns (r: array?<int>)
    requires s != null ==> Terminated(s[..])
    modifies s
    ensures r == s
    ensures s != null ==> s[..] == Mapped(old(s[..]), ToLower)
  {
    if s != null {
      MapInPlace(s, ToLower);
    }
    return s;
  }

  /** `_wcsupr`. */
  method WcsUpr(s: array?<int>) returns (r: array?<int>)
    requires s != null ==> Terminated(s[..])
    modifies s
    ensures r == s
    ensures s != null ==> s[..] == Mapped(old(s[..]), ToUpper)
  {
    if s != null {
      MapInPlace(s, ToUpper);
    }
    return s;
  }

  /** `_wcslwr`. */
  method WcsLwr(s: array?<int>) returns (r: array?<int>)
    requires s != null ==> Terminated(s[..])
    modifies s
    ensures r == s
    ensures s != null ==> s[..] == Mapped(old(s[..]), ToLower)
  {
    if s != null {
      MapInPlace(s, ToLower);
    }
    return s;
  }

  // ---------------------------------------------------------------------
  // What the mapping preserves
  // ---------------------------------------------------------------------

  /** Upper-casing changes exactly the lower-case letters, into their
      upper-case partners, and never produces a NUL. */
  lemma UpperChangesOnlyLetters(c: int)
    ensures ToUpper(c) != c <==> 'a' as int <= c <= 'z' as int
    ensures 'a' as int <= c <= 'z' as int ==> 'A' as int <= ToUpper(c) <= 'Z' as int
    ensures c != 0 ==> ToUpper(c) != 0
  {
  }

  lemma LowerChangesOnlyLetters(c: int)
    ensures ToLower(c) != c <==> 'A' as int <= c <= 'Z' as int
    ensures 'A' as int <= c <= 'Z' as int ==> 'a' as int <= ToLower(c) <= 'z' as int
    ensures c != 0 ==> ToLower(c) != 0
  {
  }

  /** The two mappings undo each other on letters. */
  lemma CaseRoundTrip(c: int)
    ensures ToLower(ToUpper(c)) == ToLower(c)
    ensures ToUpper(ToLower(c)) == ToUpper(c)
  {
  }

  /** A mapping that keeps non-NUL characters non-NUL keeps the length and
      the terminator of the string, and the bytes after it. */
  lemma MappedKeepsLength(s: seq<int>, f: int -> int)
    requires Terminated(s)
    requires forall c :: c != 0 ==> f(c) != 0
    ensures Terminated(Mapped(s, f)) && CLen(Mapped(s, f)) == CLen(s)
    ensures forall i :: CLen(s) <= i < |s| ==> Mapped(s, f)[i] == s[i]
  {
    var r := Mapped(s, f);
    var n := CLen(s);
    forall i | 0 <= i < |s|
      ensures r[i] == if i < n then f(s[i]) else s[i]
    {
    }
    assert r[n] == 0;
    CLenIs(r, n);
  }

  /** The first NUL is the C length. */
  lemma CLenIs(s: seq<int>, n: nat)
    requires n < |s| && s[n] == 0 && forall i :: 0 <= i < n ==> s[i] != 0
    ensures Terminated(s) && CLen(s) == n
  {
  }

  /** Mapping twice with an idempotent mapping is mapping once: upper-casing
      an upper-cased string, or lower-casing a lower-cased one, changes
      nothing. */
  lemma MappedIdempotent(s: seq<int>, f: int -> int)
    requires Terminated(s)
    requires forall c :: c != 0 ==> f(c) != 0
    requires forall c :: f(f(c)) == f(c)
    ensures Terminated(Mapped(s, f)) && Mapped(Mapped(s, f), f) == Mapped(s, f)
  {
    MappedKeepsLength(s, f);
  }

  /** `_strupr` applied twice is `_strupr` applied once; likewise `strlwr`. */
  lemma CaseMappingIdempotent(s: seq<int>)
    requires Terminated(s)
    ensures Terminated(Mapped(s, ToUpper)) && Mapped(Mapped(s, ToUpper), ToUpper) == Mapped(s, ToUpper)
    ensures Terminated(Mapped(s, ToLower)) && Mapped(Mapped(s, ToLower), ToLower) == Mapped(s, ToLower)
  {
    MappedIdempotent(s, ToUpper);
    MappedIdempotent(s, ToLower);
  }

  /** Upper-casing then lower-casing a string is lower-casing it. */
  lemma UpperThenLower(s: seq<int>)
    requires Terminated(s)
    ensures Terminated(Mapped(s, ToUpper))
    ensures Mapped(Mapped(s, ToUpper), ToLower) == Mapped(s, ToLower)
  {
    MappedKeepsLength(s, ToUpper);
    var u := Mapped(s, ToUpper);
    forall i | 0 <= i < |s|
      ensures Mapped(u, ToLower)[i] == Mapped(s, ToLower)[i]
    {
      CaseRoundTrip(s[i]);
    }
  }
}
