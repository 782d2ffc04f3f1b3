/** `utf8_to_ucs4` and `mbrtowc`: decoding one character of a UTF-8 string
    in the original one-to-six-octet form of RFC 2279, section 2 (no
    rejection of overlong forms, surrogates or values above U+10FFFF).
    Bytes are `byte` values, and the bit masks of the source are written as
    division and remainder by powers of two. */
module Utf8 {
  import opened Common

  /** The number of octets a lead byte announces: 1 for 0xxxxxxx, 2 for
      110xxxxx, 3 for 1110xxxx, 4 for 11110xxx, 5 for 111110xx, 6 for
      1111110x; 0 for a byte that cannot lead (10xxxxxx, 1111111x). */
  function OctetCount(b: byte): (n: nat)
    ensures n <= 6 && (n == 0 <==> (b / 64 == 2 || b / 2 == 127))
  {
    if b / 128 == 0 then 1
    else if b / 32 == 6 then 2
    else if b / 16 == 14 then 3
    else if b / 8 == 30 then 4
    else if b / 4 == 62 then 5
    else if b / 2 == 126 then 6
    else 0
  }

  /** The payload bits of a lead byte of an n-octet sequence: 7 - n of them
      (the source clears the marker bits with `ch &= ~0xE0` and so on). */
  function PayloadBits(n: nat): nat
    requires 2 <= n <= 6
  {
    7 - n
  }

  /** A continuation byte has the form 10xxxxxx. */
  predicate IsContinuation(b: byte)
  {
    b / 64 == 2
  }

  /** The lead payload followed by the 6 low bits of each continuation. */
  function Accumulate(p: nat, cont: seq<byte>): nat
  {
    if |cont| == 0 then p else Accumulate(p, cont[..|cont| - 1]) * 64 + cont[|cont| - 1] % 64
  }

  /** The character at the head of s and the number of bytes it takes, or
      None for a bad lead byte or a missing continuation byte. */
  function Decode(s: seq<byte>): (r: Option<(nat, nat)>)
    requires |s| > 0
    ensures r.Some? ==> 1 <= r.value.1 <= 6 && r.value.1 <= |s|
  {
    var n := OctetCount(s[0]);
    if n == 0 then None
    else if n == 1 then Some((s[0], 1))
    else if n <= |s| && forall i :: 1 <= i < n ==> IsContinuation(s[i]) then
      Some((Accumulate(s[0] % Pow(2, PayloadBits(n)), s[1..n]), n))
    else None
  }

  /** `utf8_to_ucs4`: read the lead byte, classify it and keep its payload,
      then OR in 6 bits of each continuation byte, from the top down; the
      returned count is how far `ptr` advanced. The fields ORed into `ret`
      occupy disjoint bits, so the OR is written as an addition. */
  method Utf8ToUcs4(s: seq<byte>) returns (r: Option<(nat, nat)>)
    requires 0 in s
    ensures r == Decode(s)
  {
    var ch: nat := s[0];
    var ptr := 1;
    if ch / 128 == 0 {
      return Some((ch, ptr));
    }
    var octetCount: nat;
    if ch / 32 == 6 {
      octetCount := 2;
      ch := ch % 32;
    } else if ch / 16 == 14 {
      octetCount := 3;
      ch := ch % 16;
    } else if ch / 8 == 30 {
      octetCount := 4;
      ch := ch % 8;
    } else if ch / 4 == 62 {
      octetCount := 5;
      ch := ch % 4;
    } else if ch / 2 == 126 {
      octetCount := 6;
      ch := ch % 2;
    } else {
      return None;
    }
    SmallPowers();
    assert octetCount == OctetCount(s[0]);
    r := ReadContinuations(s, octetCount, ch);
  }

  /** The second half of `utf8_to_ucs4`: the lead payload shifted into
      place, then one continuation byte per remaining octet. */
  method ReadContinuations(s: seq<byte>, octetCount: nat, payload: nat) returns (r: Option<(nat, nat)>)
    requires 0 in s && s[0] != 0
    requires 2 <= octetCount == OctetCount(s[0])
    requires payload == s[0] % Pow(2, PayloadBits(octetCount))
    ensures r == Decode(s)
  {
    var bitsCount: nat := (octetCount - 1) * 6;
    var ret: nat := payload * Pow(2, bitsCount);
    var ptr := 1;
    var i := 1;
    assert Accumulate(payload, s[1..i]) == payload by {
      assert |s[1..i]| == 0;
    }
    while i < octetCount
      invariant 1 <= i <= octetCount && ptr == i
      invariant bitsCount == (octetCount - i) * 6
      invariant ContinuationsBefore(s, i)
      invariant ret == Accumulate(payload, s[1..i]) * Pow(2, bitsCount)
    {
      bitsCount := bitsCount - 6;
      NotPastTerminator(s, i);
      var ch := s[ptr];
      ptr := ptr + 1;
      if ch / 64 != 2 {
        return None;
      }
      assert IsContinuation(s[i]);
      assert ContinuationsBefore(s, i + 1);
      ContinuationStep(payload, s, i, bitsCount, ret);
      ret := ret + (ch % 64) * Pow(2, bitsCount);
      assert ret == Accumulate(payload, s[1..i + 1]) * Pow(2, bitsCount);
      i := i + 1;
    }
    return Some((ret, ptr));
  }

  /** Bytes 1 to i - 1 of s exist and are continuation bytes. */
  predicate ContinuationsBefore(s: seq<byte>, i: nat)
  {
    i <= |s| && forall k :: 1 <= k < i ==> IsContinuation(s[k])
  }

  /** The loop step of `ReadContinuations`: ORing in one more continuation
      byte keeps `ret` equal to the accumulated value shifted into place. */
  lemma ContinuationStep(p: nat, s: seq<byte>, i: nat, bits: nat, ret: nat)
    requires 1 <= i < |s|
    requires ret == Accumulate(p, s[1..i]) * Pow(2, bits + 6)
    ensures ret + (s[i] % 64) * Pow(2, bits) == Accumulate(p, s[1..i + 1]) * Pow(2, bits)
    ensures ret + (s[i] % 64) * Pow(2, bits) >= 0
  {
    AccumulateStep(p, s[1..i], s[i], bits);
    assert s[1..i + 1] == s[1..i] + [s[i]];
  }

  /** Past a lead byte and continuation bytes, none of which is NUL, the
      terminator is still ahead. */
  lemma NotPastTerminator(s: seq<byte>, i: nat)
    requires 0 in s && 1 <= i && s[0] != 0
    requires ContinuationsBefore(s, i)
    ensures i < |s|
  {
    var k :| 0 <= k < |s| && s[k] == 0;
    assert k >= i;
  }

  lemma SmallPowers()
    ensures Pow(2, 1) == 2 && Pow(2, 2) == 4 && Pow(2, 3) == 8 && Pow(2, 4) == 16 && Pow(2, 5) == 32
  {
  }

  lemma PowTwoSix(b: nat)
    ensures Pow(2, b + 6) == 64 * Pow(2, b)
  {
    PowAdd(2, 6, b);
  }

  /** One more continuation byte: the shifted accumulator gains 6 bits. */
  lemma AccumulateStep(p: nat, cont: seq<byte>, b: byte, bits: nat)
    ensures Accumulate(p, cont) * Pow(2, bits + 6) + (b % 64) * Pow(2, bits)
         == Accumulate(p, cont + [b]) * Pow(2, bits)
  {
    var c2 := cont + [b];
    assert c2[..|c2| - 1] == cont;
    PowTwoSix(bits);
    MulAssoc(Accumulate(p, cont), 64, Pow(2, bits));
    Distrib(Accumulate(p, cont) * 64, b % 64, Pow(2, bits));
  }

  /** `mbrtowc`: the number of bytes of the character at s, or (size_t)-1
      when it is malformed; the decoded character is stored through `pwc`
      only on success. The byte limit n and the conversion state are not
      consulted; a NUL byte decodes to 0 in one byte, so the count returned
      for it is 1. A 64-bit `size_t` is assumed, so (size_t)-1 is
      2^64 - 1; on a 32-bit target it would be 2^32 - 1. */
  method Mbrtowc(s: seq<byte>, n: nat) returns (count: nat, wc: Option<nat>)
    requires 0 in s
    ensures Decode(s).Some? ==> count == Decode(s).value.1 && wc == Some(Decode(s).value.0)
    ensures Decode(s).None? ==> count == TwoTo64 - 1 && wc == None
  {
    var end := Utf8ToUcs4(s);
    if end.Some? {
      count := end.value.1;
      wc := Some(end.value.0);
    } else {
      count := TwoTo64 - 1;
      wc := None;
    }
  }

  // ---------------------------------------------------------------------
  // Properties of the decoding
  // ---------------------------------------------------------------------

  /** A byte below 0x80 is a character by itself. */
  lemma DecodeAscii(s: seq<byte>)
    requires |s| > 0 && s[0] < 0x80
    ensures Decode(s) == Some((s[0], 1))
  {
  }

  /** A sequence decodes exactly when its lead byte can lead and the
      announced number of continuation bytes follow it. */
  lemma DecodeSucceeds(s: seq<byte>)
    requires |s| > 0
    ensures Decode(s).Some? <==>
      (OctetCount(s[0]) > 0 && OctetCount(s[0]) <= |s| &&
       forall i :: 1 <= i < OctetCount(s[0]) ==> IsContinuation(s[i]))
    ensures Decode(s).Some? ==> Decode(s).value.1 == OctetCount(s[0])
  {
  }

  /** The decoded value has 7 bits for one octet and 5n + 1 bits for n
      octets, so it always fits in 31 bits: a 32-bit `wchar_t` holds it. */
  lemma DecodeBound(s: seq<byte>)
    requires |s| > 0 && Decode(s).Some?
    ensures Decode(s).value.1 == 1 ==> Decode(s).value.0 < 0x80
    ensures Decode(s).value.1 >= 2 ==> Decode(s).value.0 < Pow(2, 5 * Decode(s).value.1 + 1)
    ensures Decode(s).value.0 < 0x8000_0000
  {
    var n := OctetCount(s[0]);
    if n >= 2 {
      var pb := PayloadBits(n);
      var p := s[0] % Pow(2, pb);
      AccumulateBound(p, s[1..n], pb);
      assert 5 * n + 1 == pb + 6 * (n - 1);
      PowMono(2, 5 * n + 1, 31);
      assert Pow(2, 31) == 0x8000_0000 by {
        assert Pow(2, 8) == 256;
        PowAdd(2, 8, 8);
        PowAdd(2, 16, 8);
        PowAdd(2, 24, 7);
      }
    }
  }

  /** The accumulated value of a payload below 2^pb has pb + 6k bits. */
  lemma {:induction false} AccumulateBound(p: nat, cont: seq<byte>, pb: nat)
    requires p < Pow(2, pb)
    ensures Accumulate(p, cont) < Pow(2, pb + 6 * |cont|)
  {
    if |cont| > 0 {
      var init := cont[..|cont| - 1];
      AccumulateBound(p, init, pb);
      var a := Accumulate(p, init);
      var m := Pow(2, pb + 6 * |init|);
      PowTwoSix(pb + 6 * |init|);
      MulLe(a + 1, m, 64);
    }
  }

  // ---------------------------------------------------------------------
  // Encoding, and the round trip
  // ---------------------------------------------------------------------

  /** The marker bits of the lead byte of an n-octet sequence. */
  function LeadMark(n: nat): byte
    requires 2 <= n <= 6
  {
    match n
    case 2 => 0xC0
    case 3 => 0xE0
    case 4 => 0xF0
    case 5 => 0xF8
    case 6 => 0xFC
  }

  /** k continuation bytes holding the low 6k bits of v, most significant
      first. */
  function Tail(v: nat, k: nat): (t: seq<byte>)
    ensures |t| == k
  {
    if k == 0 then [] else Tail(v / 64, k - 1) + [0x80 + v % 64]
  }

  /** The largest value n octets can carry, plus one. */
  function Capacity(n: nat): nat
    requires 1 <= n <= 6
  {
    if n == 1 then 0x80 else Pow(2, 5 * n + 1)
  }

  /** The RFC 2279 encoding of v in n octets. */
  function Encode(v: nat, n: nat): (e: seq<byte>)
    requires 1 <= n <= 6 && v < Capacity(n)
    ensures |e| == n
  {
    if n == 1 then [v]
    else
      PayloadFits(v, n);
      [LeadMark(n) + Shift(v, 64, n - 1)] + Tail(v, n - 1)
  }

  lemma PowSixtyFour(k: nat)
    ensures Pow(64, k) == Pow(2, 6 * k)
  {
    if k > 0 {
      PowSixtyFour(k - 1);
      PowTwoSix(6 * (k - 1));
    }
  }

  /** The lead payload of a value that fits in n octets fits the lead byte. */
  lemma PayloadFits(v: nat, n: nat)
    requires 2 <= n <= 6 && v < Pow(2, 5 * n + 1)
    ensures v / Pow(64, n - 1) < Pow(2, PayloadBits(n))
    ensures LeadMark(n) + Shift(v, 64, n - 1) < 256
  {
    ShiftIsDiv(v, 64, n - 1);
    PowSixtyFour(n - 1);
    PowAdd(2, PayloadBits(n), 6 * (n - 1));
    assert 5 * n + 1 == PayloadBits(n) + 6 * (n - 1);
    DivBound(v, Pow(2, PayloadBits(n)), Pow(64, n - 1));
    LeadByte(n, v / Pow(64, n - 1));
  }

  /** A value below p * m has a quotient by m below p. */
  lemma DivBound(v: nat, p: nat, m: nat)
    requires m > 0 && v < p * m
    ensures v / m < p
  {
    var q := v / m;
    assert v == q * m + v % m;
    if q >= p {
      MulLe(p, q, m);
    }
  }

  /** Remainders nest: the low 6 bits and then the next 6(k-1). */
  lemma ModSplit(v: nat, k: nat)
    requires k > 0
    ensures (v / 64) % Pow(64, k - 1) * 64 + v % 64 == v % Pow(64, k)
  {
    var m := Pow(64, k - 1);
    var q, r := v / 64, v % 64;
    var q2, r2 := q / m, q % m;
    assert v == q * 64 + r;
    assert q == q2 * m + r2;
    assert Pow(64, k) == 64 * m;
    Distrib(q2 * m, r2, 64);
    MulAssoc(q2, m, 64);
    MulComm(m, 64);
    assert v == q2 * (64 * m) + (r2 * 64 + r);
    MulLe(r2, m - 1, 64);
    Distrib(m - 1, 1, 64);
    DivUnique(v, 64 * m, q2, r2 * 64 + r);
  }

  /** Accumulating the continuation bytes of `Tail` restores the low bits. */
  lemma {:induction false} AccumulateTail(p: nat, v: nat, k: nat)
    ensures Accumulate(p, Tail(v, k)) == p * Pow(64, k) + v % Pow(64, k)
  {
    if k > 0 {
      var t := Tail(v, k);
      assert t[..|t| - 1] == Tail(v / 64, k - 1);
      assert t[|t| - 1] == 0x80 + v % 64;
      AccumulateTail(p, v / 64, k - 1);
      assert (0x80 + v % 64) % 64 == v % 64;
      ModSplit(v, k);
      MulAssoc(p, Pow(64, k - 1), 64);
      MulComm(Pow(64, k - 1), 64);
      Distrib(p * Pow(64, k - 1), (v / 64) % Pow(64, k - 1), 64);
    }
  }

  /** Decoding undoes encoding: the encoding of v in n octets, followed by
      anything, decodes to v and consumes exactly n bytes. */
  lemma DecodeEncode(v: nat, n: nat, rest: seq<byte>)
    requires 1 <= n <= 6 && v < Capacity(n)
    ensures Decode(Encode(v, n) + rest) == Some((v, n))
  {
    if n == 1 {
      assert (Encode(v, n) + rest)[0] == v;
    } else {
      DecodeEncodeMulti(v, n, rest);
    }
  }

  lemma DecodeEncodeMulti(v: nat, n: nat, rest: seq<byte>)
    requires 2 <= n <= 6 && v < Capacity(n)
    ensures Decode(Encode(v, n) + rest) == Some((v, n))
  {
    {
      PayloadFits(v, n);
      var m := Pow(64, n - 1);
      var q := v / m;
      ShiftIsDiv(v, 64, n - 1);
      var t := Tail(v, n - 1);
      var s := Encode(v, n) + rest;
      assert s == [LeadMark(n) + q] + t + rest;
      forall i | 0 <= i < |t|
        ensures IsContinuation(t[i])
      {
        TailContinuations(v, n - 1, i);
      }
      DecodeLeadTail(s, n, q, t);
      AccumulateTail(q, v, n - 1);
      DivMod(v, m);
      assert Accumulate(q, t) == v;
    }
  }

  /** A lead byte for n octets followed by n - 1 continuation bytes decodes
      to the lead payload accumulated with them. */
  lemma DecodeLeadTail(s: seq<byte>, n: nat, q: nat, t: seq<byte>)
    requires 2 <= n <= 6 && q < Pow(2, PayloadBits(n)) && |t| == n - 1
    requires forall i :: 0 <= i < |t| ==> IsContinuation(t[i])
    requires LeadMark(n) + q < 256
    requires |s| >= n && s[0] == LeadMark(n) + q && s[1..n] == t
    ensures Decode(s) == Some((Accumulate(q, t), n))
  {
    LeadByte(n, q);
    forall i | 1 <= i < n
      ensures IsContinuation(s[i])
    {
      assert s[i] == t[i - 1];
    }
  }

  /** A lead byte built from the mark and a fitting payload is recognised. */
  lemma LeadByte(n: nat, q: nat)
    requires 2 <= n <= 6 && q < Pow(2, PayloadBits(n))
    ensures LeadMark(n) + q < 256
    ensures OctetCount(LeadMark(n) + q) == n
    ensures (LeadMark(n) + q) % Pow(2, PayloadBits(n)) == q
  {
    SmallPowers();
  }

  lemma {:induction false} TailContinuations(v: nat, k: nat, i: nat)
    requires i < k
    ensures IsContinuation(Tail(v, k)[i])
  {
    if i < k - 1 {
      TailContinuations(v / 64, k - 1, i);
    }
  }
}
