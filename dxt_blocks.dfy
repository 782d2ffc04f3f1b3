/** The DXTn (S3TC) and LATC block decoders of `ImageData`: each decodes one
    4x4 block of compressed bytes into a destination byte buffer, writing
    pixel (x, y) of the block at `dest + y * yOff + x * xOff`.  The per-pixel
    formulas are pure functions; the decoders are the source's nested loops
    over an array, with the index and alpha accumulators shifted as they go. */
module DxtBlocks {
  import opened Common

  /** `ImageData::ECompression`. */
  datatype Compression = CompressionNone | DXT1 | DXT3 | DXT5 | LATC1 | LATC2

  // ---------------------------------------------------------------------
  // Reading the block
  // ---------------------------------------------------------------------

  /** The little-endian unsigned value of a byte sequence. */
  function LittleEndian(s: seq<byte>): (r: nat)
    ensures r < Pow(256, |s|)
  {
    if |s| == 0 then 0 else s[0] as int + 256 * LittleEndian(s[1..])
  }

  /** The `uint16` stored little-endian at byte offset i. */
  function Word16(b: seq<byte>, i: nat): (r: nat)
    requires i + 1 < |b|
    ensures r < 65536
  {
    b[i] as int + 256 * b[i + 1] as int
  }

  // ---------------------------------------------------------------------
  // Colour blocks
  // ---------------------------------------------------------------------

  datatype Rgb = Rgb(r: byte, g: byte, b: byte)

  /** RGB565 to 8 bits per channel by shifting the fields up (no bit replication). */
  function Expand565(c: nat): (rgb: Rgb)
    requires c < 65536
    ensures rgb.r % 8 == 0 && rgb.r <= 248
    ensures rgb.g % 4 == 0 && rgb.g <= 252
    ensures rgb.b % 8 == 0 && rgb.b <= 248
  {
    var r5, g6, b5 := (c / 2048) % 32, (c / 32) % 64, c % 32;
    Scaled(r5, 8);
    Scaled(g6, 4);
    Scaled(b5, 8);
    Rgb(r5 * 8, g6 * 4, b5 * 8)
  }

  /** A multiple of k leaves no remainder. */
  lemma Scaled(x: nat, k: nat)
    requires k > 0
    ensures (x * k) % k == 0
  {
    DivUnique(x * k, k, x, 0);
  }

  /** Packs an expanded colour back into RGB565. */
  function Pack565(rgb: Rgb): nat
  {
    (rgb.r / 8) * 2048 + (rgb.g / 4) * 32 + rgb.b / 8
  }

  /** The expansion loses nothing: packing the expanded endpoint gives it back. */
  lemma Expand565RoundTrip(c: nat)
    requires c < 65536
    ensures Pack565(Expand565(c)) == c
  {
    DivDiv(c, 32, 64);
    assert c == 32 * (c / 32) + c % 32;
    assert c / 32 == 64 * (c / 2048) + (c / 32) % 64;
    assert c / 2048 < 32;
  }

  /** Two thirds of a plus one third of b, rounded (`(2*a + b + 1)/3`). */
  function Third(a: byte, b: byte): byte
  {
    (2 * a + b + 1) / 3
  }

  /** The mean of a and b, rounded up (`(a + b + 1) >> 1`). */
  function Half(a: byte, b: byte): byte
  {
    (a + b + 1) / 2
  }

  function Lerp3(p: Rgb, q: Rgb): Rgb
  {
    Rgb(Third(p.r, q.r), Third(p.g, q.g), Third(p.b, q.b))
  }

  function Mid(p: Rgb, q: Rgb): Rgb
  {
    Rgb(Half(p.r, q.r), Half(p.g, q.g), Half(p.b, q.b))
  }

  /** The four-colour mode: c0 > c1, or any DXT5 block. DXT3 blocks with
      c0 <= c1 therefore decode in three-colour mode. */
  predicate FourColorMode(block: seq<byte>, compression: Compression)
    requires |block| >= 4
  {
    Word16(block, 0) > Word16(block, 2) || compression == DXT5
  }

  /** The four palette entries `nColors[0..3]` of a colour block. */
  function ColorPalette(block: seq<byte>, compression: Compression): (p: seq<Rgb>)
    requires |block| >= 4
    ensures |p| == 4
  {
    var e0 := Expand565(Word16(block, 0));
    var e1 := Expand565(Word16(block, 2));
    if FourColorMode(block, compression) then [e0, e1, Lerp3(e0, e1), Lerp3(e1, e0)]
    else [e0, e1, Mid(e0, e1), Rgb(0, 0, 0)]
  }

  predicate Between(v: int, a: int, b: int)
  {
    (a <= v <= b) || (b <= v <= a)
  }

  predicate RgbBetween(c: Rgb, p: Rgb, q: Rgb)
  {
    Between(c.r, p.r, q.r) && Between(c.g, p.g, q.g) && Between(c.b, p.b, q.b)
  }

  lemma ThirdBetween(a: byte, b: byte)
    ensures Between(Third(a, b), a, b)
  {
  }

  lemma HalfBetween(a: byte, b: byte)
    ensures Between(Half(a, b), a, b)
  {
  }

  /** Every derived palette component lies between the endpoint components;
      in three-colour mode the fourth entry is black. */
  lemma PaletteBetweenEndpoints(block: seq<byte>, compression: Compression)
    requires |block| >= 4
    ensures var p := ColorPalette(block, compression);
      RgbBetween(p[2], p[0], p[1]) &&
      (FourColorMode(block, compression) ==> RgbBetween(p[3], p[0], p[1])) &&
      (!FourColorMode(block, compression) ==> p[3] == Rgb(0, 0, 0))
  {
    var p := ColorPalette(block, compression);
    ThirdBetween(p[0].r, p[1].r); ThirdBetween(p[0].g, p[1].g); ThirdBetween(p[0].b, p[1].b);
    ThirdBetween(p[1].r, p[0].r); ThirdBetween(p[1].g, p[0].g); ThirdBetween(p[1].b, p[0].b);
    HalfBetween(p[0].r, p[1].r); HalfBetween(p[0].g, p[1].g); HalfBetween(p[0].b, p[1].b);
  }

  /** The 2-bit palette index of pixel (x, y): row byte y shifted right by
      2x bits, least significant bits first. */
  function ColorIndex(block: seq<byte>, x: nat, y: nat): (i: nat)
    requires |block| >= 8 && x < 4 && y < 4
    ensures i < 4
  {
    Shift(block[4 + y], 4, x) % 4
  }

  /** The index is bits 2x..2x+1 of row byte y. */
  lemma ColorIndexBits(block: seq<byte>, x: nat, y: nat)
    requires |block| >= 8 && x < 4 && y < 4
    ensures ColorIndex(block, x, y) == (block[4 + y] / Pow(4, x)) % 4
  {
    ShiftIsDiv(block[4 + y], 4, x);
  }

  function PixelColor(block: seq<byte>, compression: Compression, x: nat, y: nat): Rgb
    requires |block| >= 8 && x < 4 && y < 4
  {
    ColorPalette(block, compression)[ColorIndex(block, x, y)]
  }

  // ---------------------------------------------------------------------
  // Alpha blocks
  // ---------------------------------------------------------------------

  /** 4-bit to 8-bit alpha: `v * 17`, which repeats the nibble. */
  function Dxt3Value(v: nat): (a: byte)
    requires v < 16
    ensures a == 16 * v + v
    ensures v == 0 ==> a == 0
    ensures v == 15 ==> a == 255
  {
    v * 17
  }

  /** The DXT3 alpha of pixel (x, y): nibble x of the row's 16-bit word,
      least significant nibble first. */
  function Dxt3Alpha(block: seq<byte>, x: nat, y: nat): byte
    requires |block| >= 8 && x < 4 && y < 4
  {
    Dxt3Value(Shift(Word16(block, 2 * y), 16, x) % 16)
  }

  /** The nibble is bits 4x..4x+3 of the row word. */
  lemma Dxt3AlphaBits(block: seq<byte>, x: nat, y: nat)
    requires |block| >= 8 && x < 4 && y < 4
    ensures Dxt3Alpha(block, x, y) == 17 * ((Word16(block, 2 * y) / Pow(16, x)) % 16)
  {
    ShiftIsDiv(Word16(block, 2 * y), 16, x);
  }

  /** The 48 index bits of a DXT5 alpha block: the 64-bit little-endian word
      of the block shifted right by 16. */
  function Dxt5Bits(block: seq<byte>): nat
    requires |block| >= 8
  {
    LittleEndian(block[..8]) / 65536
  }

  /** The shift discards exactly the two endpoint bytes. */
  lemma Dxt5BitsAreTail(block: seq<byte>)
    requires |block| >= 8
    ensures Dxt5Bits(block) == LittleEndian(block[2..8])
  {
    var s := block[..8];
    assert s[1..][1..] == block[2..8];
    assert LittleEndian(s) == s[0] as int + 256 * LittleEndian(s[1..]);
    assert LittleEndian(s[1..]) == s[1] as int + 256 * LittleEndian(s[1..][1..]);
    DivUnique(LittleEndian(s), 65536, LittleEndian(block[2..8]), s[0] as int + 256 * s[1] as int);
  }

  /** The 3-bit code of pixel (x, y): code number 4y + x of the index bits,
      whatever the width of the block. */
  function Dxt5Code(block: seq<byte>, x: nat, y: nat): (k: nat)
    requires |block| >= 8 && x < 4 && y < 4
    ensures k < 8
  {
    Shift(Dxt5Bits(block), 8, 4 * y + x) % 8
  }

  /** Code number n is bits 3n..3n+2 of the six index bytes. */
  lemma Dxt5CodeBits(block: seq<byte>, x: nat, y: nat)
    requires |block| >= 8 && x < 4 && y < 4
    ensures Dxt5Code(block, x, y) == (LittleEndian(block[2..8]) / Pow(8, 4 * y + x)) % 8
  {
    Dxt5BitsAreTail(block);
    ShiftIsDiv(Dxt5Bits(block), 8, 4 * y + x);
  }

  function Dxt5Numerator(w0: nat, a0: byte, w1: nat, a1: byte): nat
  {
    w0 * a0 + w1 * a1
  }

  lemma NumeratorBounds(w0: nat, a0: byte, w1: nat, a1: byte)
    ensures (w0 + w1) * (if a0 < a1 then a0 else a1) <= Dxt5Numerator(w0, a0, w1, a1)
    ensures Dxt5Numerator(w0, a0, w1, a1) <= (w0 + w1) * (if a0 < a1 then a1 else a0)
  {
    var lo, hi := if a0 < a1 then a0 else a1, if a0 < a1 then a1 else a0;
    MulLe(lo, a0, w0); MulLe(lo, a1, w1); MulLe(a0, hi, w0); MulLe(a1, hi, w1);
    MulComm(lo, w0); MulComm(lo, w1); MulComm(hi, w0); MulComm(hi, w1);
    MulComm(a0, w0); MulComm(a1, w1);
    Distrib(w0, w1, lo); Distrib(w0, w1, hi);
  }

  /** The alpha value of code k for endpoints a0, a1 (eight-alpha mode when
      a0 > a1, otherwise six interpolated values plus 0 and 255). Every value
      but the two fixed codes of the six-alpha mode lies between the
      endpoints. */
  function Dxt5Value(a0: byte, a1: byte, k: nat): (v: byte)
    requires k < 8
    ensures (a0 <= a1 && k >= 6) || Between(v, a0, a1)
  {
    var lo, hi := if a0 < a1 then a0 else a1, if a0 < a1 then a1 else a0;
    if k == 0 then a0
    else if k == 1 then a1
    else if a0 > a1 then
      NumeratorBounds(8 - k, a0, k - 1, a1);
      DivBounds(Dxt5Numerator(8 - k, a0, k - 1, a1), 7, lo, hi);
      Dxt5Numerator(8 - k, a0, k - 1, a1) / 7
    else if k >= 6 then (if k == 6 then 0 else 255)
    else
      NumeratorBounds(6 - k, a0, k - 1, a1);
      DivBounds(Dxt5Numerator(6 - k, a0, k - 1, a1), 5, lo, hi);
      Dxt5Numerator(6 - k, a0, k - 1, a1) / 5
  }

  /** A quotient of a numerator between w * lo and w * hi lies between lo and hi. */
  lemma DivBounds(num: nat, w: nat, lo: nat, hi: nat)
    requires w > 0 && w * lo <= num <= w * hi
    ensures lo <= num / w <= hi
  {
    var q, r := num / w, num % w;
    assert num == q * w + r && 0 <= r < w;
    if q < lo {
      MulLe(q + 1, lo, w);
      Distrib(q, 1, w);
      MulComm(lo, w);
      assert false;
    }
    if q > hi {
      MulLe(hi + 1, q, w);
      Distrib(hi, 1, w);
      MulComm(hi, w);
      assert false;
    }
  }

  /** The fixed codes of the six-alpha mode. */
  lemma Dxt5ExtremeCodes(a0: byte, a1: byte)
    requires a0 <= a1
    ensures Dxt5Value(a0, a1, 6) == 0 && Dxt5Value(a0, a1, 7) == 255
  {
  }

  function Dxt5Alpha(block: seq<byte>, x: nat, y: nat): byte
    requires |block| >= 8 && x < 4 && y < 4
  {
    Dxt5Value(block[0], block[1], Dxt5Code(block, x, y))
  }

  // ---------------------------------------------------------------------
  // Destination layout
  // ---------------------------------------------------------------------

  /** The byte where pixel (x, y) of a block starts. */
  function Pos(dest: int, xOff: int, yOff: int, x: int, y: int): int
  {
    dest + y * yOff + x * xOff
  }

  /** The destination can take a bw x bh block whose pixels are xOff bytes
      apart in a row and whose rows are yOff bytes apart, writing channels
      up to `top` of each pixel; a row of the block fits within one stride. */
  predicate Layout(len: int, dest: int, bw: int, bh: int, xOff: int, yOff: int, top: int)
  {
    0 <= bw <= 4 && 0 <= bh <= 4 && 0 <= top < xOff && bw * xOff <= yOff && 0 <= dest &&
    (bw > 0 && bh > 0 ==> Pos(dest, xOff, yOff, bw - 1, bh - 1) + top < len)
  }

  /** Pixel (i, j) precedes pixel (x, y) in row-major order. */
  predicate Before(i: int, j: int, x: int, y: int)
  {
    j < y || (j == y && i < x)
  }

  /** Byte k is one of the channels ch of some pixel of the block preceding (x, y). */
  ghost predicate TouchedBefore(k: int, dest: int, xOff: int, yOff: int, bw: int, x: int, y: int, ch: seq<int>)
  {
    exists i, j :: 0 <= i < bw && 0 <= j && Before(i, j, x, y) && k - Pos(dest, xOff, yOff, i, j) in ch
  }

  /** Byte k is one of the channels ch of some pixel of the bw x bh block. */
  ghost predicate Touched(k: int, dest: int, xOff: int, yOff: int, bw: int, bh: int, ch: seq<int>)
  {
    TouchedBefore(k, dest, xOff, yOff, bw, 0, bh, ch)
  }

  /** The byte of channel c of pixel (i, j). */
  function At(dest: int, xOff: int, yOff: int, i: int, j: int, c: int): int
  {
    Pos(dest, xOff, yOff, i, j) + c
  }

  /** Every pixel (i, j) before (x, y) holds `vals[4 * j + i][n]` in channel `ch[n]`. */
  ghost predicate Written(s: seq<byte>, dest: int, xOff: int, yOff: int, bw: int, x: int, y: int, ch: seq<int>,
                          vals: seq<seq<int>>)
  {
    forall i, j, n {:trigger At(dest, xOff, yOff, i, j, ch[n])} ::
      0 <= i < bw && 0 <= j < 4 && Before(i, j, x, y) && 0 <= n < |ch| ==>
      0 <= At(dest, xOff, yOff, i, j, ch[n]) < |s| && 4 * j + i < |vals| && n < |vals[4 * j + i]| &&
      s[At(dest, xOff, yOff, i, j, ch[n])] == vals[4 * j + i][n]
  }

  /** Only channels of pixels before (x, y) differ from the original contents. */
  ghost predicate Kept(s: seq<byte>, orig: seq<byte>, dest: int, xOff: int, yOff: int, bw: int, x: int, y: int,
                       ch: seq<int>)
  {
    |s| == |orig| &&
    forall k {:trigger TouchedBefore(k, dest, xOff, yOff, bw, x, y, ch)} ::
      0 <= k < |s| && !TouchedBefore(k, dest, xOff, yOff, bw, x, y, ch) ==> s[k] == orig[k]
  }

  predicate ChannelsFit(ch: seq<int>, xOff: int)
  {
    forall n :: 0 <= n < |ch| ==> 0 <= ch[n] < xOff
  }

  /** Distinct (pixel, channel) pairs of a block occupy distinct bytes. */
  lemma PosInjective(xOff: int, yOff: int, bw: int, i: int, j: int, c: int, i2: int, j2: int, c2: int)
    requires 0 < xOff && bw * xOff <= yOff
    requires 0 <= i < bw && 0 <= i2 < bw && 0 <= j && 0 <= j2
    requires 0 <= c < xOff && 0 <= c2 < xOff
    requires j * yOff + i * xOff + c == j2 * yOff + i2 * xOff + c2
    ensures i == i2 && j == j2 && c == c2
  {
    MulLe(i + 1, bw, xOff);
    MulLe(i2 + 1, bw, xOff);
    Distrib(i, 1, xOff);
    Distrib(i2, 1, xOff);
    var s := j * yOff + i * xOff + c;
    DivUnique(s, yOff, j, i * xOff + c);
    DivUnique(s, yOff, j2, i2 * xOff + c2);
    DivUnique(i * xOff + c, xOff, i, c);
    DivUnique(i * xOff + c, xOff, i2, c2);
  }

  /** Every channel of every pixel of a block lies inside the destination. */
  lemma PosInBounds(len: int, dest: int, bw: int, bh: int, xOff: int, yOff: int, top: int, x: int, y: int, c: int)
    requires Layout(len, dest, bw, bh, xOff, yOff, top)
    requires 0 <= x < bw && 0 <= y < bh && 0 <= c <= top
    ensures 0 <= Pos(dest, xOff, yOff, x, y) + c < len
  {
    MulLe(y, bh - 1, yOff);
    MulLe(x, bw - 1, xOff);
    MulLe(0, y, yOff);
    MulLe(0, x, xOff);
  }

  /** A byte written for pixel (x, y) does not hold any other pixel's channel. */
  lemma OtherPixel(dest: int, xOff: int, yOff: int, bw: int, x: int, y: int, c: int, i: int, j: int, c2: int)
    requires 0 < xOff && bw * xOff <= yOff
    requires 0 <= x < bw && 0 <= i < bw && 0 <= y && 0 <= j && (i != x || j != y)
    requires 0 <= c < xOff && 0 <= c2 < xOff
    ensures Pos(dest, xOff, yOff, i, j) + c2 != Pos(dest, xOff, yOff, x, y) + c
  {
    if Pos(dest, xOff, yOff, i, j) + c2 == Pos(dest, xOff, yOff, x, y) + c {
      PosInjective(xOff, yOff, bw, i, j, c2, x, y, c);
    }
  }

  /** Writing the channels of pixel (x, y) extends the written prefix to the next pixel. */
  lemma WriteStepWritten(s0: seq<byte>, s1: seq<byte>, dest: int, xOff: int, yOff: int, bw: int,
                         x: int, y: int, ch: seq<int>, vals: seq<seq<int>>)
    requires 0 < xOff && bw * xOff <= yOff && 0 <= x < bw && 0 <= y < 4 && ChannelsFit(ch, xOff)
    requires Written(s0, dest, xOff, yOff, bw, x, y, ch, vals)
    requires |s1| == |s0| && 4 * y + x < |vals| && |ch| <= |vals[4 * y + x]|
    requires forall n :: 0 <= n < |ch| ==>
      0 <= At(dest, xOff, yOff, x, y, ch[n]) < |s1| && s1[At(dest, xOff, yOff, x, y, ch[n])] == vals[4 * y + x][n]
    requires forall k :: 0 <= k < |s1| && k - Pos(dest, xOff, yOff, x, y) !in ch ==> s1[k] == s0[k]
    ensures Written(s1, dest, xOff, yOff, bw, x + 1, y, ch, vals)
  {
    var p := Pos(dest, xOff, yOff, x, y);
    forall i, j, n | 0 <= i < bw && 0 <= j < 4 && Before(i, j, x + 1, y) && 0 <= n < |ch|
      ensures 0 <= At(dest, xOff, yOff, i, j, ch[n]) < |s1| && 4 * j + i < |vals| && n < |vals[4 * j + i]|
      ensures s1[At(dest, xOff, yOff, i, j, ch[n])] == vals[4 * j + i][n]
    {
      if i != x || j != y {
        assert Before(i, j, x, y);
        var q := At(dest, xOff, yOff, i, j, ch[n]);
        if q - p in ch {
          var m :| 0 <= m < |ch| && ch[m] == q - p;
          OtherPixel(dest, xOff, yOff, bw, x, y, ch[m], i, j, ch[n]);
        }
      }
    }
  }

  /** Writing the channels of pixel (x, y) keeps every other byte. */
  lemma WriteStepKept(s0: seq<byte>, s1: seq<byte>, orig: seq<byte>, dest: int, xOff: int, yOff: int, bw: int,
                      x: int, y: int, ch: seq<int>)
    requires 0 <= x < bw && 0 <= y
    requires Kept(s0, orig, dest, xOff, yOff, bw, x, y, ch)
    requires |s1| == |s0|
    requires forall k :: 0 <= k < |s1| && k - Pos(dest, xOff, yOff, x, y) !in ch ==> s1[k] == s0[k]
    ensures Kept(s1, orig, dest, xOff, yOff, bw, x + 1, y, ch)
  {
    var p := Pos(dest, xOff, yOff, x, y);
    forall k | 0 <= k < |s1| && !TouchedBefore(k, dest, xOff, yOff, bw, x + 1, y, ch)
      ensures s1[k] == orig[k]
    {
      if k - p in ch {
        assert Before(x, y, x + 1, y);
        assert false;
      }
      if TouchedBefore(k, dest, xOff, yOff, bw, x, y, ch) {
        assert false;
      }
    }
  }

  /** A finished row is the start of the next. */
  lemma NextRowWritten(s: seq<byte>, dest: int, xOff: int, yOff: int, bw: int, y: int, ch: seq<int>,
                       vals: seq<seq<int>>)
    requires Written(s, dest, xOff, yOff, bw, bw, y, ch, vals)
    ensures Written(s, dest, xOff, yOff, bw, 0, y + 1, ch, vals)
  {
    forall i, j, n | 0 <= i < bw && 0 <= j < 4 && Before(i, j, 0, y + 1) && 0 <= n < |ch|
      ensures 0 <= At(dest, xOff, yOff, i, j, ch[n]) < |s| && 4 * j + i < |vals| && n < |vals[4 * j + i]|
      ensures s[At(dest, xOff, yOff, i, j, ch[n])] == vals[4 * j + i][n]
    {
      assert Before(i, j, bw, y);
    }
  }

  lemma NextRowKept(s: seq<byte>, orig: seq<byte>, dest: int, xOff: int, yOff: int, bw: int, y: int, ch: seq<int>)
    requires Kept(s, orig, dest, xOff, yOff, bw, bw, y, ch)
    ensures Kept(s, orig, dest, xOff, yOff, bw, 0, y + 1, ch)
  {
    forall k | 0 <= k < |s| && !TouchedBefore(k, dest, xOff, yOff, bw, 0, y + 1, ch)
      ensures s[k] == orig[k]
    {
      if TouchedBefore(k, dest, xOff, yOff, bw, bw, y, ch) {
        assert false;
      }
    }
  }

  // ---------------------------------------------------------------------
  // The decoders
  // ---------------------------------------------------------------------

  /** The top channel of the colour writes. */
  function MaxChannel(red: int, blue: int): int
  {
    if red < blue then (if blue < 1 then 1 else blue) else (if red < 1 then 1 else red)
  }

  predicate ColorChannels(red: int, blue: int)
  {
    0 <= red && 0 <= blue && red != 1 && blue != 1 && red != blue
  }

  /** The colours of the 16 pixels of a block, row by row. */
  function BlockColors(block: seq<byte>, compression: Compression): (t: seq<Rgb>)
    requires |block| >= 8
    ensures |t| == 16
  {
    seq(16, n requires 0 <= n < 16 => PixelColor(block, compression, n % 4, n / 4))
  }

  lemma BlockColorsAt(block: seq<byte>, compression: Compression, x: int, y: int)
    requires |block| >= 8 && 0 <= x < 4 && 0 <= y < 4
    ensures BlockColors(block, compression)[4 * y + x] == PixelColor(block, compression, x, y)
  {
    assert (4 * y + x) % 4 == x && (4 * y + x) / 4 == y;
  }

  /** Colours as red, green and blue bytes. */
  function ColorVals(cols: seq<Rgb>): (t: seq<seq<int>>)
    ensures |t| == |cols|
    ensures forall n :: 0 <= n < |cols| ==> t[n] == [cols[n].r as int, cols[n].g as int, cols[n].b as int]
  {
    seq(|cols|, n requires 0 <= n < |cols| => [cols[n].r as int, cols[n].g as int, cols[n].b as int])
  }

  /** Stores one pixel's colour in channels red, 1 and blue from byte p on. */
  method PutColor(a: array<byte>, p: int, col: Rgb, red: int, blue: int)
    requires ColorChannels(red, blue)
    requires 0 <= p && p + MaxChannel(red, blue) < a.Length
    modifies a
    ensures a[..] == old(a[..])[p + red := col.r][p + 1 := col.g][p + blue := col.b]
  {
    a[p + red] := col.r;
    a[p + 1] := col.g;
    a[p + blue] := col.b;
  }

  /** `ImageData::DecodeDXTColorBlock`: writes the palette colour of every
      pixel of the block into channels red, 1 and blue, and nothing else. */
  method DecodeColorBlock(a: array<byte>, dest: int, block: seq<byte>, bw: int, bh: int, xOff: int, yOff: int,
                          compression: Compression, red: int, blue: int)
    requires |block| >= 8 && ColorChannels(red, blue)
    requires Layout(a.Length, dest, bw, bh, xOff, yOff, MaxChannel(red, blue))
    modifies a
    ensures forall x, y :: 0 <= x < bw && 0 <= y < bh ==>
      0 <= Pos(dest, xOff, yOff, x, y) && Pos(dest, xOff, yOff, x, y) + MaxChannel(red, blue) < a.Length &&
      a[Pos(dest, xOff, yOff, x, y) + red] == PixelColor(block, compression, x, y).r &&
      a[Pos(dest, xOff, yOff, x, y) + 1] == PixelColor(block, compression, x, y).g &&
      a[Pos(dest, xOff, yOff, x, y) + blue] == PixelColor(block, compression, x, y).b
    ensures forall k :: 0 <= k < a.Length && !Touched(k, dest, xOff, yOff, bw, bh, [red, 1, blue]) ==> a[k] == old(a[k])
  {
    ghost var orig := a[..];
    var y := 0;
    while y < bh
      invariant 0 <= y <= bh
      invariant Written(a[..], dest, xOff, yOff, bw, 0, y, [red, 1, blue], ColorVals(BlockColors(block, compression)))
      invariant Kept(a[..], orig, dest, xOff, yOff, bw, 0, y, [red, 1, blue])
    {
      DecodeColorRow(a, dest, block, bw, bh, xOff, yOff, compression, red, blue, y, orig);
      y := y + 1;
    }
    ColorsWritten(a[..], dest, block, bw, bh, xOff, yOff, compression, red, blue);
  }

  /** The three channels of a stored colour, as `WriteStepWritten` expects them. */
  lemma ColorStored(s: seq<byte>, dest: int, xOff: int, yOff: int, x: int, y: int, red: int, blue: int,
                    col: Rgb, vals: seq<seq<int>>)
    requires ColorChannels(red, blue)
    requires 0 <= Pos(dest, xOff, yOff, x, y) && Pos(dest, xOff, yOff, x, y) + MaxChannel(red, blue) < |s|
    requires s[Pos(dest, xOff, yOff, x, y) + red] == col.r && s[Pos(dest, xOff, yOff, x, y) + 1] == col.g
    requires s[Pos(dest, xOff, yOff, x, y) + blue] == col.b
    requires 0 <= 4 * y + x < |vals| && vals[4 * y + x] == [col.r as int, col.g as int, col.b as int]
    ensures forall n :: 0 <= n < |[red, 1, blue]| ==>
      0 <= At(dest, xOff, yOff, x, y, [red, 1, blue][n]) < |s| &&
      s[At(dest, xOff, yOff, x, y, [red, 1, blue][n])] == vals[4 * y + x][n]
  {
    var ch := [red, 1, blue];
    forall n | 0 <= n < |ch|
      ensures 0 <= At(dest, xOff, yOff, x, y, ch[n]) < |s| && s[At(dest, xOff, yOff, x, y, ch[n])] == vals[4 * y + x][n]
    {
      if n == 0 {
        assert ch[n] == red;
      } else if n == 1 {
        assert ch[n] == 1;
      } else {
        assert ch[n] == blue;
      }
    }
  }

  /** Storing the colour of pixel (x, y) extends the decoded part of the row
      by that pixel. */
  /** The three writes of one pixel leave every other byte alone. */
  lemma ColorUpdate(s0: seq<byte>, p: int, red: int, blue: int, col: Rgb)
    requires ColorChannels(red, blue) && 0 <= p && p + MaxChannel(red, blue) < |s0|
    ensures var s1 := s0[p + red := col.r][p + 1 := col.g][p + blue := col.b];
      |s1| == |s0| && s1[p + red] == col.r && s1[p + 1] == col.g && s1[p + blue] == col.b &&
      forall k :: 0 <= k < |s1| && k - p !in [red, 1, blue] ==> s1[k] == s0[k]
  {
  }

  lemma ColorPixelStep(s0: seq<byte>, s1: seq<byte>, orig: seq<byte>, dest: int, cols: seq<Rgb>, col: Rgb, bw: int,
                       bh: int, xOff: int, yOff: int, red: int, blue: int, x: int, y: int)
    requires |cols| == 16 && ColorChannels(red, blue)
    requires Layout(|s0|, dest, bw, bh, xOff, yOff, MaxChannel(red, blue)) && 0 <= x < bw && 0 <= y < bh
    requires col == cols[4 * y + x]
    requires Written(s0, dest, xOff, yOff, bw, x, y, [red, 1, blue], ColorVals(cols))
    requires Kept(s0, orig, dest, xOff, yOff, bw, x, y, [red, 1, blue])
    requires 0 <= Pos(dest, xOff, yOff, x, y) && Pos(dest, xOff, yOff, x, y) + MaxChannel(red, blue) < |s0|
    requires s1 == s0[Pos(dest, xOff, yOff, x, y) + red := col.r][Pos(dest, xOff, yOff, x, y) + 1 := col.g]
                     [Pos(dest, xOff, yOff, x, y) + blue := col.b]
    ensures Written(s1, dest, xOff, yOff, bw, x + 1, y, [red, 1, blue], ColorVals(cols))
    ensures Kept(s1, orig, dest, xOff, yOff, bw, x + 1, y, [red, 1, blue])
  {
    var vals := ColorVals(cols);
    ColorUpdate(s0, Pos(dest, xOff, yOff, x, y), red, blue, col);
    ColorStored(s1, dest, xOff, yOff, x, y, red, blue, col, vals);
    WriteStepWritten(s0, s1, dest, xOff, yOff, bw, x, y, [red, 1, blue], vals);
    WriteStepKept(s0, s1, orig, dest, xOff, yOff, bw, x, y, [red, 1, blue]);
  }

  /** Row y of `DecodeDXTColorBlock`: the 2-bit indexes of row byte y, least
      significant first, select the palette colour of each pixel. */
  method DecodeColorRow(a: array<byte>, dest: int, block: seq<byte>, bw: int, bh: int, xOff: int, yOff: int,
                        compression: Compression, red: int, blue: int, y: int, ghost orig: seq<byte>)
    requires |block| >= 8 && ColorChannels(red, blue)
    requires Layout(a.Length, dest, bw, bh, xOff, yOff, MaxChannel(red, blue)) && 0 <= y < bh
    requires Written(a[..], dest, xOff, yOff, bw, 0, y, [red, 1, blue], ColorVals(BlockColors(block, compression)))
    requires Kept(a[..], orig, dest, xOff, yOff, bw, 0, y, [red, 1, blue])
    modifies a
    ensures Written(a[..], dest, xOff, yOff, bw, 0, y + 1, [red, 1, blue], ColorVals(BlockColors(block, compression)))
    ensures Kept(a[..], orig, dest, xOff, yOff, bw, 0, y + 1, [red, 1, blue])
  {
    ghost var ch := [red, 1, blue];
    ghost var cols := BlockColors(block, compression);
    ghost var vals := ColorVals(cols);
    var colors := ColorPalette(block, compression);
    var indexes := block[4 + y];
    var x := 0;
    while x < bw
      invariant 0 <= x <= bw
      invariant indexes == Shift(block[4 + y], 4, x)
      invariant Written(a[..], dest, xOff, yOff, bw, x, y, ch, vals)
      invariant Kept(a[..], orig, dest, xOff, yOff, bw, x, y, ch)
    {
      var index := indexes % 4;
      assert colors[index] == PixelColor(block, compression, x, y);
      BlockColorsAt(block, compression, x, y);
      DecodeColorPixel(a, dest, cols, bw, bh, xOff, yOff, red, blue, x, y, colors[index], orig);
      ShiftStep(block[4 + y], 4, x);
      indexes := indexes / 4;
      x := x + 1;
    }
    NextRowWritten(a[..], dest, xOff, yOff, bw, y, ch, vals);
    NextRowKept(a[..], orig, dest, xOff, yOff, bw, y, ch);
  }

  /** The body of the inner loop of `DecodeDXTColorBlock`: store the colour
      of pixel (x, y) in channels red, 1 and blue. */
  method DecodeColorPixel(a: array<byte>, dest: int, ghost cols: seq<Rgb>, bw: int, bh: int, xOff: int, yOff: int,
                          red: int, blue: int, x: int, y: int, col: Rgb, ghost orig: seq<byte>)
    requires |cols| == 16 && ColorChannels(red, blue)
    requires Layout(a.Length, dest, bw, bh, xOff, yOff, MaxChannel(red, blue)) && 0 <= x < bw && 0 <= y < bh
    requires col == cols[4 * y + x]
    requires Written(a[..], dest, xOff, yOff, bw, x, y, [red, 1, blue], ColorVals(cols))
    requires Kept(a[..], orig, dest, xOff, yOff, bw, x, y, [red, 1, blue])
    modifies a
    ensures Written(a[..], dest, xOff, yOff, bw, x + 1, y, [red, 1, blue], ColorVals(cols))
    ensures Kept(a[..], orig, dest, xOff, yOff, bw, x + 1, y, [red, 1, blue])
  {
    var p := Pos(dest, xOff, yOff, x, y);
    PosInBounds(a.Length, dest, bw, bh, xOff, yOff, MaxChannel(red, blue), x, y, 0);
    PosInBounds(a.Length, dest, bw, bh, xOff, yOff, MaxChannel(red, blue), x, y, MaxChannel(red, blue));
    ghost var s0 := a[..];
    PutColor(a, p, col, red, blue);
    ColorPixelStep(s0, a[..], orig, dest, cols, col, bw, bh, xOff, yOff, red, blue, x, y);
  }

  /** Reads the colour of pixel (x, y) back from a finished block. */
  lemma ColorWrittenAt(s: seq<byte>, dest: int, cols: seq<Rgb>, bw: int, bh: int, xOff: int, yOff: int,
                       red: int, blue: int, x: int, y: int)
    requires |cols| == 16 && ColorChannels(red, blue)
    requires Layout(|s|, dest, bw, bh, xOff, yOff, MaxChannel(red, blue)) && 0 <= x < bw && 0 <= y < bh
    requires Written(s, dest, xOff, yOff, bw, 0, bh, [red, 1, blue], ColorVals(cols))
    ensures 0 <= Pos(dest, xOff, yOff, x, y) && Pos(dest, xOff, yOff, x, y) + MaxChannel(red, blue) < |s|
    ensures s[Pos(dest, xOff, yOff, x, y) + red] == cols[4 * y + x].r
    ensures s[Pos(dest, xOff, yOff, x, y) + 1] == cols[4 * y + x].g
    ensures s[Pos(dest, xOff, yOff, x, y) + blue] == cols[4 * y + x].b
  {
    PosInBounds(|s|, dest, bw, bh, xOff, yOff, MaxChannel(red, blue), x, y, 0);
    PosInBounds(|s|, dest, bw, bh, xOff, yOff, MaxChannel(red, blue), x, y, MaxChannel(red, blue));
    assert Before(x, y, 0, bh);
    var ch := [red, 1, blue];
    assert At(dest, xOff, yOff, x, y, ch[0]) == Pos(dest, xOff, yOff, x, y) + red;
    assert At(dest, xOff, yOff, x, y, ch[1]) == Pos(dest, xOff, yOff, x, y) + 1;
    assert At(dest, xOff, yOff, x, y, ch[2]) == Pos(dest, xOff, yOff, x, y) + blue;
    assert ColorVals(cols)[4 * y + x] == [cols[4 * y + x].r as int, cols[4 * y + x].g as int, cols[4 * y + x].b as int];
  }

  /** Reads the decoded colours back from a finished block. */
  lemma ColorsWritten(s: seq<byte>, dest: int, block: seq<byte>, bw: int, bh: int, xOff: int, yOff: int,
                      compression: Compression, red: int, blue: int)
    requires |block| >= 8 && ColorChannels(red, blue)
    requires Layout(|s|, dest, bw, bh, xOff, yOff, MaxChannel(red, blue))
    requires Written(s, dest, xOff, yOff, bw, 0, bh, [red, 1, blue], ColorVals(BlockColors(block, compression)))
    ensures forall x, y :: 0 <= x < bw && 0 <= y < bh ==>
      0 <= Pos(dest, xOff, yOff, x, y) && Pos(dest, xOff, yOff, x, y) + MaxChannel(red, blue) < |s| &&
      s[Pos(dest, xOff, yOff, x, y) + red] == PixelColor(block, compression, x, y).r &&
      s[Pos(dest, xOff, yOff, x, y) + 1] == PixelColor(block, compression, x, y).g &&
      s[Pos(dest, xOff, yOff, x, y) + blue] == PixelColor(block, compression, x, y).b
  {
    forall x, y | 0 <= x < bw && 0 <= y < bh
      ensures 0 <= Pos(dest, xOff, yOff, x, y) && Pos(dest, xOff, yOff, x, y) + MaxChannel(red, blue) < |s|
      ensures s[Pos(dest, xOff, yOff, x, y) + red] == PixelColor(block, compression, x, y).r
      ensures s[Pos(dest, xOff, yOff, x, y) + 1] == PixelColor(block, compression, x, y).g
      ensures s[Pos(dest, xOff, yOff, x, y) + blue] == PixelColor(block, compression, x, y).b
    {
      ColorWrittenAt(s, dest, BlockColors(block, compression), bw, bh, xOff, yOff, red, blue, x, y);
      BlockColorsAt(block, compression, x, y);
    }
  }

  /** The DXT3 alphas of the 16 pixels of a block, row by row. */
  function Dxt3Vals(block: seq<byte>): (t: seq<seq<int>>)
    requires |block| >= 8
    ensures |t| == 16 && forall n :: 0 <= n < 16 ==> |t[n]| == 1
  {
    seq(16, n requires 0 <= n < 16 => [Dxt3Alpha(block, n % 4, n / 4) as int])
  }

  lemma Dxt3ValsAt(block: seq<byte>, x: int, y: int)
    requires |block| >= 8 && 0 <= x < 4 && 0 <= y < 4
    ensures Dxt3Vals(block)[4 * y + x] == [Dxt3Alpha(block, x, y) as int]
  {
    assert (4 * y + x) % 4 == x && (4 * y + x) / 4 == y;
  }

  /** The DXT5 alphas of the 16 pixels of a block, row by row. */
  function Dxt5Vals(block: seq<byte>): (t: seq<seq<int>>)
    requires |block| >= 8
    ensures |t| == 16 && forall n :: 0 <= n < 16 ==> |t[n]| == 1
  {
    seq(16, n requires 0 <= n < 16 => [Dxt5Alpha(block, n % 4, n / 4) as int])
  }

  lemma Dxt5ValsAt(block: seq<byte>, x: int, y: int)
    requires |block| >= 8 && 0 <= x < 4 && 0 <= y < 4
    ensures Dxt5Vals(block)[4 * y + x] == [Dxt5Alpha(block, x, y) as int]
  {
    assert (4 * y + x) % 4 == x && (4 * y + x) / 4 == y;
  }

  /** Stores one byte at p. */
  method PutByte(a: array<byte>, p: int, v: byte)
    requires 0 <= p < a.Length
    modifies a
    ensures a[p] == v
    ensures forall k :: 0 <= k < a.Length && k - p !in [0] ==> a[k] == old(a[k])
  {
    a[p] := v;
  }

  /** Reads the decoded alphas back from a finished block. */
  lemma AlphasWritten(s: seq<byte>, dest: int, bw: int, bh: int, xOff: int, yOff: int, vals: seq<seq<int>>)
    requires Layout(|s|, dest, bw, bh, xOff, yOff, 0)
    requires Written(s, dest, xOff, yOff, bw, 0, bh, [0], vals)
    ensures forall x, y :: 0 <= x < bw && 0 <= y < bh ==>
      0 <= Pos(dest, xOff, yOff, x, y) < |s| && 4 * y + x < |vals| && 0 < |vals[4 * y + x]| &&
      s[Pos(dest, xOff, yOff, x, y)] == vals[4 * y + x][0]
  {
    forall x, y | 0 <= x < bw && 0 <= y < bh
      ensures 0 <= Pos(dest, xOff, yOff, x, y) < |s| && 4 * y + x < |vals| && 0 < |vals[4 * y + x]|
      ensures s[Pos(dest, xOff, yOff, x, y)] == vals[4 * y + x][0]
    {
      PosInBounds(|s|, dest, bw, bh, xOff, yOff, 0, x, y, 0);
      assert Before(x, y, 0, bh);
      assert At(dest, xOff, yOff, x, y, [0][0]) == Pos(dest, xOff, yOff, x, y);
    }
  }

  /** `ImageData::DecodeDXT3AlphaBlock`: writes the explicit 4-bit alpha of
      every pixel of the block, and nothing else. */
  method DecodeDxt3AlphaBlock(a: array<byte>, dest: int, block: seq<byte>, bw: int, bh: int, xOff: int, yOff: int)
    requires |block| >= 8
    requires Layout(a.Length, dest, bw, bh, xOff, yOff, 0)
    modifies a
    ensures forall x, y :: 0 <= x < bw && 0 <= y < bh ==>
      0 <= Pos(dest, xOff, yOff, x, y) < a.Length && a[Pos(dest, xOff, yOff, x, y)] == Dxt3Alpha(block, x, y)
    ensures forall k :: 0 <= k < a.Length && !Touched(k, dest, xOff, yOff, bw, bh, [0]) ==> a[k] == old(a[k])
  {
    ghost var orig := a[..];
    var y := 0;
    while y < bh
      invariant 0 <= y <= bh
      invariant Written(a[..], dest, xOff, yOff, bw, 0, y, [0], Dxt3Vals(block))
      invariant Kept(a[..], orig, dest, xOff, yOff, bw, 0, y, [0])
    {
      DecodeDxt3AlphaRow(a, dest, block, bw, bh, xOff, yOff, y, orig);
      y := y + 1;
    }
    AlphasWritten(a[..], dest, bw, bh, xOff, yOff, Dxt3Vals(block));
    forall x, y | 0 <= x < bw && 0 <= y < bh
      ensures a[Pos(dest, xOff, yOff, x, y)] == Dxt3Alpha(block, x, y)
    {
      Dxt3ValsAt(block, x, y);
    }
  }

  /** Row y of `DecodeDXT3AlphaBlock`: the nibbles of the row's 16-bit word,
      least significant first, scaled by 17. */
  method DecodeDxt3AlphaRow(a: array<byte>, dest: int, block: seq<byte>, bw: int, bh: int, xOff: int, yOff: int,
                            y: int, ghost orig: seq<byte>)
    requires |block| >= 8
    requires Layout(a.Length, dest, bw, bh, xOff, yOff, 0) && 0 <= y < bh
    requires Written(a[..], dest, xOff, yOff, bw, 0, y, [0], Dxt3Vals(block))
    requires Kept(a[..], orig, dest, xOff, yOff, bw, 0, y, [0])
    modifies a
    ensures Written(a[..], dest, xOff, yOff, bw, 0, y + 1, [0], Dxt3Vals(block))
    ensures Kept(a[..], orig, dest, xOff, yOff, bw, 0, y + 1, [0])
  {
    ghost var vals := Dxt3Vals(block);
    var alpha := Word16(block, 2 * y);
    var x := 0;
    while x < bw
      invariant 0 <= x <= bw
      invariant alpha == Shift(Word16(block, 2 * y), 16, x)
      invariant Written(a[..], dest, xOff, yOff, bw, x, y, [0], vals)
      invariant Kept(a[..], orig, dest, xOff, yOff, bw, x, y, [0])
    {
      var p := Pos(dest, xOff, yOff, x, y);
      PosInBounds(a.Length, dest, bw, bh, xOff, yOff, 0, x, y, 0);
      Dxt3ValsAt(block, x, y);
      ghost var s0 := a[..];
      PutByte(a, p, Dxt3Value(alpha % 16));
      WriteStepWritten(s0, a[..], dest, xOff, yOff, bw, x, y, [0], vals);
      WriteStepKept(s0, a[..], orig, dest, xOff, yOff, bw, x, y, [0]);
      ShiftStep(Word16(block, 2 * y), 16, x);
      alpha := alpha / 16;
      x := x + 1;
    }
    NextRowWritten(a[..], dest, xOff, yOff, bw, y, [0], vals);
    NextRowKept(a[..], orig, dest, xOff, yOff, bw, y, [0]);
  }

  /** The index stream skips the codes of the pixels a narrow block leaves
      out, so each row starts at code number 4y. */
  lemma SkipRowTail(bits: nat, y: nat, bw: nat)
    requires bw < 4
    ensures Shift(bits, 8, 4 * y + bw) / Pow(2, 3 * (4 - bw)) == Shift(bits, 8, 4 * (y + 1))
  {
    PowEightBits(4 - bw);
    ShiftShift(bits, 8, 4 * y + bw, 4 - bw);
  }

  /** `ImageData::DecodeDXT5AlphaBlock`: writes the interpolated alpha of
      every pixel of the block, and nothing else.  The 3-bit code of pixel
      (x, y) is code number 4y + x even when the block is narrower than 4. */
  method DecodeDxt5AlphaBlock(a: array<byte>, dest: int, block: seq<byte>, bw: int, bh: int, xOff: int, yOff: int)
    requires |block| >= 8
    requires Layout(a.Length, dest, bw, bh, xOff, yOff, 0)
    modifies a
    ensures forall x, y :: 0 <= x < bw && 0 <= y < bh ==>
      0 <= Pos(dest, xOff, yOff, x, y) < a.Length && a[Pos(dest, xOff, yOff, x, y)] == Dxt5Alpha(block, x, y)
    ensures forall k :: 0 <= k < a.Length && !Touched(k, dest, xOff, yOff, bw, bh, [0]) ==> a[k] == old(a[k])
  {
    ghost var orig := a[..];
    var a0 := block[0];
    var a1 := block[1];
    var alpha := LittleEndian(block[..8]) / 65536;
    var y := 0;
    while y < bh
      invariant 0 <= y <= bh
      invariant alpha == Shift(Dxt5Bits(block), 8, 4 * y)
      invariant Written(a[..], dest, xOff, yOff, bw, 0, y, [0], Dxt5Vals(block))
      invariant Kept(a[..], orig, dest, xOff, yOff, bw, 0, y, [0])
    {
      alpha := DecodeDxt5AlphaRow(a, dest, block, a0, a1, alpha, bw, bh, xOff, yOff, y, orig);
      if bw < 4 {
        SkipRowTail(Dxt5Bits(block), y, bw);
        alpha := alpha / Pow(2, 3 * (4 - bw));
      }
      y := y + 1;
    }
    AlphasWritten(a[..], dest, bw, bh, xOff, yOff, Dxt5Vals(block));
    forall x, y | 0 <= x < bw && 0 <= y < bh
      ensures a[Pos(dest, xOff, yOff, x, y)] == Dxt5Alpha(block, x, y)
    {
      Dxt5ValsAt(block, x, y);
    }
  }

  /** Row y of `DecodeDXT5AlphaBlock`: consumes one 3-bit code per pixel from
      the accumulator and returns what is left of it. */
  method DecodeDxt5AlphaRow(a: array<byte>, dest: int, block: seq<byte>, a0: byte, a1: byte, alpha0: nat,
                            bw: int, bh: int, xOff: int, yOff: int, y: int, ghost orig: seq<byte>)
    returns (alpha: nat)
    requires |block| >= 8 && a0 == block[0] && a1 == block[1]
    requires Layout(a.Length, dest, bw, bh, xOff, yOff, 0) && 0 <= y < bh
    requires alpha0 == Shift(Dxt5Bits(block), 8, 4 * y)
    requires Written(a[..], dest, xOff, yOff, bw, 0, y, [0], Dxt5Vals(block))
    requires Kept(a[..], orig, dest, xOff, yOff, bw, 0, y, [0])
    modifies a
    ensures alpha == Shift(Dxt5Bits(block), 8, 4 * y + bw)
    ensures Written(a[..], dest, xOff, yOff, bw, 0, y + 1, [0], Dxt5Vals(block))
    ensures Kept(a[..], orig, dest, xOff, yOff, bw, 0, y + 1, [0])
  {
    ghost var vals := Dxt5Vals(block);
    ghost var bits := Dxt5Bits(block);
    alpha := alpha0;
    var x := 0;
    while x < bw
      invariant 0 <= x <= bw
      invariant alpha == Shift(bits, 8, 4 * y + x)
      invariant Written(a[..], dest, xOff, yOff, bw, x, y, [0], vals)
      invariant Kept(a[..], orig, dest, xOff, yOff, bw, x, y, [0])
    {
      var p := Pos(dest, xOff, yOff, x, y);
      PosInBounds(a.Length, dest, bw, bh, xOff, yOff, 0, x, y, 0);
      Dxt5ValsAt(block, x, y);
      // The source truncates the accumulator to 32 bits first, which keeps the low 3 bits.
      var k := alpha % 8;
      ghost var s0 := a[..];
      PutByte(a, p, Dxt5Value(a0, a1, k));
      WriteStepWritten(s0, a[..], dest, xOff, yOff, bw, x, y, [0], vals);
      WriteStepKept(s0, a[..], orig, dest, xOff, yOff, bw, x, y, [0]);
      ShiftStep(bits, 8, 4 * y + x);
      alpha := alpha / 8;
      x := x + 1;
    }
    NextRowWritten(a[..], dest, xOff, yOff, bw, y, [0], vals);
    NextRowKept(a[..], orig, dest, xOff, yOff, bw, y, [0]);
  }
}
