/** The block walk of `ImageData::Decompress`: a compressed image of w x h x d
    pixels is stored as planes of 4 x 4 blocks in row-major block order, each
    block 8 or 16 bytes; decoding visits the blocks in that order, clips the
    blocks on the right and bottom edges, and writes each block's pixels into
    a buffer of `comp` bytes per pixel. */
module DxtImage {
  import opened Common
  import opened DxtBlocks

  // ---------------------------------------------------------------------
  // Sizes
  // ---------------------------------------------------------------------

  /** The number of blocks along an edge of n pixels: how many of the block
      origins 0, 4, 8, ... lie below n. */
  function NumBlocks(n: int): nat
    decreases n
  {
    if n <= 0 then 0 else 1 + NumBlocks(n - 4)
  }

  /** The blocks along an edge cover it, and the last one starts inside it. */
  lemma {:induction false} NumBlocksBounds(n: nat)
    ensures n == 0 ==> NumBlocks(n) == 0
    ensures n > 0 ==> 4 * (NumBlocks(n) - 1) < n <= 4 * NumBlocks(n)
  {
    if n > 4 {
      NumBlocksBounds(n - 4);
    }
  }

  /** The walk's block count is the `(n + 3) >> 2` of the size formula. */
  lemma NumBlocksIsShift(n: nat)
    ensures NumBlocks(n) == (n + 3) / 4
  {
    NumBlocksBounds(n);
    DivUnique(n + 3, 4, NumBlocks(n), n + 3 - 4 * NumBlocks(n));
  }

  /** The bytes of one block: 8 for DXT1 and LATC1, 16 for DXT3, DXT5 and LATC2. */
  function BlockBytes(c: Compression): nat
  {
    match c
    case CompressionNone => 0
    case DXT1 => 8
    case LATC1 => 8
    case DXT3 => 16
    case DXT5 => 16
    case LATC2 => 16
  }

  /** The blocks of one w x h plane: `((w + 3) >> 2) * ((h + 3) >> 2)`. */
  function BlocksPerPlane(w: nat, h: nat): nat
  {
    (w + 3) / 4 * ((h + 3) / 4)
  }

  /** `CalculateCompressedImageBufferSize`: blocks per row times block rows
      times the block size, times the number of planes. */
  function CompressedSize(c: Compression, w: nat, h: nat, d: nat): nat
  {
    BlocksPerPlane(w, h) * BlockBytes(c) * d
  }

  /** The size formula counts exactly the blocks the walk visits. */
  lemma CompressedSizeCountsBlocks(c: Compression, w: nat, h: nat, d: nat)
    ensures CompressedSize(c, w, h, d) == d * NumBlocks(h) * NumBlocks(w) * BlockBytes(c)
  {
    NumBlocksIsShift(w);
    NumBlocksIsShift(h);
    var a, b, bb := NumBlocks(w), NumBlocks(h), BlockBytes(c);
    calc {
      CompressedSize(c, w, h, d);
      a * b * bb * d;
      { MulComm(a * b * bb, d); }
      d * (a * b * bb);
      { MulComm(a, b); }
      d * (b * a * bb);
      { MulAssoc(d, b * a, bb); }
      d * (b * a) * bb;
      { MulAssoc(d, b, a); }
      d * b * a * bb;
    }
  }

  /** The block size before clipping: at most 4, less for a smaller image. */
  function BlockEdge(n: int): int
  {
    if n < 4 then n else 4
  }

  /** The edge of the block at x, as `Decompress` clips it:
      `nBlockWidth - Max(0, (x + nBlockWidth) - width)`. */
  function ClippedEdge(edge: int, x: int, n: int): int
  {
    edge - (if 0 > x + edge - n then 0 else x + edge - n)
  }

  /** The clipped edge of a block at a multiple of 4 inside the image is the
      number of pixels left, but at most 4. */
  lemma ClippedEdgeIsRest(x: nat, n: nat)
    requires x < n && x % 4 == 0
    ensures ClippedEdge(BlockEdge(n), x, n) == if n - x < 4 then n - x else 4
  {
  }

  // ---------------------------------------------------------------------
  // Pixel addressing
  // ---------------------------------------------------------------------

  /** The byte of channel ch of pixel (px, py) of plane pz in a buffer whose
      planes start every `plane` bytes and hold w pixels per row of comp
      bytes each. */
  function PixelAt(w: int, comp: int, plane: int, px: int, py: int, pz: int, ch: int): int
  {
    pz * plane + (py * w + px) * comp + ch
  }

  /** Byte k of a buffer of d planes of `plane` bytes belongs to no pixel
      channel of a w x h x d image of comp bytes per pixel: it lies past the
      last plane, or past the w * h * comp pixel bytes of its own plane. */
  predicate OutsidePixels(k: int, w: int, h: int, d: int, comp: int, plane: int)
  {
    k >= d * plane || (plane > 0 && k % plane >= w * h * comp)
  }

  /** Every pixel byte lies among the first w * h * comp bytes of its plane,
      hence inside the d planes and never outside the pixels. */
  lemma PixelAtBounds(w: nat, h: nat, d: nat, comp: nat, plane: nat, px: nat, py: nat, pz: nat, ch: nat)
    requires px < w && py < h && pz < d && ch < comp && w * h * comp <= plane
    ensures pz * plane <= PixelAt(w, comp, plane, px, py, pz, ch) < pz * plane + w * h * comp
    ensures PixelAt(w, comp, plane, px, py, pz, ch) < d * plane
    ensures !OutsidePixels(PixelAt(w, comp, plane, px, py, pz, ch), w, h, d, comp, plane)
  {
    var pix := py * w + px;
    assert 0 <= pix < h * w by {
      MulLe(py + 1, h, w);
      Distrib(py, 1, w);
      MulLe(0, py, w);
    }
    assert 0 <= pix * comp + ch < w * h * comp by {
      MulLe(pix + 1, h * w, comp);
      Distrib(pix, 1, comp);
      MulLe(0, pix, comp);
      MulComm(h, w);
    }
    MulLe(0, pz, plane);
    MulLe(pz + 1, d, plane);
    Distrib(pz, 1, plane);
    DivUnique(PixelAt(w, comp, plane, px, py, pz, ch), plane, pz, pix * comp + ch);
  }

  /** Distinct pixel channels occupy distinct bytes. */
  lemma PixelAtInjective(w: nat, h: nat, comp: nat, plane: nat, px: nat, py: nat, pz: nat, ch: nat,
                         qx: nat, qy: nat, qz: nat, cq: nat)
    requires px < w && qx < w && py < h && qy < h && ch < comp && cq < comp && w * h * comp <= plane
    requires PixelAt(w, comp, plane, px, py, pz, ch) == PixelAt(w, comp, plane, qx, qy, qz, cq)
    ensures px == qx && py == qy && pz == qz && ch == cq
  {
    var n := PixelAt(w, comp, plane, px, py, pz, ch);
    PixelAtBounds(w, h, pz + 1, comp, plane, px, py, pz, ch);
    PixelAtBounds(w, h, qz + 1, comp, plane, qx, qy, qz, cq);
    DivUnique(n, plane, pz, (py * w + px) * comp + ch);
    DivUnique(n, plane, qz, (qy * w + qx) * comp + cq);
    DivUnique(n - pz * plane, comp, py * w + px, ch);
    DivUnique(n - qz * plane, comp, qy * w + qx, cq);
    DivUnique(py * w + px, w, py, px);
    DivUnique(qy * w + qx, w, qy, qx);
  }

  /** Where `Decompress` puts the block at (x, y) of plane z:
      `pCurrentData + (y * width + x) * components`, the plane starting at
      z times the bytes per plane. */
  function BlockDest(w: int, comp: int, plane: int, x: int, y: int, z: int): int
  {
    z * plane + (y * w + x) * comp
  }

  /** Channel ch of pixel (i, j) of that block is channel ch of image pixel
      (x + i, y + j) of plane z. */
  lemma BlockPixel(w: int, comp: int, plane: int, x: int, y: int, z: int, i: int, j: int, ch: int)
    ensures At(BlockDest(w, comp, plane, x, y, z), comp, w * comp, i, j, ch)
         == PixelAt(w, comp, plane, x + i, y + j, z, ch)
  {
    calc {
      At(BlockDest(w, comp, plane, x, y, z), comp, w * comp, i, j, ch);
      z * plane + (y * w + x) * comp + j * (w * comp) + i * comp + ch;
      { Distrib(y * w + x, j * w, comp); Distrib(y * w + x + j * w, i, comp); }
      z * plane + (y * w + x + j * w + i) * comp + ch;
      { Distrib(y, j, w); }
      PixelAt(w, comp, plane, x + i, y + j, z, ch);
    }
  }

  // ---------------------------------------------------------------------
  // One block
  // ---------------------------------------------------------------------

  /** The formats `Decompress` can decode into a buffer of comp bytes per
      pixel: DXT1 writes channels 0..2, DXT3 and DXT5 also channel 3, LATC1
      one channel per pixel (its pixels are 1 byte apart) and LATC2 two
      (2 bytes apart). */
  predicate Decodable(c: Compression, comp: int)
  {
    match c
    case CompressionNone => comp > 0
    case DXT1 => comp >= 3
    case DXT3 => comp >= 4
    case DXT5 => comp >= 4
    case LATC1 => comp == 1
    case LATC2 => comp == 2
  }

  /** Channel ch of a decoded colour (red in channel 0, blue in channel 2,
      as `Decompress` passes them). */
  function ColorByte(col: Rgb, ch: int): Option<byte>
  {
    if ch == 0 then Some(col.r) else if ch == 1 then Some(col.g) else if ch == 2 then Some(col.b) else None
  }

  /** What a block writes into channel ch of its pixel (i, j), or None for a
      channel it leaves alone. DXT3 and DXT5 blocks hold the alpha block
      first and the colour block second; LATC2 decodes its second half into
      channel 0 and its first half into channel 1. */
  function BlockByte(c: Compression, block: seq<byte>, i: nat, j: nat, ch: int): (b: Option<byte>)
    requires |block| >= BlockBytes(c) && i < 4 && j < 4
    ensures b.Some? <==> 0 <= ch < WrittenChannels(c)
  {
    match c
    case CompressionNone => None
    case DXT1 => ColorByte(PixelColor(block[..8], DXT1, i, j), ch)
    case DXT3 => if ch == 3 then Some(Dxt3Alpha(block[..8], i, j)) else ColorByte(PixelColor(block[8..16], DXT3, i, j), ch)
    case DXT5 => if ch == 3 then Some(Dxt5Alpha(block[..8], i, j)) else ColorByte(PixelColor(block[8..16], DXT5, i, j), ch)
    case LATC1 => if ch == 0 then Some(Dxt5Alpha(block[..8], i, j)) else None
    case LATC2 =>
      if ch == 0 then Some(Dxt5Alpha(block[8..16], i, j))
      else if ch == 1 then Some(Dxt5Alpha(block[..8], i, j)) else None
  }

  /** The byte that ends up in place of `was`. */
  function Merge(v: Option<byte>, was: byte): byte
  {
    if v.Some? then v.value else was
  }

  /** Byte k belongs to some pixel of the bw x bh block at dest. */
  ghost predicate InBlock(k: int, dest: int, comp: int, yOff: int, bw: int, bh: int)
  {
    exists i, j :: 0 <= i < bw && 0 <= j < bh && 0 <= k - Pos(dest, comp, yOff, i, j) < comp
  }

  /** s is s0 with the bw x bh block at dest decoded: every channel of every
      pixel of the block holds what `BlockByte` says or keeps its byte, and
      nothing outside the block differs. */
  ghost predicate BlockWritten(s: seq<byte>, s0: seq<byte>, dest: int, comp: int, yOff: int, bw: int, bh: int,
                               c: Compression, block: seq<byte>)
  {
    0 <= bw <= 4 && 0 <= bh <= 4 && |block| >= BlockBytes(c) && |s| == |s0| &&
    (forall i, j, ch :: 0 <= i < bw && 0 <= j < bh && 0 <= ch < comp ==>
      0 <= At(dest, comp, yOff, i, j, ch) < |s| &&
      s[At(dest, comp, yOff, i, j, ch)] == Merge(BlockByte(c, block, i, j, ch), s0[At(dest, comp, yOff, i, j, ch)])) &&
    (forall k :: 0 <= k < |s| && !InBlock(k, dest, comp, yOff, bw, bh) ==> s[k] == s0[k])
  }

  /** The destination can take a bw x bh block of comp-byte pixels. */
  predicate BlockLayout(len: int, dest: int, bw: int, bh: int, comp: int, yOff: int)
  {
    comp > 0 && Layout(len, dest, bw, bh, comp, yOff, comp - 1)
  }

  /** A decoder writing channels `o + ch[n]` of the block's pixels writes only
      bytes of the block. */
  lemma TouchedInBlock(k: int, dest: int, o: int, comp: int, yOff: int, bw: int, bh: int, ch: seq<int>)
    requires forall n :: 0 <= n < |ch| ==> 0 <= o + ch[n] < comp
    requires Touched(k, dest + o, comp, yOff, bw, bh, ch)
    ensures InBlock(k, dest, comp, yOff, bw, bh)
  {
    var i, j :| 0 <= i < bw && 0 <= j && Before(i, j, 0, bh) && k - Pos(dest + o, comp, yOff, i, j) in ch;
    var n :| 0 <= n < |ch| && ch[n] == k - Pos(dest + o, comp, yOff, i, j);
    assert 0 <= k - Pos(dest, comp, yOff, i, j) < comp;
  }

  /** ... and no channel of the block other than those. */
  lemma OtherChannelUntouched(dest: int, o: int, comp: int, yOff: int, bw: int, bh: int, ch: seq<int>,
                              i: int, j: int, c: int)
    requires 0 < comp && bw * comp <= yOff
    requires 0 <= i < bw && 0 <= j < bh && 0 <= c < comp
    requires forall n :: 0 <= n < |ch| ==> 0 <= o + ch[n] < comp && o + ch[n] != c
    ensures !Touched(At(dest, comp, yOff, i, j, c), dest + o, comp, yOff, bw, bh, ch)
  {
    var k := At(dest, comp, yOff, i, j, c);
    if Touched(k, dest + o, comp, yOff, bw, bh, ch) {
      var i2, j2 :| 0 <= i2 < bw && 0 <= j2 && Before(i2, j2, 0, bh) && k - Pos(dest + o, comp, yOff, i2, j2) in ch;
      var n :| 0 <= n < |ch| && ch[n] == k - Pos(dest + o, comp, yOff, i2, j2);
      PosInjective(comp, yOff, bw, i, j, c, i2, j2, o + ch[n]);
      assert false;
    }
  }

  /** A byte of channel c >= 3 of the block is not one the colour decoder writes. */
  lemma NotColorChannel(dest: int, comp: int, yOff: int, bw: int, bh: int, i: int, j: int, c: int)
    requires 0 < comp && bw * comp <= yOff
    requires 0 <= i < bw && 0 <= j < bh && 3 <= c < comp
    ensures !Touched(At(dest, comp, yOff, i, j, c), dest, comp, yOff, bw, bh, [0, 1, 2])
  {
    OtherChannelUntouched(dest, 0, comp, yOff, bw, bh, [0, 1, 2], i, j, c);
  }

  /** A byte of channel c != o of the block is not one a one-channel decoder
      at dest + o writes. */
  lemma NotAlphaChannel(dest: int, o: int, comp: int, yOff: int, bw: int, bh: int, i: int, j: int, c: int)
    requires 0 < comp && bw * comp <= yOff && 0 <= o < comp
    requires 0 <= i < bw && 0 <= j < bh && 0 <= c < comp && c != o
    ensures !Touched(At(dest, comp, yOff, i, j, c), dest + o, comp, yOff, bw, bh, [0])
  {
    OtherChannelUntouched(dest, o, comp, yOff, bw, bh, [0], i, j, c);
  }

  /** A layout for all channels of each pixel is one for the channels up to top. */
  lemma LayoutNarrower(len: int, dest: int, bw: int, bh: int, comp: int, yOff: int, o: int, top: int)
    requires BlockLayout(len, dest, bw, bh, comp, yOff)
    requires 0 <= o && 0 <= top && o + top < comp
    ensures Layout(len, dest + o, bw, bh, comp, yOff, top)
  {
  }

  /** Decode one block into the bw x bh pixels at dest, as the `switch` of
      `Decompress` does for each compression. Every channel of every pixel
      of the block ends up holding what `BlockByte` says, or keeps its byte;
      nothing outside the block changes. */
  method DecodeBlock(a: array<byte>, dest: int, block: seq<byte>, bw: int, bh: int, comp: int, w: int,
                     c: Compression)
    requires |block| >= BlockBytes(c) && Decodable(c, comp)
    requires BlockLayout(a.Length, dest, bw, bh, comp, w * comp)
    modifies a
    ensures BlockWritten(a[..], old(a[..]), dest, comp, w * comp, bw, bh, c, block)
  {
    match c
    case CompressionNone => NothingWritten(a[..], dest, comp, w * comp, bw, bh, block);
    case DXT1 => DecodeDxt1Block(a, dest, block, bw, bh, comp, w);
    case DXT3 => DecodeDxt35Block(a, dest, block, bw, bh, comp, w, c);
    case DXT5 => DecodeDxt35Block(a, dest, block, bw, bh, comp, w, c);
    case LATC1 =>
      assert comp == 1 && w * comp == w;
      DecodeLatc1Block(a, dest, block, bw, bh, w);
    case LATC2 =>
      assert comp == 2 && w * comp == w * 2;
      DecodeLatc2Block(a, dest, block, bw, bh, w);
  }

  /** Without compression a block writes nothing. */
  lemma NothingWritten(s: seq<byte>, dest: int, comp: int, yOff: int, bw: int, bh: int, block: seq<byte>)
    requires BlockLayout(|s|, dest, bw, bh, comp, yOff)
    ensures BlockWritten(s, s, dest, comp, yOff, bw, bh, CompressionNone, block)
  {
    forall i, j, ch | 0 <= i < bw && 0 <= j < bh && 0 <= ch < comp
      ensures 0 <= At(dest, comp, yOff, i, j, ch) < |s|
    {
      PosInBounds(|s|, dest, bw, bh, comp, yOff, comp - 1, i, j, ch);
    }
  }

  /** A DXT1 block: the colour block, red in channel 0 and blue in channel 2. */
  method DecodeDxt1Block(a: array<byte>, dest: int, block: seq<byte>, bw: int, bh: int, comp: int, w: int)
    requires |block| >= 8 && comp >= 3
    requires BlockLayout(a.Length, dest, bw, bh, comp, w * comp)
    modifies a
    ensures BlockWritten(a[..], old(a[..]), dest, comp, w * comp, bw, bh, DXT1, block)
  {
    ghost var a0 := a[..];
    LayoutNarrower(a.Length, dest, bw, bh, comp, w * comp, 0, 2);
    DecodeColorBlock(a, dest, block[..8], bw, bh, comp, w * comp, DXT1, 0, 2);
    ColorWritten(a0, a[..], dest, block, bw, bh, comp, w * comp);
  }

  /** A DXT3 or DXT5 block: the alpha block into channel 3, then the colour
      block that follows it into channels 0..2. */
  method DecodeDxt35Block(a: array<byte>, dest: int, block: seq<byte>, bw: int, bh: int, comp: int, w: int,
                          c: Compression)
    requires |block| >= 16 && comp >= 4 && (c == DXT3 || c == DXT5)
    requires BlockLayout(a.Length, dest, bw, bh, comp, w * comp)
    modifies a
    ensures BlockWritten(a[..], old(a[..]), dest, comp, w * comp, bw, bh, c, block)
  {
    ghost var a0 := a[..];
    LayoutNarrower(a.Length, dest, bw, bh, comp, w * comp, 3, 0);
    if c == DXT3 {
      DecodeDxt3AlphaBlock(a, dest + 3, block[..8], bw, bh, comp, w * comp);
    } else {
      DecodeDxt5AlphaBlock(a, dest + 3, block[..8], bw, bh, comp, w * comp);
    }
    ghost var a1 := a[..];
    LayoutNarrower(a.Length, dest, bw, bh, comp, w * comp, 0, 2);
    DecodeColorBlock(a, dest, block[8..16], bw, bh, comp, w * comp, c, 0, 2);
    AlphaThenColorWritten(a0, a1, a[..], dest, block, bw, bh, comp, w * comp, c);
  }

  /** A LATC1 block: one alpha block, pixels 1 byte and rows `width` bytes apart. */
  method DecodeLatc1Block(a: array<byte>, dest: int, block: seq<byte>, bw: int, bh: int, w: int)
    requires |block| >= 8
    requires BlockLayout(a.Length, dest, bw, bh, 1, w)
    modifies a
    ensures BlockWritten(a[..], old(a[..]), dest, 1, w, bw, bh, LATC1, block)
  {
    ghost var a0 := a[..];
    LayoutNarrower(a.Length, dest, bw, bh, 1, w, 0, 0);
    DecodeDxt5AlphaBlock(a, dest, block[..8], bw, bh, 1, w);
    Latc1Written(a0, a[..], dest, block, bw, bh, w);
  }

  /** A LATC2 block: its second alpha block into channel 0, then its first
      into channel 1, pixels 2 bytes and rows `2 * width` bytes apart. */
  method DecodeLatc2Block(a: array<byte>, dest: int, block: seq<byte>, bw: int, bh: int, w: int)
    requires |block| >= 16
    requires BlockLayout(a.Length, dest, bw, bh, 2, w * 2)
    modifies a
    ensures BlockWritten(a[..], old(a[..]), dest, 2, w * 2, bw, bh, LATC2, block)
  {
    ghost var a0 := a[..];
    LayoutNarrower(a.Length, dest, bw, bh, 2, w * 2, 0, 0);
    DecodeDxt5AlphaBlock(a, dest, block[8..16], bw, bh, 2, w * 2);
    ghost var a1 := a[..];
    LayoutNarrower(a.Length, dest, bw, bh, 2, w * 2, 1, 0);
    DecodeDxt5AlphaBlock(a, dest + 1, block[..8], bw, bh, 2, w * 2);
    Latc2Written(a0, a1, a[..], dest, block, bw, bh, w * 2);
  }

  /** The channels of a DXT1 block: a colour block written into channels 0..2. */
  /** One channel of one pixel of a DXT1 block. */
  lemma ColorChannelWritten(s0: seq<byte>, s1: seq<byte>, dest: int, block: seq<byte>, bw: int, bh: int,
                            comp: int, yOff: int, i: int, j: int, ch: int, col: Rgb)
    requires |block| >= 8 && comp >= 3 && BlockLayout(|s0|, dest, bw, bh, comp, yOff) && |s1| == |s0|
    requires 0 <= i < bw && 0 <= j < bh && 0 <= ch < comp && col == PixelColor(block[..8], DXT1, i, j)
    requires 0 <= Pos(dest, comp, yOff, i, j) && Pos(dest, comp, yOff, i, j) + 2 < |s1|
    requires s1[Pos(dest, comp, yOff, i, j) + 0] == col.r && s1[Pos(dest, comp, yOff, i, j) + 1] == col.g
    requires s1[Pos(dest, comp, yOff, i, j) + 2] == col.b
    requires forall k :: 0 <= k < |s1| && !Touched(k, dest, comp, yOff, bw, bh, [0, 1, 2]) ==> s1[k] == s0[k]
    ensures 0 <= At(dest, comp, yOff, i, j, ch) < |s1|
    ensures s1[At(dest, comp, yOff, i, j, ch)] == Merge(BlockByte(DXT1, block, i, j, ch), s0[At(dest, comp, yOff, i, j, ch)])
  {
    PosInBounds(|s0|, dest, bw, bh, comp, yOff, comp - 1, i, j, ch);
    var p := Pos(dest, comp, yOff, i, j);
    assert BlockByte(DXT1, block, i, j, ch) == ColorByte(col, ch);
    if ch >= 3 {
      NotColorChannel(dest, comp, yOff, bw, bh, i, j, ch);
    } else {
      assert At(dest, comp, yOff, i, j, ch) == p + ch;
    }
  }

  lemma ColorWritten(s0: seq<byte>, s1: seq<byte>, dest: int, block: seq<byte>, bw: int, bh: int,
                     comp: int, yOff: int)
    requires |block| >= 8 && comp >= 3 && BlockLayout(|s0|, dest, bw, bh, comp, yOff) && |s1| == |s0|
    requires forall x, y :: 0 <= x < bw && 0 <= y < bh ==>
      0 <= Pos(dest, comp, yOff, x, y) && Pos(dest, comp, yOff, x, y) + 2 < |s1| &&
      s1[Pos(dest, comp, yOff, x, y) + 0] == PixelColor(block[..8], DXT1, x, y).r &&
      s1[Pos(dest, comp, yOff, x, y) + 1] == PixelColor(block[..8], DXT1, x, y).g &&
      s1[Pos(dest, comp, yOff, x, y) + 2] == PixelColor(block[..8], DXT1, x, y).b
    requires forall k :: 0 <= k < |s1| && !Touched(k, dest, comp, yOff, bw, bh, [0, 1, 2]) ==> s1[k] == s0[k]
    ensures BlockWritten(s1, s0, dest, comp, yOff, bw, bh, DXT1, block)
  {
    forall i, j, ch | 0 <= i < bw && 0 <= j < bh && 0 <= ch < comp
      ensures 0 <= At(dest, comp, yOff, i, j, ch) < |s1| &&
        s1[At(dest, comp, yOff, i, j, ch)] == Merge(BlockByte(DXT1, block, i, j, ch), s0[At(dest, comp, yOff, i, j, ch)])
    {
      ColorChannelWritten(s0, s1, dest, block, bw, bh, comp, yOff, i, j, ch, PixelColor(block[..8], DXT1, i, j));
    }
    forall k | 0 <= k < |s1| && !InBlock(k, dest, comp, yOff, bw, bh)
      ensures s1[k] == s0[k]
    {
      if Touched(k, dest, comp, yOff, bw, bh, [0, 1, 2]) {
        TouchedInBlock(k, dest, 0, comp, yOff, bw, bh, [0, 1, 2]);
      }
    }
  }

  /** The alpha of pixel (x, y) of a DXT3 or DXT5 block. */
  function BlockAlpha(block: seq<byte>, c: Compression, x: nat, y: nat): byte
    requires |block| >= 8 && x < 4 && y < 4
  {
    if c == DXT3 then Dxt3Alpha(block, x, y) else Dxt5Alpha(block, x, y)
  }

  /** One channel of one pixel of a DXT3 or DXT5 block after the alpha and
      colour blocks are written. */
  lemma AlphaThenColorChannel(s0: seq<byte>, s1: seq<byte>, s2: seq<byte>, dest: int, block: seq<byte>,
                              bw: int, bh: int, comp: int, yOff: int, c: Compression, i: int, j: int, ch: int,
                              alpha: byte, col: Rgb)
    requires |block| >= 16 && comp >= 4 && (c == DXT3 || c == DXT5)
    requires BlockLayout(|s0|, dest, bw, bh, comp, yOff) && |s1| == |s0| && |s2| == |s0|
    requires 0 <= i < bw && 0 <= j < bh && 0 <= ch < comp
    requires alpha == BlockAlpha(block[..8], c, i, j) && col == PixelColor(block[8..16], c, i, j)
    requires 0 <= Pos(dest + 3, comp, yOff, i, j) < |s1| && s1[Pos(dest + 3, comp, yOff, i, j)] == alpha
    requires forall k :: 0 <= k < |s1| && !Touched(k, dest + 3, comp, yOff, bw, bh, [0]) ==> s1[k] == s0[k]
    requires 0 <= Pos(dest, comp, yOff, i, j) && Pos(dest, comp, yOff, i, j) + 2 < |s2|
    requires s2[Pos(dest, comp, yOff, i, j) + 0] == col.r
    requires s2[Pos(dest, comp, yOff, i, j) + 1] == col.g
    requires s2[Pos(dest, comp, yOff, i, j) + 2] == col.b
    requires forall k :: 0 <= k < |s2| && !Touched(k, dest, comp, yOff, bw, bh, [0, 1, 2]) ==> s2[k] == s1[k]
    ensures 0 <= At(dest, comp, yOff, i, j, ch) < |s2| &&
      s2[At(dest, comp, yOff, i, j, ch)] == Merge(BlockByte(c, block, i, j, ch), s0[At(dest, comp, yOff, i, j, ch)])
  {
    PosInBounds(|s0|, dest, bw, bh, comp, yOff, comp - 1, i, j, ch);
    var p := Pos(dest, comp, yOff, i, j);
    var k := At(dest, comp, yOff, i, j, ch);
    assert BlockByte(c, block, i, j, ch) == if ch == 3 then Some(alpha) else ColorByte(col, ch);
    if ch < 3 {
      assert k == p + ch;
    } else if ch == 3 {
      NotColorChannel(dest, comp, yOff, bw, bh, i, j, ch);
      assert k == Pos(dest + 3, comp, yOff, i, j);
    } else {
      NotColorChannel(dest, comp, yOff, bw, bh, i, j, ch);
      NotAlphaChannel(dest, 3, comp, yOff, bw, bh, i, j, ch);
    }
  }

  /** The channels of a DXT3 or DXT5 block: an alpha block written into
      channel 3, then a colour block into channels 0..2. */
  lemma AlphaThenColorWritten(s0: seq<byte>, s1: seq<byte>, s2: seq<byte>, dest: int, block: seq<byte>,
                              bw: int, bh: int, comp: int, yOff: int, c: Compression)
    requires |block| >= 16 && comp >= 4 && (c == DXT3 || c == DXT5)
    requires BlockLayout(|s0|, dest, bw, bh, comp, yOff) && |s1| == |s0| && |s2| == |s0|
    requires forall x, y :: 0 <= x < bw && 0 <= y < bh ==>
      0 <= Pos(dest + 3, comp, yOff, x, y) < |s1| &&
      s1[Pos(dest + 3, comp, yOff, x, y)] == (if c == DXT3 then Dxt3Alpha(block[..8], x, y) else Dxt5Alpha(block[..8], x, y))
    requires forall k :: 0 <= k < |s1| && !Touched(k, dest + 3, comp, yOff, bw, bh, [0]) ==> s1[k] == s0[k]
    requires forall x, y :: 0 <= x < bw && 0 <= y < bh ==>
      0 <= Pos(dest, comp, yOff, x, y) && Pos(dest, comp, yOff, x, y) + 2 < |s2| &&
      s2[Pos(dest, comp, yOff, x, y) + 0] == PixelColor(block[8..16], c, x, y).r &&
      s2[Pos(dest, comp, yOff, x, y) + 1] == PixelColor(block[8..16], c, x, y).g &&
      s2[Pos(dest, comp, yOff, x, y) + 2] == PixelColor(block[8..16], c, x, y).b
    requires forall k :: 0 <= k < |s2| && !Touched(k, dest, comp, yOff, bw, bh, [0, 1, 2]) ==> s2[k] == s1[k]
    ensures BlockWritten(s2, s0, dest, comp, yOff, bw, bh, c, block)
  {
    forall i, j, ch | 0 <= i < bw && 0 <= j < bh && 0 <= ch < comp
      ensures 0 <= At(dest, comp, yOff, i, j, ch) < |s2| &&
        s2[At(dest, comp, yOff, i, j, ch)] == Merge(BlockByte(c, block, i, j, ch), s0[At(dest, comp, yOff, i, j, ch)])
    {
      AlphaThenColorChannel(s0, s1, s2, dest, block, bw, bh, comp, yOff, c, i, j, ch,
                            BlockAlpha(block[..8], c, i, j), PixelColor(block[8..16], c, i, j));
    }
    forall k | 0 <= k < |s2| && !InBlock(k, dest, comp, yOff, bw, bh)
      ensures s2[k] == s0[k]
    {
      if Touched(k, dest, comp, yOff, bw, bh, [0, 1, 2]) {
        TouchedInBlock(k, dest, 0, comp, yOff, bw, bh, [0, 1, 2]);
      } else if Touched(k, dest + 3, comp, yOff, bw, bh, [0]) {
        TouchedInBlock(k, dest, 3, comp, yOff, bw, bh, [0]);
      }
    }
  }

  /** The channel of a LATC1 block: one alpha block, pixels one byte apart. */
  lemma Latc1Written(s0: seq<byte>, s1: seq<byte>, dest: int, block: seq<byte>, bw: int, bh: int, yOff: int)
    requires |block| >= 8 && BlockLayout(|s0|, dest, bw, bh, 1, yOff) && |s1| == |s0|
    requires forall x, y :: 0 <= x < bw && 0 <= y < bh ==>
      0 <= Pos(dest, 1, yOff, x, y) < |s1| && s1[Pos(dest, 1, yOff, x, y)] == Dxt5Alpha(block[..8], x, y)
    requires forall k :: 0 <= k < |s1| && !Touched(k, dest, 1, yOff, bw, bh, [0]) ==> s1[k] == s0[k]
    ensures BlockWritten(s1, s0, dest, 1, yOff, bw, bh, LATC1, block)
  {
    forall i, j, ch | 0 <= i < bw && 0 <= j < bh && 0 <= ch < 1
      ensures 0 <= At(dest, 1, yOff, i, j, ch) < |s1| &&
        s1[At(dest, 1, yOff, i, j, ch)] == Merge(BlockByte(LATC1, block, i, j, ch), s0[At(dest, 1, yOff, i, j, ch)])
    {
      assert At(dest, 1, yOff, i, j, ch) == Pos(dest, 1, yOff, i, j);
      assert BlockByte(LATC1, block, i, j, ch) == Some(Dxt5Alpha(block[..8], i, j));
    }
    forall k | 0 <= k < |s1| && !InBlock(k, dest, 1, yOff, bw, bh)
      ensures s1[k] == s0[k]
    {
      if Touched(k, dest, 1, yOff, bw, bh, [0]) {
        TouchedInBlock(k, dest, 0, 1, yOff, bw, bh, [0]);
      }
    }
  }

  /** The channels of a LATC2 block: its second half decoded into channel 0,
      then its first half into channel 1, pixels two bytes apart. */
  /** One channel of one pixel of a LATC2 block. */
  lemma Latc2Channel(s0: seq<byte>, s1: seq<byte>, s2: seq<byte>, dest: int, block: seq<byte>,
                     bw: int, bh: int, yOff: int, i: int, j: int, ch: int, first: byte, second: byte)
    requires |block| >= 16 && BlockLayout(|s0|, dest, bw, bh, 2, yOff) && |s1| == |s0| && |s2| == |s0|
    requires 0 <= i < bw && 0 <= j < bh && 0 <= ch < 2
    requires first == Dxt5Alpha(block[8..16], i, j) && second == Dxt5Alpha(block[..8], i, j)
    requires 0 <= Pos(dest, 2, yOff, i, j) < |s1| && s1[Pos(dest, 2, yOff, i, j)] == first
    requires forall k :: 0 <= k < |s2| && !Touched(k, dest + 1, 2, yOff, bw, bh, [0]) ==> s2[k] == s1[k]
    requires 0 <= Pos(dest + 1, 2, yOff, i, j) < |s2| && s2[Pos(dest + 1, 2, yOff, i, j)] == second
    ensures 0 <= At(dest, 2, yOff, i, j, ch) < |s2|
    ensures s2[At(dest, 2, yOff, i, j, ch)] == Merge(BlockByte(LATC2, block, i, j, ch), s0[At(dest, 2, yOff, i, j, ch)])
  {
    PosInBounds(|s0|, dest, bw, bh, 2, yOff, 1, i, j, ch);
    assert BlockByte(LATC2, block, i, j, ch) == if ch == 0 then Some(first) else Some(second);
    if ch == 0 {
      NotAlphaChannel(dest, 1, 2, yOff, bw, bh, i, j, ch);
    } else {
      assert At(dest, 2, yOff, i, j, ch) == Pos(dest + 1, 2, yOff, i, j);
    }
  }

  lemma Latc2Written(s0: seq<byte>, s1: seq<byte>, s2: seq<byte>, dest: int, block: seq<byte>,
                     bw: int, bh: int, yOff: int)
    requires |block| >= 16 && BlockLayout(|s0|, dest, bw, bh, 2, yOff) && |s1| == |s0| && |s2| == |s0|
    requires forall x, y :: 0 <= x < bw && 0 <= y < bh ==>
      0 <= Pos(dest, 2, yOff, x, y) < |s1| && s1[Pos(dest, 2, yOff, x, y)] == Dxt5Alpha(block[8..16], x, y)
    requires forall k :: 0 <= k < |s1| && !Touched(k, dest, 2, yOff, bw, bh, [0]) ==> s1[k] == s0[k]
    requires forall x, y :: 0 <= x < bw && 0 <= y < bh ==>
      0 <= Pos(dest + 1, 2, yOff, x, y) < |s2| && s2[Pos(dest + 1, 2, yOff, x, y)] == Dxt5Alpha(block[..8], x, y)
    requires forall k :: 0 <= k < |s2| && !Touched(k, dest + 1, 2, yOff, bw, bh, [0]) ==> s2[k] == s1[k]
    ensures BlockWritten(s2, s0, dest, 2, yOff, bw, bh, LATC2, block)
  {
    forall i, j, ch | 0 <= i < bw && 0 <= j < bh && 0 <= ch < 2
      ensures 0 <= At(dest, 2, yOff, i, j, ch) < |s2| &&
        s2[At(dest, 2, yOff, i, j, ch)] == Merge(BlockByte(LATC2, block, i, j, ch), s0[At(dest, 2, yOff, i, j, ch)])
    {
      Latc2Channel(s0, s1, s2, dest, block, bw, bh, yOff, i, j, ch,
                   Dxt5Alpha(block[8..16], i, j), Dxt5Alpha(block[..8], i, j));
    }
    forall k | 0 <= k < |s2| && !InBlock(k, dest, 2, yOff, bw, bh)
      ensures s2[k] == s0[k]
    {
      if Touched(k, dest, 2, yOff, bw, bh, [0]) {
        TouchedInBlock(k, dest, 0, 2, yOff, bw, bh, [0]);
      } else if Touched(k, dest + 1, 2, yOff, bw, bh, [0]) {
        TouchedInBlock(k, dest, 1, 2, yOff, bw, bh, [0]);
      }
    }
  }

  // ---------------------------------------------------------------------
  // The walk over all blocks
  // ---------------------------------------------------------------------

  /** Pixel (px, py) of plane pz lies in a block the walk visits before the
      block at (x, y) of plane z, x and y being multiples of 4. */
  predicate Visited(px: int, py: int, pz: int, x: int, y: int, z: int)
  {
    pz < z || (pz == z && (py < y || (py < y + 4 && px < x)))
  }

  /** The number of the block that holds pixel (px, py) of plane pz: blocks
      are stored plane by plane, block row by block row. */
  function BlockIndex(w: int, h: int, px: nat, py: nat, pz: nat): nat
  {
    (pz * NumBlocks(h) + py / 4) * NumBlocks(w) + px / 4
  }

  /** The byte channel ch of pixel (px, py) of plane pz holds once src is
      decompressed, given that it held `was` before: what its block writes
      there, if anything. */
  function Decoded(src: seq<byte>, c: Compression, w: int, h: int, px: nat, py: nat, pz: nat, ch: int,
                   was: byte): (b: byte)
    ensures !(0 <= ch < WrittenChannels(c)) ==> b == was
  {
    var b := BlockIndex(w, h, px, py, pz);
    var bb := BlockBytes(c);
    MulLe(0, b, bb);
    if b * bb + bb <= |src| then Merge(BlockByte(c, src[b * bb..b * bb + bb], px % 4, py % 4, ch), was) else was
  }

  /** Every pixel's block lies inside the compressed-size bytes, so a pixel of
      a large enough source is always decoded from its own block. */
  lemma BlockInSource(c: Compression, w: nat, h: nat, d: nat, px: nat, py: nat, pz: nat)
    requires px < w && py < h && pz < d
    ensures (BlockIndex(w, h, px, py, pz) + 1) * BlockBytes(c) <= CompressedSize(c, w, h, d)
  {
    var nw, nh, bb := NumBlocks(w), NumBlocks(h), BlockBytes(c);
    NumBlocksBounds(w);
    NumBlocksBounds(h);
    var row := pz * nh + py / 4;
    assert row + 1 <= d * nh by {
      MulLe(pz + 1, d, nh);
      Distrib(pz, 1, nh);
    }
    assert BlockIndex(w, h, px, py, pz) + 1 <= d * nh * nw by {
      MulLe(row + 1, d * nh, nw);
      Distrib(row, 1, nw);
    }
    MulLe(BlockIndex(w, h, px, py, pz) + 1, d * nh * nw, bb);
    CompressedSizeCountsBlocks(c, w, h, d);
  }

  /** Channel ch of pixel (px, py) of plane pz lies inside s and holds its
      decoded byte when `decoded` holds, its original byte otherwise. */
  ghost predicate PixelIs(s: seq<byte>, orig: seq<byte>, src: seq<byte>, c: Compression, w: nat, h: nat,
                          comp: nat, plane: nat, px: nat, py: nat, pz: nat, ch: nat, decoded: bool)
  {
    var k := PixelAt(w, comp, plane, px, py, pz, ch);
    0 <= k < |s| && k < |orig| &&
    s[k] == if decoded then Decoded(src, c, w, h, px, py, pz, ch, orig[k]) else orig[k]
  }

  /** Bytes of the image before the visit of the block at (x, y) of plane z:
      visited pixels hold their decoded bytes, all other bytes are as they
      were. */
  ghost predicate Done(s: seq<byte>, orig: seq<byte>, src: seq<byte>, c: Compression, w: nat, h: nat, d: nat,
                       comp: nat, plane: nat, x: int, y: int, z: int)
  {
    |s| == |orig| && w * h * comp <= plane && d * plane <= |s| &&
    (forall px: nat, py: nat, pz: nat, ch: nat :: px < w && py < h && pz < d && ch < comp ==>
      PixelIs(s, orig, src, c, w, h, comp, plane, px, py, pz, ch, Visited(px, py, pz, x, y, z))) &&
    (forall k :: 0 <= k < |s| && OutsidePixels(k, w, h, d, comp, plane) ==> s[k] == orig[k])
  }

  /** s is orig decompressed: every channel of every pixel holds its decoded
      byte, and the bytes after the image are as they were. */
  ghost predicate Decompressed(s: seq<byte>, orig: seq<byte>, src: seq<byte>, c: Compression, w: nat, h: nat,
                               d: nat, comp: nat, plane: nat)
  {
    |s| == |orig| && w * h * comp <= plane && d * plane <= |s| &&
    (forall px: nat, py: nat, pz: nat, ch: nat :: px < w && py < h && pz < d && ch < comp ==>
      PixelIs(s, orig, src, c, w, h, comp, plane, px, py, pz, ch, true)) &&
    (forall k :: 0 <= k < |s| && OutsidePixels(k, w, h, d, comp, plane) ==> s[k] == orig[k])
  }

  lemma DoneAtStart(s: seq<byte>, src: seq<byte>, c: Compression, w: nat, h: nat, d: nat, comp: nat, plane: nat)
    requires w * h * comp <= plane && d * plane <= |s|
    ensures Done(s, s, src, c, w, h, d, comp, plane, 0, 0, 0)
  {
    forall px: nat, py: nat, pz: nat, ch: nat | px < w && py < h && pz < d && ch < comp
      ensures PixelIs(s, s, src, c, w, h, comp, plane, px, py, pz, ch, false)
    {
      PixelAtBounds(w, h, d, comp, plane, px, py, pz, ch);
    }
  }

  lemma DoneAtEnd(s: seq<byte>, orig: seq<byte>, src: seq<byte>, c: Compression, w: nat, h: nat, d: nat, comp: nat, plane: nat)
    requires Done(s, orig, src, c, w, h, d, comp, plane, 0, 0, d)
    ensures Decompressed(s, orig, src, c, w, h, d, comp, plane)
  {
    forall px: nat, py: nat, pz: nat, ch: nat | px < w && py < h && pz < d && ch < comp
      ensures PixelIs(s, orig, src, c, w, h, comp, plane, px, py, pz, ch, true)
    {
      assert PixelIs(s, orig, src, c, w, h, comp, plane, px, py, pz, ch, Visited(px, py, pz, 0, 0, d));
    }
  }

  /** Past the last block of a block row, the walk continues at the next row. */
  lemma RowDone(s: seq<byte>, orig: seq<byte>, src: seq<byte>, c: Compression, w: nat, h: nat, d: nat,
                comp: nat, plane: nat, x: int, y: int, z: int)
    requires x >= w && Done(s, orig, src, c, w, h, d, comp, plane, x, y, z)
    ensures Done(s, orig, src, c, w, h, d, comp, plane, 0, y + 4, z)
  {
    var y2 := y + 4;
    forall px: nat, py: nat, pz: nat, ch: nat | px < w && py < h && pz < d && ch < comp
      ensures PixelIs(s, orig, src, c, w, h, comp, plane, px, py, pz, ch, Visited(px, py, pz, 0, y2, z))
    {
      assert PixelIs(s, orig, src, c, w, h, comp, plane, px, py, pz, ch, Visited(px, py, pz, x, y, z));
    }
  }

  /** Past the last block row of a plane, the walk continues at the next plane. */
  lemma PlaneDone(s: seq<byte>, orig: seq<byte>, src: seq<byte>, c: Compression, w: nat, h: nat, d: nat,
                  comp: nat, plane: nat, y: int, z: int)
    requires y >= h && Done(s, orig, src, c, w, h, d, comp, plane, 0, y, z)
    ensures Done(s, orig, src, c, w, h, d, comp, plane, 0, 0, z + 1)
  {
    var z2 := z + 1;
    forall px: nat, py: nat, pz: nat, ch: nat | px < w && py < h && pz < d && ch < comp
      ensures PixelIs(s, orig, src, c, w, h, comp, plane, px, py, pz, ch, Visited(px, py, pz, 0, 0, z2))
    {
      assert PixelIs(s, orig, src, c, w, h, comp, plane, px, py, pz, ch, Visited(px, py, pz, 0, y, z));
    }
  }

  /** The clipped block at (x, y) of plane z fits the image. */
  lemma BlockFits(len: int, w: nat, h: nat, d: nat, comp: nat, plane: nat, x: nat, y: nat, z: nat)
    requires w * h * comp <= plane && d * plane <= len && comp > 0
    requires x < w && x % 4 == 0 && y < h && y % 4 == 0 && z < d
    ensures BlockLayout(len, BlockDest(w, comp, plane, x, y, z), ClippedEdge(BlockEdge(w), x, w),
                        ClippedEdge(BlockEdge(h), y, h), comp, w * comp)
  {
    var bw, bh := ClippedEdge(BlockEdge(w), x, w), ClippedEdge(BlockEdge(h), y, h);
    ClippedEdgeIsRest(x, w);
    ClippedEdgeIsRest(y, h);
    MulLe(bw, w, comp);
    BlockPixel(w, comp, plane, x, y, z, bw - 1, bh - 1, comp - 1);
    PixelAtBounds(w, h, d, comp, plane, x + bw - 1, y + bh - 1, z, comp - 1);
    BlockPixel(w, comp, plane, x, y, z, 0, 0, 0);
    PixelAtBounds(w, h, d, comp, plane, x, y, z, 0);
  }

  /** A byte of the clipped block at (x, y) of plane z is a byte of one of
      that block's pixels. */
  lemma PixelInBlock(w: nat, h: nat, comp: nat, plane: nat, x: nat, y: nat, z: nat, px: nat, py: nat, pz: nat, ch: nat)
    requires x + ClippedEdge(BlockEdge(w), x, w) <= w && y + ClippedEdge(BlockEdge(h), y, h) <= h
    requires px < w && py < h && ch < comp && w * h * comp <= plane
    requires InBlock(PixelAt(w, comp, plane, px, py, pz, ch), BlockDest(w, comp, plane, x, y, z), comp, w * comp,
                     ClippedEdge(BlockEdge(w), x, w), ClippedEdge(BlockEdge(h), y, h))
    ensures pz == z && x <= px < x + ClippedEdge(BlockEdge(w), x, w) && y <= py < y + ClippedEdge(BlockEdge(h), y, h)
  {
    var k := PixelAt(w, comp, plane, px, py, pz, ch);
    var dest := BlockDest(w, comp, plane, x, y, z);
    var i, j :| 0 <= i < ClippedEdge(BlockEdge(w), x, w) && 0 <= j < ClippedEdge(BlockEdge(h), y, h) &&
                0 <= k - Pos(dest, comp, w * comp, i, j) < comp;
    var c2 := k - Pos(dest, comp, w * comp, i, j);
    BlockPixel(w, comp, plane, x, y, z, i, j, c2);
    PixelAtInjective(w, h, comp, plane, px, py, pz, ch, x + i, y + j, z, c2);
  }

  /** A byte of the clipped block at (x, y) of plane z lies inside the image. */
  lemma BlockInImage(w: nat, h: nat, d: nat, comp: nat, plane: nat, x: nat, y: nat, z: nat, k: int)
    requires x + ClippedEdge(BlockEdge(w), x, w) <= w && y + ClippedEdge(BlockEdge(h), y, h) <= h && z < d
    requires w * h * comp <= plane
    requires InBlock(k, BlockDest(w, comp, plane, x, y, z), comp, w * comp,
                     ClippedEdge(BlockEdge(w), x, w), ClippedEdge(BlockEdge(h), y, h))
    ensures !OutsidePixels(k, w, h, d, comp, plane)
  {
    var dest := BlockDest(w, comp, plane, x, y, z);
    var i, j :| 0 <= i < ClippedEdge(BlockEdge(w), x, w) && 0 <= j < ClippedEdge(BlockEdge(h), y, h) &&
                0 <= k - Pos(dest, comp, w * comp, i, j) < comp;
    var c2 := k - Pos(dest, comp, w * comp, i, j);
    BlockPixel(w, comp, plane, x, y, z, i, j, c2);
    PixelAtBounds(w, h, d, comp, plane, x + i, y + j, z, c2);
  }

  /** The local coordinate of a pixel inside the block that starts at x. */
  lemma LocalCoordinate(x: nat, px: nat)
    requires x % 4 == 0 && x <= px < x + 4
    ensures px % 4 == px - x && px / 4 == x / 4
  {
    DivUnique(px, 4, x / 4, px - x);
  }

  /** A pixel of the block at (x, y) lies in that block. */
  lemma SameBlock(w: nat, h: nat, x: nat, y: nat, z: nat, px: nat, py: nat)
    requires x % 4 == 0 && y % 4 == 0 && x <= px < x + 4 && y <= py < y + 4
    ensures px % 4 == px - x && py % 4 == py - y
    ensures BlockIndex(w, h, px, py, z) == BlockIndex(w, h, x, y, z)
  {
    LocalCoordinate(x, px);
    LocalCoordinate(y, py);
  }

  /** The decoded byte of a pixel comes from the block at off. */
  lemma DecodedFromBlock(src: seq<byte>, c: Compression, w: nat, h: nat, px: nat, py: nat, pz: nat, ch: nat,
                         was: byte, off: nat)
    requires off == BlockIndex(w, h, px, py, pz) * BlockBytes(c) && off + BlockBytes(c) <= |src|
    ensures Decoded(src, c, w, h, px, py, pz, ch, was)
         == Merge(BlockByte(c, src[off..off + BlockBytes(c)], px % 4, py % 4, ch), was)
  {
  }

  /** A pixel of the block at (x, y) of plane z holds its decoded byte once
      that block is written. */
  lemma PixelOfBlock(s0: seq<byte>, s1: seq<byte>, orig: seq<byte>, src: seq<byte>, c: Compression,
                     w: nat, h: nat, comp: nat, plane: nat, x: nat, y: nat, z: nat, off: nat,
                     px: nat, py: nat, ch: nat)
    requires x % 4 == 0 && y % 4 == 0 && x <= px < w && px < x + 4 && y <= py < h && py < y + 4 && ch < comp
    requires off == BlockIndex(w, h, x, y, z) * BlockBytes(c) && off + BlockBytes(c) <= |src|
    requires PixelIs(s0, orig, src, c, w, h, comp, plane, px, py, z, ch, false)
    requires BlockWritten(s1, s0, BlockDest(w, comp, plane, x, y, z), comp, w * comp,
                          ClippedEdge(BlockEdge(w), x, w), ClippedEdge(BlockEdge(h), y, h), c,
                          src[off..off + BlockBytes(c)])
    ensures PixelIs(s1, orig, src, c, w, h, comp, plane, px, py, z, ch, true)
  {
    ClippedEdgeIsRest(x, w);
    ClippedEdgeIsRest(y, h);
    SameBlock(w, h, x, y, z, px, py);
    var i, j := px - x, py - y;
    BlockPixel(w, comp, plane, x, y, z, i, j, ch);
    var k := PixelAt(w, comp, plane, px, py, z, ch);
    var blk := src[off..off + BlockBytes(c)];
    var dest := BlockDest(w, comp, plane, x, y, z);
    assert k == At(dest, comp, w * comp, i, j, ch);
    WrittenAt(s1, s0, dest, comp, w * comp, ClippedEdge(BlockEdge(w), x, w), ClippedEdge(BlockEdge(h), y, h),
              c, blk, i, j, ch);
    DecodedFromBlock(src, c, w, h, px, py, z, ch, orig[k], off);
  }

  /** One channel of one pixel of a written block. */
  lemma WrittenAt(s: seq<byte>, s0: seq<byte>, dest: int, comp: int, yOff: int, bw: int, bh: int,
                  c: Compression, block: seq<byte>, i: int, j: int, ch: int)
    requires BlockWritten(s, s0, dest, comp, yOff, bw, bh, c, block)
    requires 0 <= i < bw && 0 <= j < bh && 0 <= ch < comp
    ensures 0 <= At(dest, comp, yOff, i, j, ch) < |s| == |s0|
    ensures s[At(dest, comp, yOff, i, j, ch)] == Merge(BlockByte(c, block, i, j, ch), s0[At(dest, comp, yOff, i, j, ch)])
  {
  }

  /** Decoding the block at (x, y) of plane z decodes the channels of that
      block and leaves every other channel as it was. */
  lemma PixelStep(s0: seq<byte>, s1: seq<byte>, orig: seq<byte>, src: seq<byte>, c: Compression,
                  w: nat, h: nat, d: nat, comp: nat, plane: nat, x: nat, y: nat, z: nat, off: nat,
                  px: nat, py: nat, pz: nat, ch: nat)
    requires x < w && x % 4 == 0 && y < h && y % 4 == 0 && z < d && comp > 0
    requires px < w && py < h && pz < d && ch < comp && w * h * comp <= plane
    requires off == BlockIndex(w, h, x, y, z) * BlockBytes(c) && off + BlockBytes(c) <= |src|
    requires PixelIs(s0, orig, src, c, w, h, comp, plane, px, py, pz, ch, Visited(px, py, pz, x, y, z))
    requires BlockWritten(s1, s0, BlockDest(w, comp, plane, x, y, z), comp, w * comp,
                          ClippedEdge(BlockEdge(w), x, w), ClippedEdge(BlockEdge(h), y, h), c,
                          src[off..off + BlockBytes(c)])
    ensures PixelIs(s1, orig, src, c, w, h, comp, plane, px, py, pz, ch, Visited(px, py, pz, x + 4, y, z))
  {
    var bw, bh := ClippedEdge(BlockEdge(w), x, w), ClippedEdge(BlockEdge(h), y, h);
    ClippedEdgeIsRest(x, w);
    ClippedEdgeIsRest(y, h);
    var dest := BlockDest(w, comp, plane, x, y, z);
    if pz == z && y <= py < y + 4 && x <= px < x + 4 {
      PixelOfBlock(s0, s1, orig, src, c, w, h, comp, plane, x, y, z, off, px, py, ch);
    } else if InBlock(PixelAt(w, comp, plane, px, py, pz, ch), dest, comp, w * comp, bw, bh) {
      PixelInBlock(w, h, comp, plane, x, y, z, px, py, pz, ch);
      assert false;
    }
  }

  /** Decoding the block at (x, y) of plane z extends the decoded part of the
      image by that block. */
  lemma BlockStep(s0: seq<byte>, s1: seq<byte>, orig: seq<byte>, src: seq<byte>, c: Compression,
                  w: nat, h: nat, d: nat, comp: nat, plane: nat, x: nat, y: nat, z: nat, off: nat)
    requires x < w && x % 4 == 0 && y < h && y % 4 == 0 && z < d && comp > 0
    requires off == BlockIndex(w, h, x, y, z) * BlockBytes(c) && off + BlockBytes(c) <= |src|
    requires Done(s0, orig, src, c, w, h, d, comp, plane, x, y, z)
    requires BlockWritten(s1, s0, BlockDest(w, comp, plane, x, y, z), comp, w * comp,
                          ClippedEdge(BlockEdge(w), x, w), ClippedEdge(BlockEdge(h), y, h), c,
                          src[off..off + BlockBytes(c)])
    ensures Done(s1, orig, src, c, w, h, d, comp, plane, x + 4, y, z)
  {
    var bw, bh := ClippedEdge(BlockEdge(w), x, w), ClippedEdge(BlockEdge(h), y, h);
    ClippedEdgeIsRest(x, w);
    ClippedEdgeIsRest(y, h);
    var dest := BlockDest(w, comp, plane, x, y, z);
    var x2 := x + 4;
    forall px: nat, py: nat, pz: nat, ch: nat | px < w && py < h && pz < d && ch < comp
      ensures PixelIs(s1, orig, src, c, w, h, comp, plane, px, py, pz, ch, Visited(px, py, pz, x2, y, z))
    {
      PixelStep(s0, s1, orig, src, c, w, h, d, comp, plane, x, y, z, off, px, py, pz, ch);
    }
    forall k | 0 <= k < |s1| && OutsidePixels(k, w, h, d, comp, plane)
      ensures s1[k] == orig[k]
    {
      if InBlock(k, dest, comp, w * comp, bw, bh) {
        BlockInImage(w, h, d, comp, plane, x, y, z, k);
        assert false;
      }
    }
  }

  // ---------------------------------------------------------------------
  // What decompression produces
  // ---------------------------------------------------------------------

  /** The number of leading channels of a pixel that a block of format c
      writes. */
  function WrittenChannels(c: Compression): nat
  {
    match c
    case CompressionNone => 0
    case DXT1 => 3
    case DXT3 => 4
    case DXT5 => 4
    case LATC1 => 1
    case LATC2 => 2
  }

  /** With the whole compressed image at hand, the channels a format writes
      get a byte that does not depend on what the buffer held, and all other
      channels keep their byte. */
  lemma DecodedChannels(src: seq<byte>, c: Compression, w: nat, h: nat, d: nat, px: nat, py: nat, pz: nat,
                        ch: nat, was: byte, was2: byte)
    requires |src| >= CompressedSize(c, w, h, d) && px < w && py < h && pz < d
    ensures ch < WrittenChannels(c) ==>
      Decoded(src, c, w, h, px, py, pz, ch, was) == Decoded(src, c, w, h, px, py, pz, ch, was2)
    ensures ch >= WrittenChannels(c) ==> Decoded(src, c, w, h, px, py, pz, ch, was) == was
  {
    BlockInSource(c, w, h, d, px, py, pz);
    Distrib(BlockIndex(w, h, px, py, pz), 1, BlockBytes(c));
  }

  /** Decompression reads no compressed byte past `CompressedSize`: sources
      that agree on those bytes decode alike. */
  lemma DecodedReadsCompressedSize(src: seq<byte>, src2: seq<byte>, c: Compression, w: nat, h: nat, d: nat,
                                   px: nat, py: nat, pz: nat, ch: nat, was: byte)
    requires |src| >= CompressedSize(c, w, h, d) && |src2| >= CompressedSize(c, w, h, d)
    requires src[..CompressedSize(c, w, h, d)] == src2[..CompressedSize(c, w, h, d)]
    requires px < w && py < h && pz < d
    ensures Decoded(src, c, w, h, px, py, pz, ch, was) == Decoded(src2, c, w, h, px, py, pz, ch, was)
  {
    var b, bb := BlockIndex(w, h, px, py, pz), BlockBytes(c);
    BlockInSource(c, w, h, d, px, py, pz);
    Distrib(b, 1, bb);
    MulLe(0, b, bb);
    var n := CompressedSize(c, w, h, d);
    assert src[b * bb..b * bb + bb] == src[..n][b * bb..b * bb + bb];
    assert src2[b * bb..b * bb + bb] == src2[..n][b * bb..b * bb + bb];
  }

  /** Without compression nothing is decoded. */
  lemma NothingDecoded(s: seq<byte>, src: seq<byte>, w: nat, h: nat, d: nat, comp: nat, plane: nat)
    requires Done(s, s, src, CompressionNone, w, h, d, comp, plane, 0, 0, 0)
    ensures Decompressed(s, s, src, CompressionNone, w, h, d, comp, plane)
  {
    forall px: nat, py: nat, pz: nat, ch: nat | px < w && py < h && pz < d && ch < comp
      ensures PixelIs(s, s, src, CompressionNone, w, h, comp, plane, px, py, pz, ch, true)
    {
      assert PixelIs(s, s, src, CompressionNone, w, h, comp, plane, px, py, pz, ch, Visited(px, py, pz, 0, 0, 0));
      var b := BlockIndex(w, h, px, py, pz);
      assert b * BlockBytes(CompressionNone) == 0;
    }
  }

  // ---------------------------------------------------------------------
  // The loops of `Decompress`
  // ---------------------------------------------------------------------

  /** The next block starts 4 pixels on. */
  lemma NextBlock(x: int)
    requires x % 4 == 0
    ensures (x + 4) % 4 == 0 && (x + 4) / 4 == x / 4 + 1
  {
  }

  /** The innermost loop: decode the blocks of block row y of plane z, whose
      pixels start at byte cur of the buffer, from compressed byte off0 on. */
  method DecodeBlockRow(a: array<byte>, src: seq<byte>, c: Compression, w: nat, h: nat, d: nat, comp: nat, plane: nat,
                        bw: int, bh: int, cur: nat, y: nat, z: nat, off0: nat, ghost orig: seq<byte>)
    returns (off: nat)
    requires Decodable(c, comp) && |src| >= CompressedSize(c, w, h, d) && w * h * comp <= plane && d * plane <= a.Length
    requires bw == BlockEdge(w) && bh == BlockEdge(h)
    requires y < h && y % 4 == 0 && z < d && cur == z * plane
    requires off0 == BlockIndex(w, h, 0, y, z) * BlockBytes(c)
    requires Done(a[..], orig, src, c, w, h, d, comp, plane, 0, y, z)
    modifies a
    ensures off == BlockIndex(w, h, 0, y + 4, z) * BlockBytes(c)
    ensures Done(a[..], orig, src, c, w, h, d, comp, plane, 0, y + 4, z)
  {
    NumBlocksBounds(w);
    var x := 0;
    off := off0;
    while x < w
      invariant x % 4 == 0 && x <= 4 * NumBlocks(w)
      invariant off == BlockIndex(w, h, x, y, z) * BlockBytes(c)
      invariant Done(a[..], orig, src, c, w, h, d, comp, plane, x, y, z)
    {
      var dest := cur + (y * w + x) * comp;
      var cbw := bw - (if 0 > x + bw - w then 0 else x + bw - w);
      var cbh := bh - (if 0 > y + bh - h then 0 else y + bh - h);
      assert dest == BlockDest(w, comp, plane, x, y, z);
      assert cbw == ClippedEdge(BlockEdge(w), x, w) && cbh == ClippedEdge(BlockEdge(h), y, h);
      BlockInSource(c, w, h, d, x, y, z);
      Distrib(BlockIndex(w, h, x, y, z), 1, BlockBytes(c));
      BlockFits(a.Length, w, h, d, comp, plane, x, y, z);
      ghost var s0 := a[..];
      DecodeBlock(a, dest, src[off..off + BlockBytes(c)], cbw, cbh, comp, w, c);
      BlockStep(s0, a[..], orig, src, c, w, h, d, comp, plane, x, y, z, off);
      NextBlock(x);
      off := off + BlockBytes(c);
      x := x + 4;
    }
    RowDone(a[..], orig, src, c, w, h, d, comp, plane, x, y, z);
    assert x / 4 == NumBlocks(w);
    Distrib(z * NumBlocks(h) + y / 4, 1, NumBlocks(w));
  }

  /** The middle loop: decode the block rows of plane z. */
  method DecodePlane(a: array<byte>, src: seq<byte>, c: Compression, w: nat, h: nat, d: nat, comp: nat, plane: nat,
                     bw: int, bh: int, cur: nat, z: nat, off0: nat, ghost orig: seq<byte>)
    returns (off: nat)
    requires Decodable(c, comp) && |src| >= CompressedSize(c, w, h, d) && w * h * comp <= plane && d * plane <= a.Length
    requires bw == BlockEdge(w) && bh == BlockEdge(h)
    requires z < d && cur == z * plane
    requires off0 == BlockIndex(w, h, 0, 0, z) * BlockBytes(c)
    requires Done(a[..], orig, src, c, w, h, d, comp, plane, 0, 0, z)
    modifies a
    ensures off == BlockIndex(w, h, 0, 0, z + 1) * BlockBytes(c)
    ensures Done(a[..], orig, src, c, w, h, d, comp, plane, 0, 0, z + 1)
  {
    NumBlocksBounds(h);
    var y := 0;
    off := off0;
    while y < h
      invariant y % 4 == 0 && y <= 4 * NumBlocks(h)
      invariant off == BlockIndex(w, h, 0, y, z) * BlockBytes(c)
      invariant Done(a[..], orig, src, c, w, h, d, comp, plane, 0, y, z)
    {
      off := DecodeBlockRow(a, src, c, w, h, d, comp, plane, bw, bh, cur, y, z, off, orig);
      NextBlock(y);
      y := y + 4;
    }
    PlaneDone(a[..], orig, src, c, w, h, d, comp, plane, y, z);
    assert y / 4 == NumBlocks(h);
    Distrib(z, 1, NumBlocks(h));
  }

  /** The next plane starts `plane` bytes on. */
  lemma NextPlane(z: int, plane: int)
    ensures (z + 1) * plane == z * plane + plane
  {
  }

  /** The outer loop: decode the planes one after the other. */
  method DecodePlanes(a: array<byte>, src: seq<byte>, c: Compression, w: nat, h: nat, d: nat, comp: nat, plane: nat,
                      ghost orig: seq<byte>)
    returns (consumed: nat)
    requires Decodable(c, comp) && c != CompressionNone
    requires |src| >= CompressedSize(c, w, h, d) && w * h * comp <= plane && d * plane <= a.Length
    requires Done(a[..], orig, src, c, w, h, d, comp, plane, 0, 0, 0)
    modifies a
    ensures consumed == BlockIndex(w, h, 0, 0, d) * BlockBytes(c)
    ensures Done(a[..], orig, src, c, w, h, d, comp, plane, 0, 0, d)
  {
    var bw := if w < 4 then w else 4;
    var bh := if h < 4 then h else 4;
    var cur: nat := 0;
    var z := 0;
    consumed := 0;
    while z < d
      invariant z <= d && cur == z * plane
      invariant consumed == BlockIndex(w, h, 0, 0, z) * BlockBytes(c)
      invariant Done(a[..], orig, src, c, w, h, d, comp, plane, 0, 0, z)
    {
      consumed := DecodePlane(a, src, c, w, h, d, comp, plane, bw, bh, cur, z, consumed, orig);
      NextPlane(z, plane);
      cur := cur + plane;
      z := z + 1;
    }
  }

  /** `Decompress` on a buffer of w x h x d pixels of comp bytes: every
      channel of every pixel gets its decoded byte, the bytes after the image
      are left alone, and exactly `CompressedSize` compressed bytes are
      consumed. */
  method DecodeImage(a: array<byte>, src: seq<byte>, c: Compression, w: nat, h: nat, d: nat, comp: nat, plane: nat)
    returns (consumed: nat)
    requires Decodable(c, comp) && |src| >= CompressedSize(c, w, h, d) && w * h * comp <= plane && d * plane <= a.Length
    modifies a
    ensures consumed == CompressedSize(c, w, h, d)
    ensures Decompressed(a[..], old(a[..]), src, c, w, h, d, comp, plane)
  {
    ghost var orig := a[..];
    DoneAtStart(orig, src, c, w, h, d, comp, plane);
    if c == CompressionNone {
      NothingDecoded(orig, src, w, h, d, comp, plane);
      return 0;
    }
    consumed := DecodePlanes(a, src, c, w, h, d, comp, plane, orig);
    DoneAtEnd(a[..], orig, src, c, w, h, d, comp, plane);
    CompressedSizeCountsBlocks(c, w, h, d);
  }
}
