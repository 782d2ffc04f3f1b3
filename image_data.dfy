/** The bookkeeping of `PLGraphics::ImageData`: the formats, the size, the
    uncompressed buffer (owned or shared), the compressed buffer and the
    palette of one image, and the operations that keep the two byte counts in
    line with the size and the formats. */
module ImageData {
  import opened Common
  import opened DxtBlocks
  import opened DxtImage
  import ImagePalette

  /** `ImageBuffer::EDataFormat`: the type of one pixel component. */
  datatype DataFormat = DataByte | DataWord | DataHalf | DataFloat | DataDouble

  /** `ImageBuffer::EColorFormat`: the components of one pixel. */
  datatype ColorFormat = ColorRGB | ColorRGBA | ColorBGR | ColorBGRA | ColorGrayscale | ColorGrayscaleA | ColorPalette

  /** `ImageBuffer::GetBytesPerPixelComponent`. */
  function BytesPerComponent(f: DataFormat): (n: nat)
    ensures 1 <= n <= 8
  {
    match f
    case DataByte => 1
    case DataWord => 2
    case DataHalf => 2
    case DataFloat => 4
    case DataDouble => 8
  }

  /** `ImageBuffer::GetComponentsPerPixel`. */
  function ComponentsPerPixel(f: ColorFormat): (n: nat)
    ensures 1 <= n <= 4
  {
    match f
    case ColorRGB => 3
    case ColorRGBA => 4
    case ColorBGR => 3
    case ColorBGRA => 4
    case ColorGrayscale => 1
    case ColorGrayscaleA => 2
    case ColorPalette => 1
  }

  /** The bytes of an uncompressed image of w x h x d pixels. */
  function DataSize(df: DataFormat, cf: ColorFormat, w: nat, h: nat, d: nat): nat
  {
    w * h * d * ComponentsPerPixel(cf) * BytesPerComponent(df)
  }

  /** The uncompressed buffer has room for every component byte of every
      pixel, whatever the width of a component. */
  lemma DataSizeHoldsPixels(df: DataFormat, cf: ColorFormat, w: nat, h: nat, d: nat)
    ensures w * h * d * ComponentsPerPixel(cf) <= DataSize(df, cf, w, h, d)
  {
    MulLe(0, w, h);
    MulLe(0, w * h, d);
    MulLe(0, w * h * d, ComponentsPerPixel(cf));
    MulLe(1, BytesPerComponent(df), w * h * d * ComponentsPerPixel(cf));
  }

  /** `GetBytesPerPlane`: the bytes of one w x h plane of the uncompressed
      image, the stride by which `Decompress` moves from plane to plane. */
  function BytesPerPlane(df: DataFormat, cf: ColorFormat, w: nat, h: nat): nat
  {
    DataSize(df, cf, w, h, 1)
  }

  /** The d planes fill the uncompressed buffer exactly; each has room for the
      one byte per component that the block decoders write, and for byte
      components those bytes fill the plane. */
  lemma PlaneStride(df: DataFormat, cf: ColorFormat, w: nat, h: nat, d: nat)
    ensures w * h * ComponentsPerPixel(cf) <= BytesPerPlane(df, cf, w, h)
    ensures d * BytesPerPlane(df, cf, w, h) == DataSize(df, cf, w, h, d)
    ensures df == DataByte ==> BytesPerPlane(df, cf, w, h) == w * h * ComponentsPerPixel(cf)
  {
    var cp, bp := ComponentsPerPixel(cf), BytesPerComponent(df);
    DataSizeHoldsPixels(df, cf, w, h, 1);
    calc {
      d * BytesPerPlane(df, cf, w, h);
      d * (w * h * cp * bp);
      { MulAssoc(d, w * h * cp, bp); }
      d * (w * h * cp) * bp;
      { MulAssoc(d, w * h, cp); }
      d * (w * h) * cp * bp;
      { MulComm(d, w * h); }
      w * h * d * cp * bp;
    }
  }

  /** An empty image has no bytes, compressed or not. */
  lemma EmptySizes(df: DataFormat, cf: ColorFormat, c: Compression)
    ensures DataSize(df, cf, 0, 0, 0) == 0 && CompressedSize(c, 0, 0, 0) == 0
  {
  }

  class ImageData {
    var dataFormat: DataFormat
    var colorFormat: ColorFormat
    var compression: Compression
    /** `m_vSize`: all three zero for an empty image, all positive otherwise. */
    var width: nat
    var height: nat
    var depth: nat
    /** `m_pData`: the uncompressed pixels, or null. */
    var data: array?<byte>
    var dataSize: nat
    /** The uncompressed buffer belongs to the caller (`ShareData`). */
    var dataShared: bool
    /** `m_pCompressedData`: the compressed blocks, or null. */
    var compressed: array?<byte>
    var compressedSize: nat
    var palette: ImagePalette.ImagePalette?

    /** The byte counts follow from the size and the formats, and each
        buffer that exists has its count of bytes. */
    ghost predicate Valid()
      reads this
    {
      (width == 0 <==> height == 0) && (height == 0 <==> depth == 0) &&
      dataSize == DataSize(dataFormat, colorFormat, width, height, depth) &&
      compressedSize == CompressedSize(compression, width, height, depth) &&
      (data != null ==> data.Length == dataSize) &&
      (compressed != null ==> compressed.Length == compressedSize) &&
      (data != null && compressed != null ==> data != compressed)
    }

    /** The state `Clear` leaves: default formats, no compression, size zero,
        no buffers and no palette. */
    ghost predicate Cleared()
      reads this
    {
      dataFormat == DataByte && colorFormat == ColorRGB && compression == CompressionNone &&
      width == 0 && height == 0 && depth == 0 && dataSize == 0 && compressedSize == 0 &&
      data == null && compressed == null && palette == null
    }

    /** `Clear`: drop both buffers and the palette and reset the formats, the
        compression and the size to their defaults. */
    method Clear()
      modifies this
      ensures Valid() && Cleared() && !dataShared
    {
      data := null;
      dataShared := false;
      dataSize := 0;
      compressed := null;
      compressedSize := 0;
      palette := null;
      dataFormat := DataByte;
      colorFormat := ColorRGB;
      compression := CompressionNone;
      width, height, depth := 0, 0, 0;
      EmptySizes(dataFormat, colorFormat, compression);
      assert dataSize == DataSize(dataFormat, colorFormat, width, height, depth);
      assert compressedSize == CompressedSize(compression, width, height, depth);
    }

    /** `CalculateCompressedImageBufferSize`: `((w + 3) >> 2) * ((h + 3) >> 2)`
        blocks of 8 or 16 bytes per plane, times the number of planes. */
    method CalculateCompressedImageBufferSize()
      modifies this`compressedSize
      ensures compressedSize == CompressedSize(compression, width, height, depth)
    {
      compressedSize := 0;
      match compression {
        case DXT1 =>
          compressedSize := (width + 3) / 4 * ((height + 3) / 4) * 8;
        case LATC1 =>
          compressedSize := (width + 3) / 4 * ((height + 3) / 4) * 8;
        case DXT3 =>
          compressedSize := (width + 3) / 4 * ((height + 3) / 4) * 16;
        case DXT5 =>
          compressedSize := (width + 3) / 4 * ((height + 3) / 4) * 16;
        case LATC2 =>
          compressedSize := (width + 3) / 4 * ((height + 3) / 4) * 16;
        case CompressionNone =>
      }
      compressedSize := compressedSize * depth;
    }

    /** `CreateImage`: clear, record the compression, and for a size with
        every dimension positive record the formats and the size and compute
        both byte counts; otherwise the image stays cleared. */
    method CreateImage(df: DataFormat, cf: ColorFormat, x: int, y: int, z: int, c: Compression)
      modifies this
      ensures Valid() && compression == c && data == null && compressed == null && palette == null
      ensures x > 0 && y > 0 && z > 0 ==>
        dataFormat == df && colorFormat == cf && width == x && height == y && depth == z &&
        dataSize == DataSize(df, cf, x, y, z) &&
        compressedSize == CompressedSize(c, x, y, z)
      ensures !(x > 0 && y > 0 && z > 0) ==>
        dataFormat == DataByte && colorFormat == ColorRGB && width == 0 && height == 0 && depth == 0 &&
        dataSize == 0 && compressedSize == 0
    {
      Clear();
      compression := c;
      if x > 0 && y > 0 && z > 0 {
        dataSize := DataSize(df, cf, x, y, z);
        dataFormat := df;
        colorFormat := cf;
        compression := c;
        width, height, depth := x, y, z;
        CalculateCompressedImageBufferSize();
      } else {
        EmptySizes(DataByte, ColorRGB, c);
      }
    }

    /** `Decompress`: make sure both buffers exist, then decode every block of
        the compressed buffer into the uncompressed one. The caller must pair
        a block format with a colour format that has the components it writes. */
    method Decompress() returns (ok: bool)
      requires Valid() && Decodable(compression, ComponentsPerPixel(colorFormat))
      modifies this, data
      ensures Valid() && ok
      ensures data != null && compressed != null
      ensures old(data) != null ==> (data == old(data) &&
        Decompressed(data[..], old(data[..]), compressed[..], compression, width, height, depth,
                     ComponentsPerPixel(colorFormat), BytesPerPlane(dataFormat, colorFormat, width, height)))
      ensures old(data) == null ==> (fresh(data) &&
        exists before: seq<byte> :: Decompressed(data[..], before, compressed[..], compression, width, height, depth,
                                                 ComponentsPerPixel(colorFormat),
                                                 BytesPerPlane(dataFormat, colorFormat, width, height)))
      ensures old(compressed) != null ==> compressed == old(compressed) && compressed[..] == old(compressed[..])
      ensures old(compressed) == null ==> fresh(compressed)
      ensures dataFormat == old(dataFormat) && colorFormat == old(colorFormat) && compression == old(compression)
      ensures width == old(width) && height == old(height) && depth == old(depth)
      ensures dataSize == old(dataSize) && compressedSize == old(compressedSize) && palette == old(palette)
      ensures old(data) != null ==> dataShared == old(dataShared)
    {
      if data == null {
        data := new byte[dataSize];
        dataShared := false;
      }
      if compressed == null {
        compressed := new byte[compressedSize];
      }
      var comp := ComponentsPerPixel(colorFormat);
      var plane := BytesPerPlane(dataFormat, colorFormat, width, height);
      PlaneStride(dataFormat, colorFormat, width, height, depth);
      ghost var before := data[..];
      var consumed := DecodeImage(data, compressed[..], compression, width, height, depth, comp, plane);
      assert Decompressed(data[..], before, compressed[..], compression, width, height, depth, comp, plane);
      ok := true;
    }

    /** `SetCompression`: a new compression drops the compressed buffer (after
        decoding it when it is the only copy of the pixels) and recomputes the
        compressed size; the same compression changes nothing. */
    method SetCompression(c: Compression)
      requires Valid()
      requires c != compression && compressed != null && data == null ==>
        Decodable(compression, ComponentsPerPixel(colorFormat))
      modifies this
      ensures Valid()
      ensures c == old(compression) ==>
        compression == old(compression) && compressed == old(compressed) && compressedSize == old(compressedSize) &&
        data == old(data)
      ensures c != old(compression) ==>
        compression == c && compressed == null && compressedSize == CompressedSize(c, width, height, depth)
      ensures c != old(compression) && old(compressed) != null && old(data) == null ==>
        data != null && fresh(data) &&
        exists before: seq<byte> :: Decompressed(data[..], before, old(compressed[..]), old(compression), width, height,
                                                 depth, ComponentsPerPixel(colorFormat),
                                                 BytesPerPlane(dataFormat, colorFormat, width, height))
      ensures !(c != old(compression) && old(compressed) != null && old(data) == null) ==> data == old(data)
      ensures dataFormat == old(dataFormat) && colorFormat == old(colorFormat)
      ensures width == old(width) && height == old(height) && depth == old(depth)
      ensures dataSize == old(dataSize) && palette == old(palette)
    {
      if compression != c {
        ghost var decoded := compressed != null && data == null;
        ghost var src := if compressed != null then compressed[..] else [];
        ghost var was := compression;
        ghost var before: seq<byte> := [];
        ghost var plane := BytesPerPlane(dataFormat, colorFormat, width, height);
        if compressed != null && data == null {
          var _ := Decompress();
          before :| Decompressed(data[..], before, src, was, width, height, depth, ComponentsPerPixel(colorFormat), plane);
        }
        compressed := null;
        compression := c;
        CalculateCompressedImageBufferSize();
        assert decoded ==> Decompressed(data[..], before, src, was, width, height, depth, ComponentsPerPixel(colorFormat), plane);
      }
    }

    /** `TakeoverData`: drop both buffers and own the caller's pixels. */
    method TakeoverData(p: array?<byte>)
      requires Valid()
      requires p != null ==> p.Length == dataSize
      modifies this
      ensures Valid() && data == p && !dataShared && compressed == null
      ensures dataFormat == old(dataFormat) && colorFormat == old(colorFormat) && compression == old(compression)
      ensures width == old(width) && height == old(height) && depth == old(depth)
      ensures dataSize == old(dataSize) && compressedSize == old(compressedSize) && palette == old(palette)
    {
      data := null;
      dataShared := false;
      compressed := null;
      data := p;
    }

    /** `ShareData`: drop both buffers and use the caller's pixels without
        owning them. */
    method ShareData(p: array?<byte>)
      requires Valid()
      requires p != null ==> p.Length == dataSize
      modifies this
      ensures Valid() && data == p && dataShared && compressed == null
      ensures dataFormat == old(dataFormat) && colorFormat == old(colorFormat) && compression == old(compression)
      ensures width == old(width) && height == old(height) && depth == old(depth)
      ensures dataSize == old(dataSize) && compressedSize == old(compressedSize) && palette == old(palette)
    {
      data := null;
      dataShared := false;
      compressed := null;
      data := p;
      dataShared := true;
    }

    /** The writable `GetCompressedData`: make sure the compressed buffer
        exists (compressing into it is not implemented, so a new buffer is
        only allocated), then drop the uncompressed buffer, since the caller
        is about to change the compressed bytes. */
    method GetCompressedData() returns (r: array<byte>)
      requires Valid()
      modifies this
      ensures Valid() && r == compressed && data == null && !dataShared
      ensures old(compressed) != null ==> r == old(compressed)
      ensures old(compressed) == null ==> fresh(r)
      ensures r.Length == compressedSize
      ensures dataFormat == old(dataFormat) && colorFormat == old(colorFormat) && compression == old(compression)
      ensures width == old(width) && height == old(height) && depth == old(depth)
      ensures dataSize == old(dataSize) && compressedSize == old(compressedSize) && palette == old(palette)
    {
      if compressed == null {
        compressed := new byte[compressedSize];
      }
      data := null;
      dataShared := false;
      r := compressed;
    }
  }
}
