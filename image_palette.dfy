/** The colour table of a paletted image (`PLGraphics::ImagePalette`): a byte
    buffer holding `size` storage slots of three bytes (red, green, blue), of
    which the first `colors` are in use. Storage is allocated in whole blocks
    of 256 colours and never shrinks. */
module ImagePalette {
  import opened Common

  /** A palette colour as the three integer channels written into the buffer
      (the `GetRInt`/`GetGInt`/`GetBInt` values of a `Color3`). */
  datatype Color = Color(r: byte, g: byte, b: byte)

  /** The number of storage slots allocated for n colours: n rounded up to a
      multiple of 256. */
  function RoundedSize(n: nat): (r: nat)
    ensures r % 256 == 0 && n <= r < n + 256
    ensures n == 0 ==> r == 0
  {
    var s := n / 256;
    (if n % 256 > 0 then s + 1 else s) * 256
  }

  /** The rounded size is the least multiple of 256 that can hold n colours. */
  lemma RoundedSizeIsLeast(n: nat, m: nat)
    requires m % 256 == 0 && n <= m
    ensures RoundedSize(n) <= m
  {
  }

  /** n colours fit their rounded size exactly when n is a multiple of 256. */
  lemma RoundedSizeExact(n: nat)
    ensures RoundedSize(n) == n <==> n % 256 == 0
  {
  }

  /** The storage size after `Resize(n)` on storage of `size` slots: grow to the
      rounded size when that is larger, otherwise keep the storage. */
  function SizeAfterResize(size: nat, n: nat): (r: nat)
    ensures r >= size
    ensures n > 0 ==> r >= n
    ensures n == 0 ==> r == size
    ensures size % 256 == 0 ==> r % 256 == 0
  {
    if n > 0 && RoundedSize(n) > size then RoundedSize(n) else size
  }

  /** k zero bytes (`MemoryManager::Set(p, 0, k)`). */
  function Zeros(k: nat): (r: seq<byte>)
    ensures |r| == k
    ensures forall i :: 0 <= i < k ==> r[i] == 0
  {
    seq(k, i => 0)
  }

  /** The storage size `SetColor` reaches as written: it resizes to `index`
      colours (not `index + 1`) when the index is not yet in use. The same
      resize also sets the colour count to `index`, so the colour just
      written lies one slot past the colours in use. */
  function AsWrittenStorage(colors: nat, size: nat, index: nat): (s: nat)
    ensures s >= size
    ensures index >= colors ==> s >= index
  {
    if index >= colors then SizeAfterResize(size, index) else size
  }

  /** As written, `SetColor` writes bytes 3 * index .. 3 * index + 2 whenever
      storage exists after the resize; this says those writes fall outside it. */
  predicate AsWrittenOverruns(colors: nat, size: nat, index: nat)
  {
    var s := AsWrittenStorage(colors, size, index);
    s > 0 && 3 * index + 2 >= 3 * s
  }

  /** In a consistent palette, the written `SetColor` overruns its buffer exactly
      for a new index that is a positive multiple of 256 not below the current
      storage size: the resize rounds such an index to itself, one slot short. */
  lemma SetColorOverrunsExactly(colors: nat, size: nat, index: nat)
    requires colors <= size && size % 256 == 0
    ensures AsWrittenOverruns(colors, size, index)
        <==> index >= size && index > 0 && index % 256 == 0
  {
    if index >= colors && index > 0 {
      RoundedSizeExact(index);
    }
  }

  /** A full 256-colour palette: setting colour 256 as written writes bytes
      768..770 of a 768-byte buffer. */
  lemma SetColorOverrunExample()
    ensures AsWrittenStorage(256, 256, 256) == 256
    ensures AsWrittenOverruns(256, 256, 256)
  {
    SetColorOverrunsExactly(256, 256, 256);
  }

  class ImagePalette {
    /** `m_pData`: three bytes per storage slot, or null without storage. */
    var data: array?<byte>
    /** `m_nSize`: the number of storage slots. */
    var size: nat
    /** `m_nColors`: the number of colours in use. */
    var colors: nat

    ghost predicate Valid()
      reads this
    {
      colors <= size && size % 256 == 0
      && (data == null <==> size == 0)
      && (data != null ==> data.Length == 3 * size)
    }

    /** The buffer's bytes, empty without storage. */
    ghost function Bytes(): seq<byte>
      reads this, data
    {
      if data == null then [] else data[..]
    }

    /** The default constructor: an empty palette. */
    constructor ()
      ensures Valid() && data == null && size == 0 && colors == 0
    {
      data := null;
      size := 0;
      colors := 0;
    }

    /** The copy constructor: a fresh buffer with the source's size, colour count
        and bytes, or an empty palette when the source has no storage. */
    constructor Copy(source: ImagePalette)
      requires source.Valid()
      ensures Valid()
      ensures if source.size > 0 && source.data != null
              then fresh(data) && size == source.size && colors == source.colors
                   && Bytes() == source.Bytes()
              else data == null && size == 0 && colors == 0
    {
      data := null;
      size := 0;
      colors := 0;
      if source.size > 0 && source.data != null {
        size := source.size;
        colors := source.colors;
        var d := new byte[source.size * 3];
        CopyBytes(d, source.data, source.size * 3);
        data := d;
      }
    }

    /** Release the storage (`Clear`, declared in the class header; its body
        is not part of this model, so freeing the buffer and zeroing both
        counts is the assumed behaviour). */
    method Clear()
      modifies this
      ensures Valid() && data == null && size == 0 && colors == 0
    {
      data := null;
      size := 0;
      colors := 0;
    }

    /** The assignment operator as written: it clears this palette before
        reading the source, so assigning a palette to itself empties it. */
    method AssignAsWritten(source: ImagePalette)
      requires Valid() && source.Valid()
      modifies this
      ensures Valid()
      ensures source == this ==> data == null && size == 0 && colors == 0
      ensures source != this ==>
        if old(source.size) > 0 && old(source.data) != null
        then fresh(data) && size == old(source.size) && colors == old(source.colors)
             && Bytes() == old(source.Bytes())
        else data == null && size == 0 && colors == 0
    {
      Clear();
      if source.size > 0 && source.data != null {
        size := source.size;
        colors := source.colors;
        var d := new byte[size * 3];
        CopyBytes(d, source.data, size * 3);
        data := d;
      }
    }

    /** The assignment operator with a self-assignment guard: the result is an
        equal copy of the source, and `p = p` leaves p as it was. */
    method Assign(source: ImagePalette)
      requires Valid() && source.Valid()
      modifies this
      ensures Valid()
      ensures source == this ==> data == old(data) && size == old(size) && colors == old(colors)
      ensures source != this ==>
        if old(source.size) > 0 && old(source.data) != null
        then fresh(data) && size == old(source.size) && colors == old(source.colors)
             && Bytes() == old(source.Bytes())
        else data == null && size == 0 && colors == 0
    {
      if source != this {
        AssignAsWritten(source);
      }
    }

    /** Create storage for n colours: the rounded size, n colours in use and
        every byte zero; n == 0 leaves the palette empty. */
    method Create(n: nat)
      requires Valid()
      modifies this
      ensures Valid()
      ensures n == 0 ==> data == null && size == 0 && colors == 0
      ensures n > 0 ==> fresh(data) && size == RoundedSize(n) && colors == n
                        && Bytes() == Zeros(3 * size)
    {
      Clear();
      if n > 0 {
        var s := n / 256;
        if n % 256 > 0 {
          s := s + 1;
        }
        s := s * 256;
        var d := new byte[s * 3];
        colors := n;
        forall i | 0 <= i < s * 3 {
          d[i] := 0;
        }
        data := d;
        size := s;
      }
    }

    /** Grow the storage to hold n colours: a larger rounded size reallocates,
        keeping the old bytes and zero-filling the new tail; the colour count
        becomes n even when that is smaller; n == 0 changes nothing. */
    method Resize(n: nat)
      requires Valid()
      modifies this
      ensures Valid()
      ensures size == SizeAfterResize(old(size), n)
      ensures colors == if n > 0 then n else old(colors)
      ensures Bytes() == old(Bytes()) + Zeros(3 * (size - old(size)))
      ensures size > old(size) ==> fresh(data)
      ensures size == old(size) ==> data == old(data)
    {
      if n > 0 {
        var s := n / 256;
        if n % 256 > 0 {
          s := s + 1;
        }
        s := s * 256;
        if s > size {
          var d := new byte[s * 3];
          forall i | 0 <= i < s * 3 {
            d[i] := 0;
          }
          if data != null {
            if size > 0 {
              CopyBytes(d, data, size * 3);
            }
          }
          assert d[..] == Bytes() + Zeros(3 * (s - size));
          data := d;
          size := s;
        }
        colors := n;
      }
    }

    /** Set colour `index`, growing the palette to `index + 1` colours when the
        index is not yet in use, then writing its three bytes. The source
        resizes to `index` colours instead; see `SetColorOverrunsExactly`. */
    method SetColor(index: nat, c: Color)
      requires Valid()
      modifies this, data
      ensures Valid()
      ensures colors == if index >= old(colors) then index + 1 else old(colors)
      ensures size == if index >= old(colors) then SizeAfterResize(old(size), index + 1) else old(size)
      ensures index < size
      ensures Bytes() == (old(Bytes()) + Zeros(3 * (size - old(size))))
                           [3 * index := c.r][3 * index + 1 := c.g][3 * index + 2 := c.b]
    {
      if index >= colors {
        Resize(index + 1);
      }
      ghost var before: seq<byte> := Bytes();
      data[3 * index] := c.r;
      data[3 * index + 1] := c.g;
      data[3 * index + 2] := c.b;
      assert Bytes() == before[3 * index := c.r][3 * index + 1 := c.g][3 * index + 2 := c.b];
    }
  }

  /** Copy the first k bytes of `src` into `dst` (`MemoryManager::Copy`). */
  method CopyBytes(dst: array<byte>, src: array<byte>, k: nat)
    requires k <= dst.Length && k <= src.Length && dst != src
    modifies dst
    ensures dst[..k] == src[..k]
    ensures dst[k..] == old(dst[k..])
  {
    forall i | 0 <= i < k {
      dst[i] := src[i];
    }
  }

  /** Assigning a used palette to itself, as written, leaves it empty. */
  method SelfAssignmentEmpties() returns (before: nat, after: nat)
    ensures before == 1 && after == 0
  {
    var p := new ImagePalette();
    p.Create(1);
    before := p.colors;
    p.AssignAsWritten(p);
    after := p.colors;
  }
}
