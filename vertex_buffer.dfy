/** The OpenGL ES vertex buffer (`PLRendererOpenGLES::VertexBuffer`): its
    storage (a vertex buffer object, a client-side copy, or both), its nested
    lock, and the table that places each vertex attribute inside a vertex.
    GL handles are reduced to whether they exist; addresses are byte offsets
    from the start of the client-side copy. */
module VertexBuffers {
  import opened Common

  /** 2^32: the modulus of `uint32` arithmetic. */
  const TwoTo32: nat := 0x1_0000_0000

  /** A pointer into the buffer's client-side copy (`m_pData` + offset), or null. */
  datatype Address = Null | DataAt(offset: int)

  /** The lock flags (`PLRenderer::Lock`); any other value of the `uint32`
      argument is `OtherLock`. */
  datatype LockFlag = LockReadOnly | LockWriteOnly | LockReadWrite | OtherLock

  /** The usages (`PLRenderer::Usage`). */
  datatype Usage = Static | Dynamic | WriteOnly | Software | UsageUnknown

  /** The GL usage hints of section 2.9 of the OpenGL ES 2.0 specification. */
  const GL_STREAM_DRAW: nat := 0x88E0
  const GL_STATIC_DRAW: nat := 0x88E4
  const GL_DYNAMIC_DRAW: nat := 0x88E8

  /** One entry of the vertex declaration: the semantic and pipeline channel
      it feeds and its byte offset inside a vertex. */
  datatype Attribute = Attribute(semantic: nat, channel: nat, offset: int)

  /** `m_nVertexSize * nElements` as a `uint32`. */
  function SizeOf(vertexSize: nat, elements: nat): (r: nat)
    ensures r < TwoTo32
  {
    (vertexSize * elements) % TwoTo32
  }

  /** The GL hint for a usage; 0 for software buffers. */
  function UsageApi(u: Usage): (r: nat)
    ensures r != 0 <==> u != Software && u != UsageUnknown
  {
    match u
    case Static => GL_STATIC_DRAW
    case Dynamic => GL_DYNAMIC_DRAW
    case WriteOnly => GL_STREAM_DRAW
    case Software => 0
    case UsageUnknown => 0
  }

  /** The offset the attribute table holds for a semantic and channel after
      it has been reset to -1 and refilled from attrs: the offset of the last
      attribute for that slot, or -1. */
  function OffsetOf(attrs: seq<Attribute>, s: nat, c: nat): (r: int)
    ensures r == -1 || exists a :: a in attrs && a.semantic == s && a.channel == c && a.offset == r
    ensures (forall a | a in attrs :: a.semantic != s || a.channel != c) ==> r == -1
  {
    if attrs == [] then -1
    else
      var a := attrs[|attrs| - 1];
      assert forall b :: b in attrs <==> b in attrs[..|attrs| - 1] || b == a;
      if a.semantic == s && a.channel == c then a.offset else OffsetOf(attrs[..|attrs| - 1], s, c)
  }

  /** With non-negative offsets, a slot is usable exactly when some attribute
      feeds it. */
  lemma OffsetOfPresent(attrs: seq<Attribute>, s: nat, c: nat)
    requires forall a | a in attrs :: a.offset >= 0
    ensures OffsetOf(attrs, s, c) >= 0 <==> exists a :: a in attrs && a.semantic == s && a.channel == c
  {
  }

  /** An attribute of vertex index inside a buffer of n vertices lies inside
      the buffer's n * vertexSize bytes. */
  lemma AddressInside(index: nat, n: nat, vertexSize: nat, offset: nat)
    requires index < n && offset < vertexSize
    ensures index * vertexSize + offset < n * vertexSize
  {
    MulLe(index + 1, n, vertexSize);
  }

  // ---------------------------------------------------------------------
  // The lock
  // ---------------------------------------------------------------------

  /** The lock fields: `m_nLockCount`, `m_pLockedData`, `m_bLockReadOnly`, and
      `m_bUpdateVBO`, the flag that the client-side copy must be uploaded. */
  datatype LockState = LockState(count: nat, locked: Address, readOnly: bool, updateVbo: bool)

  /** The lock is held exactly when the count is positive, and then the locked
      pointer is the client-side copy, which exists. */
  predicate Consistent(st: LockState, hasData: bool)
  {
    (st.count > 0 <==> st.locked != Null) &&
    (st.locked != Null ==> st.locked == DataAt(0) && hasData)
  }

  /** `Lock` as written: the count is raised before two of the early returns
      and not lowered again. */
  function LockStepAsWritten(st: LockState, hasVbo: bool, hasData: bool, flag: LockFlag): (r: (LockState, Address))
    ensures r.0.count == st.count || r.0.count == st.count + 1
    ensures r.1 != Null ==> r.0.count == st.count + 1 && r.0.locked == r.1
  {
    if !hasVbo && !hasData then (st, Null)
    else
      var raised := st.(count := st.count + 1);
      if raised.locked != Null then (raised, raised.locked)
      else if flag == OtherLock then (raised, Null)
      else
        var moded := raised.(readOnly := flag == LockReadOnly);
        if hasData then (moded.(locked := DataAt(0)), DataAt(0))
        else if flag != LockWriteOnly then (moded, Null)
        else (moded.(count := st.count), Null)
  }

  /** `Lock` with the count lowered on every path that returns null. A lock
      that fails changes nothing but possibly the read-only flag; a lock of a
      locked buffer nests and returns the same pointer. */
  function LockStep(st: LockState, hasVbo: bool, hasData: bool, flag: LockFlag): (r: (LockState, Address))
    ensures !hasVbo && !hasData ==> r == (st, Null)
    ensures r.1 == Null ==> r.0 == st.(readOnly := r.0.readOnly)
    ensures r.1 != Null ==> r.0.count == st.count + 1 && r.0.locked == r.1
    ensures st.locked != Null && (hasVbo || hasData) ==> r.1 == st.locked && r.0 == st.(count := st.count + 1)
    ensures st.locked == Null ==> (r.1 != Null <==> hasData && flag != OtherLock)
  {
    if !hasVbo && !hasData then (st, Null)
    else
      var raised := st.(count := st.count + 1);
      if raised.locked != Null then (raised, raised.locked)
      else if flag == OtherLock then (st, Null)
      else
        var moded := raised.(readOnly := flag == LockReadOnly);
        if hasData then (moded.(locked := DataAt(0)), DataAt(0))
        else (moded.(count := st.count), Null)
  }

  /** `Unlock`: fails on an unlocked buffer; otherwise lowers the count (as a
      `uint32`) and, on the last unlock, drops the pointer and the read-only
      flag and marks the copy for upload when a VBO exists and the lock
      allowed writing. */
  function UnlockStep(st: LockState, hasVbo: bool, hasData: bool): (r: (LockState, bool))
    ensures st.locked == Null <==> !r.1
    ensures !r.1 ==> r.0 == st
    ensures r.1 && st.count > 1 ==> r.0 == st.(count := st.count - 1)
    ensures r.1 && st.count == 1 ==> r.0.count == 0 && r.0.locked == Null && !r.0.readOnly
    ensures r.1 && st.count == 1 ==>
      (r.0.updateVbo <==> st.updateVbo || (hasData && hasVbo && !st.readOnly))
  {
    if st.locked == Null then (st, false)
    else
      var count := if st.count == 0 then TwoTo32 - 1 else st.count - 1;
      if count != 0 then (st.(count := count), true)
      else
        var update := if hasData && hasVbo && !st.readOnly then true else st.updateVbo;
        (LockState(0, Null, false, update), true)
  }

  /** `ForceUnlock` of the base class: the effect of a last `Unlock` on a
      locked buffer, and a zero count on an unlocked one. */
  function ForceUnlocked(st: LockState, hasVbo: bool, hasData: bool): (r: LockState)
    ensures r.count == 0 && r.locked == Null && (st.locked == Null ==> r.readOnly == st.readOnly)
    ensures st.locked != Null ==> !r.readOnly
  {
    if st.locked != Null then UnlockStep(st.(count := 1), hasVbo, hasData).0
    else st.(count := 0)
  }

  /** Locking and unlocking keep the lock consistent. */
  lemma LockKeepsConsistent(st: LockState, hasVbo: bool, hasData: bool, flag: LockFlag)
    requires Consistent(st, hasData)
    ensures Consistent(LockStep(st, hasVbo, hasData, flag).0, hasData)
    ensures Consistent(UnlockStep(st, hasVbo, hasData).0, hasData)
  {
  }

  /** A successful lock of an unlocked buffer, undone by one unlock, leaves
      the buffer unlocked with the upload flag set when the lock allowed
      writing to a buffer with a VBO. */
  lemma LockUnlockRoundTrip(st: LockState, hasVbo: bool, hasData: bool, flag: LockFlag)
    requires Consistent(st, hasData) && st.locked == Null
    requires LockStep(st, hasVbo, hasData, flag).1 != Null
    ensures var (locked, p) := LockStep(st, hasVbo, hasData, flag);
      p == DataAt(0) &&
      UnlockStep(locked, hasVbo, hasData) ==
        (LockState(0, Null, false, st.updateVbo || (hasVbo && flag != LockReadOnly)), true)
  {
  }

  /** A nested lock of a locked buffer is undone by one unlock: the state is
      as before. */
  lemma NestedLockUnlock(st: LockState, hasVbo: bool, hasData: bool, flag: LockFlag)
    requires Consistent(st, hasData) && st.locked != Null
    ensures var (locked, p) := LockStep(st, hasVbo, hasData, flag);
      p == st.locked && UnlockStep(locked, hasVbo, hasData) == (st, true)
  {
  }

  /** The corrected lock agrees with the lock as written wherever the latter
      does not return null with a raised count. */
  lemma LockAsWrittenDiffersOnlyOnLeaks(st: LockState, hasVbo: bool, hasData: bool, flag: LockFlag)
    ensures var w := LockStepAsWritten(st, hasVbo, hasData, flag);
      w.1 != Null || w.0.count == st.count ==> w == LockStep(st, hasVbo, hasData, flag)
    ensures var w := LockStepAsWritten(st, hasVbo, hasData, flag);
      w.1 == Null && w.0.count != st.count ==>
        w.0.count == st.count + 1 && LockStep(st, hasVbo, hasData, flag) == (w.0.(count := st.count), Null)
  {
  }

  /** As written, a lock with an unknown flag on an unlocked buffer with a
      client-side copy, and a read-only lock of a buffer that only has a VBO,
      both return null with the count raised to 1: the lock is no longer
      consistent. */
  lemma LockAsWrittenLeaks()
    ensures var st := LockState(0, Null, false, false);
      Consistent(st, true) &&
      LockStepAsWritten(st, false, true, OtherLock) == (LockState(1, Null, false, false), Null) &&
      !Consistent(LockState(1, Null, false, false), true)
    ensures var st := LockState(0, Null, false, false);
      Consistent(st, false) &&
      LockStepAsWritten(st, true, false, LockReadOnly) == (LockState(1, Null, true, false), Null) &&
      !Consistent(LockState(1, Null, true, false), false)
  {
  }

  /** The consequence: after the leaked count, a successful lock and its
      matching unlock leave the buffer locked, so the copy is never marked
      for upload; with the corrected lock the same calls unlock it. */
  lemma LeakKeepsBufferLocked()
    ensures var st := LockState(0, Null, false, false);
      var (s1, _) := LockStepAsWritten(st, true, true, OtherLock);
      var (s2, p) := LockStepAsWritten(s1, true, true, LockReadWrite);
      var (s3, ok) := UnlockStep(s2, true, true);
      p == DataAt(0) && ok && s3.locked == DataAt(0) && s3.count == 1 && !s3.updateVbo
    ensures var st := LockState(0, Null, false, false);
      var (s1, _) := LockStep(st, true, true, OtherLock);
      var (s2, p) := LockStep(s1, true, true, LockReadWrite);
      var (s3, ok) := UnlockStep(s2, true, true);
      p == DataAt(0) && ok && s3 == LockState(0, Null, false, true)
  {
  }

  // ---------------------------------------------------------------------
  // The buffer
  // ---------------------------------------------------------------------

  /** The storage fields: the VBO and the client-side copy (whether each
      exists), `m_nElements`, `m_nSize`, `m_nUsage`, `m_nUsageAPI` and
      `m_bManaged`. */
  datatype Storage = Storage(hasVbo: bool, hasData: bool, elements: nat, size: nat,
                             usage: Usage, usageApi: nat, managed: bool)

  /** A vertex buffer. The vertex declaration (the attributes and the vertex
      size) belongs to the base class and is fixed here; `numOfSemantics`,
      `maxPipelineChannels`, `position` and `binormal` are the constants of
      the renderer's vertex-buffer interface. */
  class VertexBuffer {
    const numOfSemantics: nat
    const maxPipelineChannels: nat
    const position: nat
    const binormal: nat
    const vertexSize: nat
    const attributes: seq<Attribute>

    var hasVbo: bool
    var hasData: bool
    var elements: nat
    var size: nat
    var usage: Usage
    var usageApi: nat
    var managed: bool

    var lockCount: nat
    var lockedData: Address
    var lockReadOnly: bool
    var updateVbo: bool

    /** `m_nOffset[semantic][channel]`: the byte offset of an attribute inside
        a vertex, or -1. */
    const offsets: array2<int>

    function Locks(): LockState
      reads this
    {
      LockState(lockCount, lockedData, lockReadOnly, updateVbo)
    }

    function Stored(): Storage
      reads this
    {
      Storage(hasVbo, hasData, elements, size, usage, usageApi, managed)
    }

    ghost predicate Valid()
      reads this
    {
      offsets.Length0 == numOfSemantics && offsets.Length1 == maxPipelineChannels &&
      position <= binormal < numOfSemantics &&
      (forall a | a in attributes :: a.semantic < numOfSemantics && a.channel < maxPipelineChannels) &&
      size == SizeOf(vertexSize, elements) &&
      Consistent(Locks(), hasData)
    }

    /** Every slot of the table holds the offset the attributes give it. */
    ghost predicate OffsetsFrom(attrs: seq<Attribute>)
      reads this, offsets
    {
      forall s, c | 0 <= s < offsets.Length0 && 0 <= c < offsets.Length1 :: offsets[s, c] == OffsetOf(attrs, s, c)
    }

    /** The constructor: nothing allocated, unlocked, every offset -1. */
    constructor(numOfSemantics: nat, maxPipelineChannels: nat, position: nat, binormal: nat,
                vertexSize: nat, attributes: seq<Attribute>)
      requires position <= binormal < numOfSemantics
      requires forall a | a in attributes :: a.semantic < numOfSemantics && a.channel < maxPipelineChannels
      ensures Valid() && OffsetsFrom([]) && fresh(offsets)
      ensures Stored() == Storage(false, false, 0, 0, UsageUnknown, 0, false)
      ensures Locks() == LockState(0, Null, false, false)
      ensures this.vertexSize == vertexSize && this.attributes == attributes
    {
      this.numOfSemantics := numOfSemantics;
      this.maxPipelineChannels := maxPipelineChannels;
      this.position := position;
      this.binormal := binormal;
      this.vertexSize := vertexSize;
      this.attributes := attributes;
      hasVbo, hasData := false, false;
      elements, size, usage, usageApi, managed := 0, 0, UsageUnknown, 0, false;
      lockCount, lockedData, lockReadOnly, updateVbo := 0, Null, false, false;
      offsets := new int[numOfSemantics, maxPipelineChannels]((s, c) => -1);
    }

    /** `IsAllocated`. */
    predicate IsAllocated()
      reads this
    {
      hasVbo || hasData
    }

    /** `GetData(nIndex, nSemantic, nChannel)`: the address of one attribute
        of one vertex while the buffer is locked; null unless the index, the
        channel and the semantic are in range and the attribute exists. */
    method GetData(index: nat, semantic: nat, channel: nat) returns (r: Address)
      requires Valid()
      ensures r != Null <==>
        lockedData != Null && index < elements && channel < maxPipelineChannels &&
        position <= semantic <= binormal && offsets[semantic, channel] >= 0
      ensures r != Null ==> r == DataAt(lockedData.offset + index * vertexSize + offsets[semantic, channel])
      ensures r != Null && OffsetsFrom(attributes) && (forall a | a in attributes :: a.offset < vertexSize) &&
              vertexSize * elements < TwoTo32 ==>
        lockedData.offset <= r.offset < lockedData.offset + size
    {
      if lockedData != Null {
        if index < elements {
          if channel < maxPipelineChannels && semantic >= position && semantic <= binormal {
            if offsets[semantic, channel] >= 0 {
              if OffsetsFrom(attributes) && (forall a | a in attributes :: a.offset < vertexSize) &&
                 vertexSize * elements < TwoTo32 {
                AddressInside(index, elements, vertexSize, offsets[semantic, channel]);
              }
              return DataAt(lockedData.offset + index * vertexSize + offsets[semantic, channel]);
            }
          }
        }
      }
      return Null;
    }

    /** `BindAndUpdate`: uploads a client-side copy marked for upload and
        clears the mark; reports whether it did. */
    method BindAndUpdate() returns (updated: bool)
      modifies this
      ensures updated <==> old(updateVbo) && hasData
      ensures Locks() == old(Locks()).(updateVbo := old(updateVbo) && !hasData)
      ensures Stored() == old(Stored())
    {
      if updateVbo && hasData {
        updateVbo := false;
        return true;
      }
      return false;
    }

    /** `Lock`, with the count lowered on the paths that return null. */
    method Lock(flag: LockFlag) returns (r: Address)
      requires Valid()
      modifies this
      ensures Valid()
      ensures (Locks(), r) == LockStep(old(Locks()), hasVbo, hasData, flag)
      ensures Stored() == old(Stored())
    {
      if !hasVbo && !hasData {
        return Null;
      }
      lockCount := lockCount + 1;
      if lockedData != Null {
        return lockedData;
      }
      if flag == LockReadOnly {
        lockReadOnly := true;
      } else if flag == LockWriteOnly {
        lockReadOnly := false;
      } else if flag == LockReadWrite {
        lockReadOnly := false;
      } else {
        lockCount := lockCount - 1;
        return Null;
      }
      if hasData {
        lockedData := DataAt(0);
      } else if hasVbo {
        var _ := BindAndUpdate();
        if flag != LockWriteOnly {
          lockCount := lockCount - 1;
          return Null;
        }
      }
      if lockedData == Null {
        lockCount := lockCount - 1;
      }
      return lockedData;
    }

    /** `Lock` as written. */
    method LockAsWritten(flag: LockFlag) returns (r: Address)
      modifies this
      ensures (Locks(), r) == LockStepAsWritten(old(Locks()), hasVbo, hasData, flag)
      ensures Stored() == old(Stored())
    {
      if !hasVbo && !hasData {
        return Null;
      }
      lockCount := lockCount + 1;
      if lockedData != Null {
        return lockedData;
      }
      if flag == LockReadOnly {
        lockReadOnly := true;
      } else if flag == LockWriteOnly {
        lockReadOnly := false;
      } else if flag == LockReadWrite {
        lockReadOnly := false;
      } else {
        return Null;
      }
      if hasData {
        lockedData := DataAt(0);
      } else if hasVbo {
        var _ := BindAndUpdate();
        if flag != LockWriteOnly {
          return Null;
        }
      }
      if lockedData == Null {
        lockCount := lockCount - 1;
      }
      return lockedData;
    }

    /** `Unlock`. */
    method Unlock() returns (ok: bool)
      modifies this
      ensures old(Valid()) ==> Valid()
      ensures (Locks(), ok) == UnlockStep(old(Locks()), hasVbo, hasData)
      ensures Stored() == old(Stored())
    {
      if lockedData == Null {
        return false;
      }
      lockCount := if lockCount == 0 then TwoTo32 - 1 else lockCount - 1;
      if lockCount != 0 {
        return true;
      }
      if hasData {
        if hasVbo && !lockReadOnly {
          updateVbo := true;
        }
      } else if hasVbo {
        var _ := BindAndUpdate();
      }
      lockedData := Null;
      lockReadOnly := false;
      return true;
    }

    /** `ForceUnlock` of the base class. */
    method ForceUnlock()
      modifies this
      ensures Locks() == ForceUnlocked(old(Locks()), hasVbo, hasData)
      ensures Consistent(Locks(), hasData)
      ensures Stored() == old(Stored())
    {
      if lockedData != Null {
        if hasData && hasVbo && !lockReadOnly {
          updateVbo := true;
        }
        lockedData := Null;
        lockReadOnly := false;
      }
      lockCount := 0;
    }

    /** The reset of the table to -1 (`MemoryManager::Set`). */
    method ResetOffsets()
      requires Valid()
      modifies offsets
      ensures OffsetsFrom([])
    {
      for s := 0 to numOfSemantics
        invariant forall s', c | 0 <= s' < s && 0 <= c < maxPipelineChannels :: offsets[s', c] == -1
      {
        for c := 0 to maxPipelineChannels
          invariant forall s', c' | 0 <= s' < s && 0 <= c' < maxPipelineChannels :: offsets[s', c'] == -1
          invariant forall c' | 0 <= c' < c :: offsets[s, c'] == -1
        {
          offsets[s, c] := -1;
        }
      }
    }

    /** The reset and refill of the table from the vertex declaration. */
    method SetupOffsets()
      requires Valid()
      modifies offsets
      ensures OffsetsFrom(attributes)
    {
      ResetOffsets();
      for i := 0 to |attributes|
        invariant OffsetsFrom(attributes[..i])
      {
        var a := attributes[i];
        assert a in attributes;
        assert attributes[..i + 1][..i] == attributes[..i];
        offsets[a.semantic, a.channel] := a.offset;
      }
      assert attributes[..|attributes|] == attributes;
    }

    /** `Clear`: fails when nothing is allocated; otherwise releases the lock
        and both stores and resets the size, the usage, the upload flag and
        the table. */
    method Clear() returns (ok: bool)
      requires Valid()
      modifies this, offsets
      ensures Valid()
      ensures ok <==> old(IsAllocated())
      ensures !ok ==> Stored() == old(Stored()) && Locks() == old(Locks()) && unchanged(offsets)
      ensures ok ==> Stored() == Storage(false, false, 0, 0, UsageUnknown, 0, old(managed))
      ensures ok ==> lockCount == 0 && lockedData == Null && !updateVbo && OffsetsFrom([])
      ensures ok ==> (lockReadOnly <==> old(lockedData) == Null && old(lockReadOnly))
    {
      if !IsAllocated() {
        return false;
      }
      ForceUnlock();
      hasVbo := false;
      hasData := false;
      elements, size, usage, usageApi := 0, 0, UsageUnknown, 0;
      updateVbo := false;
      ResetOffsets();
      return true;
    }

    /** The reallocation `Allocate` performs when the size, the usage or the
        management changes: fails for a zero size, an unknown usage or a VBO
        that GL does not size; otherwise drops the stores that no longer fit,
        releases the lock, takes the new size and usage, creates a VBO unless
        the buffer is a software one, and a client-side copy, marked for
        upload, when there is no VBO or the buffer is managed. */
    method Reallocate(nElements: nat, nUsage: Usage, bManaged: bool, glSized: bool) returns (ok: bool)
      requires Valid()
      modifies this
      ensures Valid()
      ensures SizeOf(vertexSize, nElements) == 0 ==>
        !ok && Stored() == old(Stored()) && Locks() == old(Locks())
      ensures SizeOf(vertexSize, nElements) != 0 && nUsage == UsageUnknown ==>
        !ok && Stored() == old(Stored()).(usageApi := 0) && Locks() == old(Locks())
      ensures var newSize := SizeOf(vertexSize, nElements);
        newSize != 0 && nUsage != UsageUnknown ==>
          && ok == (nUsage == Software || glSized)
          && elements == nElements && size == newSize && usage == nUsage && managed == bManaged
          && usageApi == UsageApi(nUsage)
          && hasVbo == (nUsage != Software && glSized)
          && lockCount == 0 && lockedData == Null
          && (lockReadOnly <==> old(lockedData) == Null && old(lockReadOnly))
          && (ok ==> updateVbo == (nUsage == Software || bManaged))
          && (!ok ==> (updateVbo <==>
                         (old(updateVbo) || (old(lockedData) != Null && hasData && old(hasVbo) && !old(lockReadOnly)))))
          && hasData == ((ok && (nUsage == Software || bManaged)) ||
                         (old(hasData) && old(size) == newSize && !(old(managed) && !bManaged)))
    {
      var newSize := SizeOf(vertexSize, nElements);
      if newSize == 0 {
        return false;
      }
      var known := SetUsageApi(nUsage);
      if !known {
        return false;
      }
      DropStores(newSize, nUsage == Software, bManaged);
      elements := nElements;
      size := newSize;
      usage := nUsage;
      managed := bManaged;
      ok := CreateStores(nUsage != Software, bManaged, glSized);
    }

    /** The GL usage hint for a usage; false, with the hint 0, for an unknown
        usage. */
    method SetUsageApi(nUsage: Usage) returns (known: bool)
      modifies this
      ensures known <==> nUsage != UsageUnknown
      ensures Stored() == old(Stored()).(usageApi := UsageApi(nUsage)) && Locks() == old(Locks())
    {
      if nUsage == Static {
        usageApi := GL_STATIC_DRAW;
      } else if nUsage == Dynamic {
        usageApi := GL_DYNAMIC_DRAW;
      } else if nUsage == WriteOnly {
        usageApi := GL_STREAM_DRAW;
      } else if nUsage != Software {
        usageApi := 0;
        return false;
      } else {
        usageApi := 0;
      }
      return true;
    }

    /** The first half of a reallocation: the client-side copy goes when the
        size changes or a managed buffer becomes unmanaged, the VBO goes when
        the buffer becomes a software one, and the lock is released. */
    method DropStores(newSize: nat, software: bool, bManaged: bool)
      modifies this
      ensures hasData == (old(hasData) && old(size) == newSize && !(old(managed) && !bManaged))
      ensures hasVbo == (old(hasVbo) && !software)
      ensures elements == old(elements) && size == old(size) && usage == old(usage)
      ensures usageApi == old(usageApi) && managed == old(managed)
      ensures Locks() == ForceUnlocked(old(Locks()), hasVbo, hasData) && Consistent(Locks(), hasData)
    {
      if hasData && (size != newSize || (managed && !bManaged)) {
        hasData := false;
      }
      if hasVbo && software {
        hasVbo := false;
      }
      ForceUnlock();
    }

    /** The second half of a reallocation: a VBO unless the buffer is a
        software one, dropped again when GL does not size it; then, when
        there is no VBO or the buffer is managed, a client-side copy marked
        for upload. */
    method CreateStores(vbo: bool, bManaged: bool, glSized: bool) returns (ok: bool)
      requires lockCount == 0 && lockedData == Null
      modifies this
      ensures ok <==> !vbo || glSized
      ensures hasVbo == (vbo && glSized) || (!vbo && old(hasVbo))
      ensures ok ==> hasData == (old(hasData) || !vbo || bManaged)
      ensures ok ==> updateVbo == (!vbo || bManaged)
      ensures !ok ==> hasData == old(hasData) && updateVbo == old(updateVbo)
      ensures elements == old(elements) && size == old(size) && usage == old(usage)
      ensures usageApi == old(usageApi) && managed == old(managed)
      ensures lockCount == 0 && lockedData == Null && lockReadOnly == old(lockReadOnly)
    {
      if vbo {
        hasVbo := true;
        if !glSized {
          hasVbo := false;
          return false;
        }
      }
      if !vbo || bManaged {
        hasData := true;
        updateVbo := true;
      } else {
        updateVbo := false;
      }
      return true;
    }

    /** `Allocate(nElements, nUsage, bManaged)`. `glSized` is whether GL
        reports a positive size for a newly specified VBO. Nothing is
        reallocated when the size, the usage and the management are as
        requested; the table is refilled whenever the call succeeds. */
    method Allocate(nElements: nat, nUsage: Usage, bManaged: bool, glSized: bool) returns (ok: bool)
      requires Valid()
      modifies this, offsets
      ensures Valid()
      ensures old(size) == SizeOf(vertexSize, nElements) && old(usage) == nUsage && old(managed) == bManaged ==>
        ok && Stored() == old(Stored()) && Locks() == old(Locks())
      ensures SizeOf(vertexSize, nElements) == 0 && (old(size) != 0 || old(usage) != nUsage || old(managed) != bManaged) ==>
        !ok && Stored() == old(Stored()) && Locks() == old(Locks())
      ensures SizeOf(vertexSize, nElements) != 0 && nUsage == UsageUnknown &&
              (old(size) != SizeOf(vertexSize, nElements) || old(usage) != nUsage || old(managed) != bManaged) ==>
        !ok && Stored() == old(Stored()).(usageApi := 0) && Locks() == old(Locks())
      ensures var newSize := SizeOf(vertexSize, nElements);
        newSize != 0 && nUsage != UsageUnknown && (old(size) != newSize || old(usage) != nUsage || old(managed) != bManaged) ==>
          && ok == (nUsage == Software || glSized)
          && elements == nElements && size == newSize && usage == nUsage && managed == bManaged
          && usageApi == UsageApi(nUsage)
          && hasVbo == (nUsage != Software && glSized)
          && lockCount == 0 && lockedData == Null
          && (lockReadOnly <==> old(lockedData) == Null && old(lockReadOnly))
          && (ok ==> updateVbo == (nUsage == Software || bManaged))
          && (!ok ==> (updateVbo <==>
                         (old(updateVbo) || (old(lockedData) != Null && hasData && old(hasVbo) && !old(lockReadOnly)))))
          && hasData == ((ok && (nUsage == Software || bManaged)) ||
                         (old(hasData) && old(size) == newSize && !(old(managed) && !bManaged)))
      ensures ok ==> OffsetsFrom(attributes)
      ensures !ok ==> unchanged(offsets)
    {
      if size != SizeOf(vertexSize, nElements) || usage != nUsage || managed != bManaged {
        ok := Reallocate(nElements, nUsage, bManaged, glSized);
        if !ok {
          return false;
        }
      }
      SetupOffsets();
      return true;
    }
  }
}
