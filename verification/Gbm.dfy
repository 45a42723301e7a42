/** GBM buffer objects and surfaces over the kernel table. */
module Gbm {
  import opened Words
  import opened DrmTable
  import Kernel
  import Pitch

  /** The outcome of the two allocations of one alloc_bo: the record, and the kernel's memory. */
  datatype Allocation = Allocation(record: bool, memory: bool)

  class GbmBo {
    const width: uint32
    const height: uint32
    const stride: uint32
    const gemHandle: uint32
    const size: uint64
    const mapOffset: uint64

    constructor (width: uint32, height: uint32, stride: uint32, gemHandle: uint32, size: uint64, mapOffset: uint64)
      ensures this.width == width && this.height == height && this.stride == stride
      ensures this.gemHandle == gemHandle && this.size == size && this.mapOffset == mapOffset
    {
      this.width, this.height, this.stride := width, height, stride;
      this.gemHandle, this.size, this.mapOffset := gemHandle, size, mapOffset;
    }
  }

  /** The table after a successful alloc_bo. */
  ghost function AfterAlloc(s: Drm, w: uint32, h: uint32): Drm {
    s.(bufs := s.bufs[LowestFree(s.bufs) := NewBuffer(w, h, 32)])
  }

  ghost predicate CanAlloc(s: Drm, a: Allocation) {
    a.record && a.memory && LowestFree(s.bufs) != 0
  }

  ghost predicate FreeHandle(s: Drm, h: uint32) { 1 <= h <= 256 && h !in s.bufs }

  /** One allocation needs one free handle, and two need two. */
  lemma CanAllocExactly(s: Drm, w: uint32, h: uint32, a: Allocation, b: Allocation)
    ensures CanAlloc(s, a) <==> a.record && a.memory && exists k :: FreeHandle(s, k)
    ensures CanAlloc(s, a) && CanAlloc(AfterAlloc(s, w, h), b) <==>
              && a.record && a.memory && b.record && b.memory
              && exists j, k :: FreeHandle(s, j) && FreeHandle(s, k) && j != k
  {
    hide LowestFree, NewBuffer;
    var t := AfterAlloc(s, w, h);
    LowestFreeIs(s.bufs);
    LowestFreeIs(t.bufs);
    var l, m := LowestFree(s.bufs), LowestFree(t.bufs);
    if l != 0 {
      assert FreeHandle(s, l);
      assert forall k :: FreeHandle(s, k) && k != l ==> k !in t.bufs;
      if m != 0 { assert FreeHandle(s, m) && m != l; }
    }
  }

  /** The client's record agrees with the kernel's buffer. */
  ghost predicate Describes(bo: GbmBo, s: Drm) {
    && bo.gemHandle in s.bufs
    && var b := s.bufs[bo.gemHandle];
       && bo.width == b.width && bo.height == b.height
       && bo.stride == b.pitch == Pitch.GbmPitch(bo.width)
       && bo.size == |b.bytes|
       && MappedAt(bo.mapOffset) == Map(s, bo.gemHandle)
  }

  /** What alloc_bo makes of the two replies. */
  lemma AllocReplies(s: Drm, w: uint32, h: uint32, memory: bool)
    ensures var (t, r) := Create(s, w, h, 32, memory);
            if memory && LowestFree(s.bufs) != 0 then
              && t == AfterAlloc(s, w, h)
              && r.Created? && r.handle == LowestFree(s.bufs) && r.handle in t.bufs
              && r.pitch == Pitch.GbmPitch(w) == t.bufs[r.handle].pitch
              && r.size == |t.bufs[r.handle].bytes|
              && t.bufs[r.handle].width == w && t.bufs[r.handle].height == h
              && Map(t, r.handle).MappedAt?
            else t == s && r.Failed?
  {
    hide Pitch.GbmPitch, Pitch.KernelPitch, LowestFree, ShiftLeft64;
    Pitch.PitchesAgree(w, 32);
  }

  /** alloc_bo: CREATE_DUMB at 32 bits a pixel, then MAP_DUMB; a failure leaves the kernel as it was. */
  method AllocBo(dev: Kernel.IODRMShimArm64, w: uint32, h: uint32, a: Allocation) returns (bo: GbmBo?)
    requires dev.Valid()
    modifies dev, dev.fBOs
    ensures dev.Valid() && old(dev.descriptors) <= dev.descriptors && fresh(dev.descriptors - old(dev.descriptors))
    ensures fresh(dev.pages - old(dev.pages))
    ensures bo != null <==> CanAlloc(old(dev.Abs()), a)
    ensures bo != null <==> a.record && a.memory && old(exists k :: FreeHandle(dev.Abs(), k))
    ensures bo == null ==> dev.Abs() == old(dev.Abs())
    ensures bo != null ==>
              && fresh(bo) && Describes(bo, dev.Abs())
              && dev.Abs() == AfterAlloc(old(dev.Abs()), w, h)
              && bo.gemHandle == LowestFree(old(dev.Abs()).bufs)
  {
    hide Pitch.GbmPitch, Pitch.KernelPitch, LowestFree, ShiftLeft64, Create, Map, NewBuffer, dev.Table, dev.Consistent;
    CanAllocExactly(dev.Abs(), w, h, a, a);
    if !a.record { return null; }
    AllocReplies(dev.Abs(), w, h, a.memory);
    var created := dev.CreateDumb(w, h, 32, a.memory);
    if created.Failed? { return null; }
    var mapped := dev.MapDumb(created.handle);
    var offset := if mapped.MappedAt? then mapped.offset else 0;
    bo := new GbmBo(w, h, created.pitch, created.handle, created.size, offset);
  }

  /** gbm_bo_destroy: DESTROY_DUMB and then GEM_CLOSE of the same handle. */
  method BoDestroy(dev: Kernel.IODRMShimArm64, bo: GbmBo)
    requires dev.Valid()
    modifies dev`fLockHeld, dev.fBOs, dev.descriptors
    ensures dev.Valid() && dev.Abs() == Close(old(dev.Abs()), bo.gemHandle)
  {
    hide dev.Consistent, dev.Table;
    var first := dev.DestroyDumb(bo.gemHandle);
    var second := dev.GemClose(bo.gemHandle);
    CloseTwice(old(dev.Abs()), bo.gemHandle);
  }

  lemma CloseTwice(s: Drm, h: uint32)
    ensures Close(Close(s, h), h) == Close(s, h)
  {
    assert s.bufs - {h} - {h} == s.bufs - {h};
  }

  lemma CloseUndoesAlloc(s: Drm, w: uint32, h: uint32)
    requires LowestFree(s.bufs) != 0
    ensures Close(AfterAlloc(s, w, h), LowestFree(s.bufs)) == s
  {
    hide NewBuffer;
    assert AfterAlloc(s, w, h).bufs - {LowestFree(s.bufs)} == s.bufs;
  }

  /** Creating and then destroying a surface restores the table; in between exactly two new handles are live. */
  lemma SurfaceRoundTrip(s: Drm, w: uint32, h: uint32)
    requires LowestFree(s.bufs) != 0 && LowestFree(AfterAlloc(s, w, h).bufs) != 0
    ensures var t := AfterAlloc(AfterAlloc(s, w, h), w, h);
            var h0, h1 := LowestFree(s.bufs), LowestFree(AfterAlloc(s, w, h).bufs);
            && h0 < h1 && h0 !in s.bufs && h1 !in s.bufs
            && t.bufs.Keys == s.bufs.Keys + {h0, h1}
            && Close(Close(t, h0), h1) == s
  {
    hide NewBuffer, LowestFree;
    LowestFreeIs(s.bufs);
    LowestFreeIs(AfterAlloc(s, w, h).bufs);
    var t := AfterAlloc(AfterAlloc(s, w, h), w, h);
    assert Close(Close(t, LowestFree(s.bufs)), LowestFree(AfterAlloc(s, w, h).bufs)).bufs == s.bufs;
  }

  class GbmSurface {
    const bos: array<GbmBo?>
    var nbo: int
    var front: int
    var locked: bool

    ghost predicate Valid()
      reads this, bos
    {
      && bos.Length == 2 && nbo == 2 && -1 <= front <= 1
      && bos[0] != null && bos[1] != null && bos[0].gemHandle != bos[1].gemHandle
    }

    /** The surface owns two buffers of the table, and its records describe them. */
    ghost predicate Owns(s: Drm)
      reads this, bos
    {
      Valid() && Describes(bos[0], s) && Describes(bos[1], s)
    }

    constructor ()
      ensures fresh(bos) && bos.Length == 2 && bos[0] == bos[1] == null
      ensures nbo == 0 && front == -1 && !locked
    {
      bos := new GbmBo?[2](_ => null);
      nbo, front, locked := 0, -1, false;
    }

    /** gbm_surface_lock_front_buffer: hand out the buffer that is not in front, and make it the front. */
    method LockFrontBuffer() returns (bo: GbmBo?)
      requires Valid()
      modifies this`front, this`locked
      ensures Valid() && locked && front == BackIndex(old(front))
      ensures bo == bos[front] && bo != null && (old(front) != -1 ==> bo != bos[old(front)])
    {
      var back := if front == -1 then 0 else 1 - front;
      front := back;
      locked := true;
      bo := bos[back];
    }

    method ReleaseBuffer(bo: GbmBo)
      requires Valid()
      modifies this`locked
      ensures Valid() && !locked
    {
      locked := false;
    }

    method HasFreeBuffers() returns (free: bool)
      requires Valid()
      ensures free <==> !locked
    {
      free := !locked;
    }
  }

  /** The buffer a lock hands out, from the index of the one in front (-1 before the first lock). */
  function BackIndex(front: int): int { if front == -1 then 0 else 1 - front }

  lemma StillDescribes(bo: GbmBo, s: Drm, w: uint32, h: uint32)
    requires Describes(bo, s) && LowestFree(s.bufs) != 0
    ensures Describes(bo, AfterAlloc(s, w, h)) && bo.gemHandle != LowestFree(s.bufs)
  {
    hide Pitch.GbmPitch, NewBuffer, LowestFree;
    LowestFreeIs(s.bufs);
  }

  /**
   * gbm_surface_create: two allocations; when the second fails the first is undone, so that a
   * failure leaves the whole kernel table, bytes included, as it was.
   */
  method SurfaceCreate(dev: Kernel.IODRMShimArm64, w: uint32, h: uint32, allocs: seq<Allocation>)
    returns (s: GbmSurface?)
    requires dev.Valid() && |allocs| == 2
    modifies dev, dev.fBOs, dev.descriptors
    ensures dev.Valid() && old(dev.descriptors) <= dev.descriptors && fresh(dev.descriptors - old(dev.descriptors))
    ensures s != null <==>
              && allocs[0].record && allocs[0].memory && allocs[1].record && allocs[1].memory
              && old(exists j, k :: FreeHandle(dev.Abs(), j) && FreeHandle(dev.Abs(), k) && j != k)
    ensures s == null ==> dev.Abs() == old(dev.Abs())
    ensures s != null ==>
              && fresh(s) && fresh(s.bos) && s.Owns(dev.Abs()) && s.front == -1 && !s.locked
              && dev.Abs() == AfterAlloc(AfterAlloc(old(dev.Abs()), w, h), w, h)
              && s.bos[0].gemHandle == LowestFree(old(dev.Abs()).bufs)
              && s.bos[1].gemHandle == LowestFree(AfterAlloc(old(dev.Abs()), w, h).bufs)
  {
    hide LowestFree, NewBuffer, Map, dev.Table, dev.Consistent, Pitch.GbmPitch;
    ghost var start := dev.Abs();
    CanAllocExactly(start, w, h, allocs[0], allocs[1]);
    var surface := new GbmSurface();
    var i := 0;
    while i < 2
      invariant 0 <= i <= 2 && surface.nbo == i && surface.front == -1 && !surface.locked
      invariant surface.bos.Length == 2 && fresh(surface) && fresh(surface.bos)
      invariant dev.Valid() && old(dev.descriptors) <= dev.descriptors && fresh(dev.descriptors - old(dev.descriptors))
      invariant dev.Abs() == if i == 0 then start
                             else if i == 1 then AfterAlloc(start, w, h)
                             else AfterAlloc(AfterAlloc(start, w, h), w, h)
      invariant i >= 1 ==>
                  && CanAlloc(start, allocs[0])
                  && surface.bos[0] != null && Describes(surface.bos[0], dev.Abs())
                  && surface.bos[0].gemHandle == LowestFree(start.bufs)
      invariant i == 2 ==>
                  && CanAlloc(AfterAlloc(start, w, h), allocs[1]) && surface.Owns(dev.Abs())
                  && surface.bos[1].gemHandle == LowestFree(AfterAlloc(start, w, h).bufs)
    {
      var bo := AllocBo(dev, w, h, allocs[i]);
      surface.bos[i] := bo;
      if bo == null {
        ghost var first := surface.bos[0];
        var j := 0;
        while j < i
          invariant 0 <= j <= i && dev.Valid()
          invariant surface.bos[0] == first
          invariant old(dev.descriptors) <= dev.descriptors && fresh(dev.descriptors - old(dev.descriptors))
          invariant dev.Abs() == if j < i then AfterAlloc(start, w, h) else start
        {
          BoDestroy(dev, surface.bos[j]);
          CloseUndoesAlloc(start, w, h);
          j := j + 1;
        }
        return null;
      }
      if i == 1 { StillDescribes(surface.bos[0], AfterAlloc(start, w, h), w, h); }
      surface.nbo := surface.nbo + 1;
      i := i + 1;
    }
    s := surface;
  }

  /** gbm_surface_destroy: exactly the two handles of the surface leave the table. */
  method SurfaceDestroy(dev: Kernel.IODRMShimArm64, s: GbmSurface)
    requires dev.Valid() && s.Valid()
    modifies dev`fLockHeld, dev.fBOs, dev.descriptors
    ensures dev.Valid()
    ensures dev.Abs() == Close(Close(old(dev.Abs()), old(s.bos[0]).gemHandle), old(s.bos[1]).gemHandle)
  {
    hide dev.Consistent, dev.Table;
    ghost var start := dev.Abs();
    var i := 0;
    while i < s.nbo
      invariant 0 <= i <= 2 && dev.Valid() && s.Valid()
      invariant s.bos[0] == old(s.bos[0]) && s.bos[1] == old(s.bos[1])
      invariant dev.Abs() == if i == 0 then start
                             else if i == 1 then Close(start, s.bos[0].gemHandle)
                             else Close(Close(start, s.bos[0].gemHandle), s.bos[1].gemHandle)
    {
      if s.bos[i] != null { BoDestroy(dev, s.bos[i]); }
      i := i + 1;
    }
  }
}
