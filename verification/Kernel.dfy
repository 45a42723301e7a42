/** The kernel extension: a 256-slot array of buffer records under one lock, refining DrmTable. */
module Kernel {
  import opened Words
  import opened DrmTable
  import Blit
  import Pitch

  /** An IOBufferMemoryDescriptor: its bytes, and how often it was completed and released. */
  class MemoryDescriptor {
    const bytes: array<uint8>
    var completed: nat
    var released: nat
    ghost var slot: nat

    constructor (size: nat, ghost slot: nat)
      ensures fresh(bytes) && bytes.Length == size
      ensures completed == 0 && released == 0 && this.slot == slot
    {
      bytes := new uint8[size];
      completed, released := 0, 0;
      this.slot := slot;
    }
  }

  /** One record of the table. The C array holds the structs themselves, so a slot is a value here. */
  datatype DumbBO = DumbBO(handle: uint32, width: uint32, height: uint32, pitch: uint32, bpp: uint32,
                           size: uint64, mem: MemoryDescriptor?, inUse: bool)

  method Bzero(page: array<uint8>)
    modifies page
    ensures page[..] == seq(page.Length, _ => 0)
  {
    forall k | 0 <= k < page.Length { page[k] := 0; }
  }

  const NO_BO := DumbBO(0, 0, 0, 0, 0, 0, null, false)

  class IODRMShimArm64 {
    const fBOs: array<DumbBO>
    const hasFramebuffer: bool
    var fCurrentFbId: uint32
    var fLockHeld: bool
    var published: bool  // gShim points here
    ghost var descriptors: set<MemoryDescriptor>  // every descriptor ever allocated
    ghost var pages: set<array<uint8>>  // and their bytes

    /** A slot is in use exactly when it holds a descriptor, and then its record is coherent. */
    ghost predicate SlotOk(i: nat, bo: DumbBO)
      reads this`descriptors, bo.mem
    {
      && (bo.inUse <==> bo.mem != null)
      && (bo.mem != null ==>
            && bo.handle == i + 1
            && bo.bpp != 0 && bo.pitch == Pitch.KernelPitch(bo.width, bo.bpp)
            && bo.size == bo.pitch * bo.height
            && bo.mem in descriptors && bo.mem.slot == i
            && bo.mem.completed == 0 && bo.mem.released == 0
            && bo.mem.bytes.Length == bo.size)
    }

    /** A descriptor is untouched while its slot holds it, and afterwards completed and released once. */
    ghost predicate DescriptorOk(d: MemoryDescriptor)
      reads fBOs, d
    {
      || (d.completed == 0 && d.released == 0 && d.slot < fBOs.Length && fBOs[d.slot].mem == d)
      || (d.completed == 1 && d.released == 1)
    }

    /** What holds whoever has the lock. */
    ghost predicate Consistent()
      reads this`descriptors, this`pages, fBOs, descriptors
    {
      && fBOs.Length == MAX_DUMB_BOS
      && (forall i: nat :: i < fBOs.Length ==> (fBOs[i].mem != null ==> fBOs[i].mem in descriptors) && SlotOk(i, fBOs[i]))
      && (forall d :: d in descriptors ==> d.bytes in pages && DescriptorOk(d))
      && (forall d, e :: d in descriptors && e in descriptors && d.bytes == e.bytes ==> d == e)
    }

    /** What holds between ioctls. */
    ghost predicate Valid()
      reads this, fBOs, descriptors
    {
      Consistent() && !fLockHeld && published
    }

    ghost predicate Live(h: uint32)
      requires fBOs.Length == MAX_DUMB_BOS
      reads fBOs
    {
      1 <= h <= MAX_DUMB_BOS && fBOs[h - 1].inUse
    }

    /** The buffer that handle h stands for. */
    ghost function BufferOf(h: uint32): Buffer
      requires fBOs.Length == MAX_DUMB_BOS && Live(h) && fBOs[h - 1].mem != null
      reads fBOs, fBOs[h - 1].mem, fBOs[h - 1].mem.bytes
    {
      var bo := fBOs[h - 1];
      Buffer(bo.width, bo.height, bo.bpp, bo.pitch, bo.mem.bytes[..])
    }

    ghost function Table(): map<uint32, Buffer>
      requires Consistent()
      reads this`descriptors, this`pages, fBOs, descriptors, pages
    {
      map h: uint32 | 1 <= h <= MAX_DUMB_BOS && Live(h) :: assert SlotOk(h - 1, fBOs[h - 1]); BufferOf(h)
    }

    ghost function Abs(): Drm
      requires Consistent()
      reads this, fBOs, descriptors, pages
    {
      Drm(Table(), fCurrentFbId)
    }

    constructor (hasFramebuffer: bool)
      ensures Valid() && fresh(fBOs) && descriptors == {} && pages == {}
      ensures Abs() == EMPTY_TABLE && this.hasFramebuffer == hasFramebuffer
    {
      fBOs := new DumbBO[MAX_DUMB_BOS](_ => NO_BO);
      this.hasFramebuffer := hasFramebuffer;
      fCurrentFbId, fLockHeld, published := 0, false, true;
      descriptors, pages := {}, {};
    }

    method LockLock()
      requires !fLockHeld && Consistent()
      modifies this`fLockHeld
      ensures fLockHeld && Consistent() && Table() == old(Table())
    {
      fLockHeld := true;
    }

    method LockUnlock()
      requires fLockHeld && Consistent()
      modifies this`fLockHeld
      ensures !fLockHeld && Consistent() && Table() == old(Table())
    {
      fLockHeld := false;
    }

    /** findBO: the slot of a live handle, or -1 for nullptr. */
    function FindBO(handle: uint32): (slot: int)
      requires fBOs.Length == MAX_DUMB_BOS
      reads fBOs
      ensures slot == -1 <==> !Live(handle)
      ensures slot != -1 ==> slot == handle - 1
    {
      if handle == 0 || handle > MAX_DUMB_BOS then -1
      else if fBOs[handle - 1].inUse then handle - 1 else -1
    }

    /** allocHandle: scan for the first free slot. */
    method AllocHandle() returns (handle: uint32)
      requires fBOs.Length == MAX_DUMB_BOS
      ensures handle == 0 ==> forall h: uint32 :: 1 <= h <= MAX_DUMB_BOS ==> Live(h)
      ensures handle != 0 ==> handle <= MAX_DUMB_BOS && !Live(handle) && forall h: uint32 :: 1 <= h < handle ==> Live(h)
    {
      var i := 0;
      while i < MAX_DUMB_BOS
        invariant 0 <= i <= MAX_DUMB_BOS
        invariant forall h: uint32 :: 1 <= h <= i ==> Live(h)
      {
        if !fBOs[i].inUse { return i + 1; }
        i := i + 1;
      }
      handle := 0;
    }

    lemma AllocatedIsLowest(handle: uint32)
      requires Consistent()
      requires handle == 0 ==> forall h: uint32 :: 1 <= h <= MAX_DUMB_BOS ==> Live(h)
      requires handle != 0 ==> handle <= MAX_DUMB_BOS && !Live(handle) && forall h: uint32 :: 1 <= h < handle ==> Live(h)
      ensures handle == LowestFree(Table())
    {
      var l := LowestFree(Table());
      if handle != 0 { assert handle !in Table(); }
      if l != 0 { assert l !in Table(); }
    }

    /** A step that changes no slot but h's, and no page of another slot, changes no entry but h's. */
    twostate lemma OnlySlotChanged(h: uint32)
      requires old(Consistent()) && Consistent() && 1 <= h <= MAX_DUMB_BOS
      requires forall i: nat :: i < MAX_DUMB_BOS && i != h - 1 ==>
                 fBOs[i] == old(fBOs[i]) &&
                 (fBOs[i].mem != null ==> fBOs[i].mem.bytes[..] == old(fBOs[i].mem.bytes[..]))
      ensures Live(h) ==> Table() == old(Table())[h := BufferOf(h)]
      ensures !Live(h) ==> Table() == old(Table()) - {h}
    {
      hide Table;
      LiveIffListed(h);
      forall k: uint32 | k != h
        ensures k in Table() <==> k in old(Table())
        ensures k in Table() ==> Table()[k] == old(Table())[k]
      {
        EntryUnchanged(k);
      }
    }

    twostate lemma EntryUnchanged(k: uint32)
      requires old(Consistent()) && Consistent()
      requires 1 <= k <= MAX_DUMB_BOS ==>
                 var bo := fBOs[k - 1];
                 bo == old(fBOs[k - 1]) && (bo.mem != null ==> bo.mem.bytes[..] == old(bo.mem.bytes[..]))
      ensures k in Table() <==> k in old(Table())
      ensures k in Table() ==> Table()[k] == old(Table())[k]
    {
      hide Pitch.KernelPitch;
      if 1 <= k <= MAX_DUMB_BOS {
        assert SlotOk(k - 1, fBOs[k - 1]);
        assert old(SlotOk(k - 1, fBOs[k - 1]));
      }
    }

    lemma LiveIffListed(h: uint32)
      requires Consistent()
      ensures h in Table() <==> Live(h)
      ensures Live(h) ==> fBOs[h - 1].mem != null && Table()[h] == BufferOf(h)
      ensures !Live(h) ==> Table() - {h} == Table()
    {
    }

    /** inTaskWithPhysicalMask, getBytesNoCopy and bzero: give the record at slot i zeroed memory, or none. */
    method AllocateInto(i: nat, memory: bool)
      requires i < fBOs.Length
      modifies this`descriptors, this`pages, fBOs
      ensures fBOs[..] == old(fBOs[..])[i := old(fBOs[i]).(mem := fBOs[i].mem)]
      ensures fBOs[i].mem != null <==> memory
      ensures memory ==>
                var d := fBOs[i].mem;
                && fresh(d) && fresh(d.bytes)
                && descriptors == old(descriptors) + {d} && pages == old(pages) + {d.bytes}
                && d.completed == 0 && d.released == 0 && d.slot == i
                && d.bytes[..] == seq(fBOs[i].size, _ => 0)
      ensures !memory ==> descriptors == old(descriptors) && pages == old(pages)
    {
      if memory {
        var mem := new MemoryDescriptor(fBOs[i].size, i);
        descriptors, pages := descriptors + {mem}, pages + {mem.bytes};
        Bzero(mem.bytes);
        fBOs[i] := fBOs[i].(mem := mem);
      } else {
        fBOs[i] := fBOs[i].(mem := null);
      }
    }

    /** Writing one coherent record into a free slot, with a new descriptor or none, keeps the table coherent. */
    twostate lemma SlotFilled(i: nat)
      requires old(Consistent()) && i < MAX_DUMB_BOS && old(fBOs[i]).mem == null
      requires fBOs[..] == old(fBOs[..])[i := fBOs[i]]
      requires SlotOk(i, fBOs[i])
      requires forall d :: d in old(descriptors) ==> unchanged(d)
      requires fBOs[i].mem == null ==> descriptors == old(descriptors) && pages == old(pages)
      requires fBOs[i].mem != null ==>
                 && descriptors == old(descriptors) + {fBOs[i].mem} && pages == old(pages) + {fBOs[i].mem.bytes}
                 && fresh(fBOs[i].mem) && fresh(fBOs[i].mem.bytes)
      ensures Consistent()
    {
      hide Pitch.KernelPitch;
      forall j: nat | j < MAX_DUMB_BOS && j != i
        ensures fBOs[j] == old(fBOs[j]) && (fBOs[j].mem != null ==> fBOs[j].mem in descriptors) && SlotOk(j, fBOs[j])
      {
        assert old(SlotOk(j, fBOs[j]));
      }
      forall d | d in old(descriptors)
        ensures d.bytes in pages && DescriptorOk(d)
      {
        assert old(DescriptorOk(d));
      }
    }

    /** The record of CREATE_DUMB, written into the free slot i. */
    method FillSlot(i: nat, width: uint32, height: uint32, bpp: uint32, memory: bool)
      requires Consistent() && i < MAX_DUMB_BOS && !fBOs[i].inUse
      modifies this`descriptors, this`pages, fBOs
      ensures Consistent() && old(descriptors) <= descriptors && fresh(descriptors - old(descriptors))
      ensures fresh(pages - old(pages))
      ensures |descriptors| == old(|descriptors|) + if memory then 1 else 0
      ensures fBOs[i].inUse <==> memory
      ensures fBOs[i].pitch == NewBuffer(width, height, bpp).pitch
      ensures fBOs[i].size == BufferSize(fBOs[i].pitch, height)
      ensures Table() == if memory then old(Table())[i + 1 := NewBuffer(width, height, bpp)] else old(Table())
    {
      hide Pitch.KernelPitch, Table;
      assert SlotOk(i, fBOs[i]);
      LiveIffListed(i + 1);
      var bits := if bpp != 0 then bpp else 32;
      var pitch := Pitch.KernelPitch(width, bits);
      fBOs[i] := DumbBO(i + 1, width, height, pitch, bits, BufferSize(pitch, height), null, true);
      AllocateInto(i, memory);
      if fBOs[i].mem == null {
        fBOs[i] := fBOs[i].(inUse := false);
      }
      SlotFilled(i);
      OnlySlotChanged(i + 1);
      Pitch.DefaultBpp(width, bpp);
    }

    method CreateDumb(width: uint32, height: uint32, bpp: uint32, memory: bool) returns (r: Reply)
      requires Valid()
      modifies this, fBOs
      ensures Valid() && old(descriptors) <= descriptors && fresh(descriptors - old(descriptors))
      ensures fresh(pages - old(pages))
      ensures |descriptors| == old(|descriptors|) + if r.Created? then 1 else 0
      ensures (Abs(), r) == Create(old(Abs()), width, height, bpp, memory)
    {
      hide Pitch.KernelPitch, LowestFree, Table, SlotOk, DescriptorOk;
      LockLock();
      var handle := AllocHandle();
      AllocatedIsLowest(handle);
      if handle == 0 {
        LockUnlock();
        return Failed(ENOMEM);
      }
      FillSlot(handle - 1, width, height, bpp, memory);
      LockUnlock();
      if !fBOs[handle - 1].inUse {
        return Failed(ENOMEM);
      }
      var bo := fBOs[handle - 1];
      r := Created(handle, bo.pitch, bo.size);
    }

    method MapDumb(handle: uint32) returns (r: Reply)
      requires Valid()
      modifies this`fLockHeld
      ensures Valid() && Abs() == old(Abs())
      ensures r == Map(old(Abs()), handle)
    {
      hide ShiftLeft64, Pitch.KernelPitch, Table, SlotOk, DescriptorOk;
      LiveIffListed(handle);
      LockLock();
      var slot := FindBO(handle);
      if slot < 0 {
        LockUnlock();
        return Failed(EINVAL);
      }
      r := MappedAt(ShiftLeft64(handle, 22));
      LockUnlock();
    }

    /** Complete and release the descriptor of slot i, and free the slot. */
    method ReleaseSlot(i: nat, ghost handle: uint32)
      requires Consistent() && i < MAX_DUMB_BOS && fBOs[i].inUse && handle == i + 1
      modifies fBOs, descriptors
      ensures Consistent() && Table() == old(Table()) - {handle}
    {
      hide Pitch.KernelPitch, Table;
      assert SlotOk(i, fBOs[i]);
      var mem := fBOs[i].mem;
      if mem != null {
        mem.completed := mem.completed + 1;
        mem.released := mem.released + 1;
        fBOs[i] := fBOs[i].(mem := null);
      }
      fBOs[i] := fBOs[i].(inUse := false);
      SlotReleased(i);
      OnlySlotChanged(handle);
    }

    twostate lemma SlotReleased(i: nat)
      requires old(Consistent()) && i < MAX_DUMB_BOS
      requires descriptors == old(descriptors) && pages == old(pages)
      requires fBOs[..] == old(fBOs[..])[i := fBOs[i]] && !fBOs[i].inUse && fBOs[i].mem == null
      requires forall d :: d in descriptors ==>
                 if d == old(fBOs[i]).mem then d.completed == 1 && d.released == 1
                 else d.completed == old(d.completed) && d.released == old(d.released)
      requires forall d :: d in descriptors ==> d.slot == old(d.slot)
      ensures Consistent()
    {
      hide Pitch.KernelPitch;
      forall j: nat | j < MAX_DUMB_BOS && j != i
        ensures fBOs[j] == old(fBOs[j]) && (fBOs[j].mem != null ==> fBOs[j].mem in descriptors) && SlotOk(j, fBOs[j])
      {
        assert old(SlotOk(j, fBOs[j])) && old(SlotOk(i, fBOs[i]));
      }
      forall d | d in descriptors
        ensures d.bytes in pages && DescriptorOk(d)
      {
        assert old(DescriptorOk(d));
      }
    }

    method GemClose(handle: uint32) returns (r: Reply)
      requires Valid()
      modifies this`fLockHeld, fBOs, descriptors
      ensures Valid() && Abs() == Close(old(Abs()), handle) && r == Done
    {
      hide Pitch.KernelPitch, Table, SlotOk, DescriptorOk;
      LockLock();
      var slot := FindBO(handle);
      LiveIffListed(handle);
      if slot >= 0 {
        ReleaseSlot(slot, handle);
      }
      LockUnlock();
      r := Done;
    }

    method DestroyDumb(handle: uint32) returns (r: Reply)
      requires Valid()
      modifies this`fLockHeld, fBOs, descriptors
      ensures Valid() && Abs() == Close(old(Abs()), handle) && r == Done
    {
      r := GemClose(handle);
    }

    method AddFb(handle: uint32) returns (r: Reply)
      requires Valid()
      ensures r == Framebuffer(handle)
    {
      r := Framebuffer(handle);
    }

    method GetCrtc() returns (r: Reply)
      requires Valid()
      ensures r == Framebuffer(Abs().current)
    {
      r := Framebuffer(fCurrentFbId);
    }

    /** Whether the copy to the display succeeds: without a framebuffer there is nothing to copy. */
    predicate CanShow(screen: Blit.Surface?) { !hasFramebuffer || screen != null }

    /** blitToDisplay of the buffer in slot i; `screen` is what the display pipeline returned, if anything. */
    method BlitToDisplay(i: nat, screen: Blit.Surface?) returns (ok: bool)
      requires Consistent() && i < MAX_DUMB_BOS && fBOs[i].inUse
      requires screen != null ==> screen.Valid() && screen.base !in pages
      modifies if screen != null then {screen.base} else {}
      ensures ok == CanShow(screen) && Consistent() && Table() == old(Table())
      ensures screen != null ==>
                var b := old(Table()[i + 1]);
                screen.base[..] == if hasFramebuffer
                                   then Blit.Blitted(b.bytes, b.pitch, b.height, old(screen.base[..]), screen.stride, screen.height)
                                   else old(screen.base[..])
    {
      hide Pitch.KernelPitch, Blit.Blitted;
      assert SlotOk(i, fBOs[i]) && Live(i + 1);
      if !hasFramebuffer { return true; }
      if screen == null { return false; }
      var bo := fBOs[i];
      assert bo.mem != null;
      Blit.CopyRows(bo.mem.bytes, bo.pitch, bo.height, screen);
      ok := true;
    }

    method SetCrtc(fbId: uint32, screen: Blit.Surface?) returns (r: Reply)
      requires Valid()
      requires screen != null ==> screen.Valid() && screen.base !in pages
      modifies this`fLockHeld, this`fCurrentFbId, if screen != null then {screen.base} else {}
      ensures Valid() && (Abs(), r) == Show(old(Abs()), fbId, CanShow(screen))
      ensures screen != null ==>
                screen.base[..] == if hasFramebuffer && fbId != 0 && fbId in old(Table())
                                   then var b := old(Table()[fbId]);
                                        Blit.Blitted(b.bytes, b.pitch, b.height, old(screen.base[..]), screen.stride, screen.height)
                                   else old(screen.base[..])
    {
      hide Blit.Blitted, Table, SlotOk, DescriptorOk;
      if fbId == 0 { return Done; }
      LiveIffListed(fbId);
      LockLock();
      var slot := FindBO(fbId);
      if slot < 0 {
        LockUnlock();
        return Failed(EINVAL);
      }
      var ok := BlitToDisplay(slot, screen);
      fCurrentFbId := fbId;
      LockUnlock();
      r := if ok then Done else Failed(EIO);
    }

    /** A client stores one byte through its mapping of the buffer; outside the buffer nothing is mapped. */
    method ClientStore(handle: uint32, offset: nat, value: uint8)
      requires Valid()
      modifies pages
      ensures Valid() && Abs() == Write(old(Abs()), handle, offset, value)
    {
      hide Pitch.KernelPitch, Table;
      LiveIffListed(handle);
      var slot := FindBO(handle);
      if slot >= 0 && offset < fBOs[slot].mem.bytes.Length {
        var page := fBOs[slot].mem.bytes;
        page[offset] := value;
        assert BufferOf(handle).bytes == old(BufferOf(handle)).bytes[offset := value];
        forall i: nat | i < MAX_DUMB_BOS && i != slot && fBOs[i].mem != null
          ensures fBOs[i].mem.bytes[..] == old(fBOs[i].mem.bytes[..])
        {
          assert SlotOk(i, fBOs[i]) && SlotOk(slot, fBOs[slot]);
        }
        OnlySlotChanged(handle);
      }
    }

    /** stop: every descriptor still held is completed and released; the device then refuses requests. */
    method Stop()
      requires Valid()
      modifies this`published, descriptors
      ensures !published
      ensures forall d :: d in descriptors ==> d.completed == 1 && d.released == 1
    {
      hide Pitch.KernelPitch;
      var i := 0;
      while i < MAX_DUMB_BOS
        invariant 0 <= i <= MAX_DUMB_BOS
        invariant forall j: nat :: i <= j < MAX_DUMB_BOS ==>
                    (fBOs[j].mem != null ==> fBOs[j].mem in descriptors) && SlotOk(j, fBOs[j])
        invariant forall d :: d in descriptors ==> DescriptorOk(d) && (d.released == 0 ==> i <= d.slot)
      {
        var mem := fBOs[i].mem;
        if fBOs[i].inUse && mem != null {
          mem.completed := mem.completed + 1;
          mem.released := mem.released + 1;
        }
        i := i + 1;
      }
      published := false;
    }

    /** drm_ioctl: the dispatch. Once the device is stopped every request fails. */
    method DrmIoctl(req: Request, screen: Blit.Surface?) returns (r: Reply)
      requires published ==> Valid()
      requires req.SetCrtc? ==> req.shown == CanShow(screen)
      requires screen != null ==> screen.Valid() && screen.base !in pages
      modifies this, fBOs, descriptors, pages, if screen != null then {screen.base} else {}
      ensures published == old(published)
      ensures !published ==> r == Failed(ENXIO) && unchanged(this, fBOs, old(descriptors), old(pages))
      ensures published ==> Valid() && (Abs(), r) == Step(old(Abs()), req)
      ensures old(descriptors) <= descriptors && fresh(descriptors - old(descriptors))
      ensures fresh(pages - old(pages))
      ensures |descriptors| == old(|descriptors|) + if r.Created? then 1 else 0
    {
      hide Pitch.KernelPitch, ShiftLeft64, Table, SlotOk, DescriptorOk, Create, Close, Write;
      if !published { return Failed(ENXIO); }
      match req
      case CreateDumb(w, h, bpp, memory) => r := CreateDumb(w, h, bpp, memory);
      case MapDumb(h) => r := MapDumb(h);
      case DestroyDumb(h) => r := DestroyDumb(h);
      case GemClose(h) => r := GemClose(h);
      case AddFb(h) => r := AddFb(h);
      case SetCrtc(f, _) => r := SetCrtc(f, screen);
      case GetCrtc => r := GetCrtc();
      case Store(h, o, v) => ClientStore(h, o, v); r := Done;
    }
  }
}
