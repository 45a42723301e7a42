/** The userspace wrappers: they fill a request, run the ioctl, and turn a failure into -errno. */
module Libdrm {
  import opened Words
  import opened DrmTable
  import Kernel
  import Blit
  import Pitch

  /** A return code, 0 or -errno (Darwin's sys/errno.h numbers). */
  function Code(r: Reply): int {
    match r
    case Failed(ENOMEM) => -12
    case Failed(EINVAL) => -22
    case Failed(EIO) => -5
    case Failed(ENXIO) => -6
    case _ => 0
  }

  /** No failure is taken for a success or for another failure. */
  lemma CodesTellFailures(r: Reply, s: Reply)
    ensures Code(r) <= 0 && (Code(r) < 0 <==> r.Failed?)
    ensures r.Failed? && Code(r) == Code(s) ==> r == s
  {
  }

  datatype Dumb = Dumb(handle: uint32, pitch: uint32, size: uint64)

  /** `out` are the out-parameters before the call; a failure leaves them alone. */
  method CreateDumbBuffer(dev: Kernel.IODRMShimArm64, width: uint32, height: uint32, bpp: uint32, memory: bool, out: Dumb)
    returns (code: int, res: Dumb)
    requires dev.Valid()
    modifies dev, dev.fBOs
    ensures dev.Valid() && dev.Abs() == Create(old(dev.Abs()), width, height, bpp, memory).0
    ensures code == if memory && LowestFree(old(dev.Abs()).bufs) != 0 then 0 else -12
    ensures code != 0 ==> res == out && dev.Abs() == old(dev.Abs())
    ensures code == 0 ==>
              && res.handle == LowestFree(old(dev.Abs()).bufs)
              && res.pitch == Pitch.LibdrmPitch(width, bpp) == dev.Abs().bufs[res.handle].pitch
              && res.size == |dev.Abs().bufs[res.handle].bytes|
  {
    hide Pitch.LibdrmPitch, Pitch.KernelPitch, LowestFree, Create, dev.Table, dev.Consistent;
    var bits := if bpp != 0 then bpp else 32;
    CreateReplies(dev.Abs(), width, height, bpp, memory);
    var r := dev.CreateDumb(width, height, bits, memory);
    if r.Failed? { return Code(r), out; }
    code, res := 0, Dumb(r.handle, r.pitch, r.size);
  }

  /** The wrapper's default for a zero bpp changes nothing: the kernel has the same one. */
  lemma CreateReplies(s: Drm, width: uint32, height: uint32, bpp: uint32, memory: bool)
    ensures Create(s, width, height, Pitch.EffectiveBpp(bpp), memory) == Create(s, width, height, bpp, memory)
    ensures var (t, r) := Create(s, width, height, bpp, memory);
            if memory && LowestFree(s.bufs) != 0 then
              && r.Created? && r.handle == LowestFree(s.bufs) && r.handle in t.bufs
              && r.pitch == Pitch.LibdrmPitch(width, bpp) == t.bufs[r.handle].pitch
              && r.size == |t.bufs[r.handle].bytes|
            else t == s && r == Failed(ENOMEM)
  {
    hide Pitch.LibdrmPitch, Pitch.KernelPitch, LowestFree;
    Pitch.PitchesAgree(width, bpp);
    Pitch.DefaultBpp(width, bpp);
  }

  method MapDumbBuffer(dev: Kernel.IODRMShimArm64, handle: uint32, out: uint64) returns (code: int, offset: uint64)
    requires dev.Valid()
    modifies dev`fLockHeld
    ensures dev.Valid() && dev.Abs() == old(dev.Abs())
    ensures code == if handle in dev.Abs().bufs then 0 else -22
    ensures if code == 0 then offset == handle * 0x40_0000 && offset / 0x40_0000 == handle else offset == out
  {
    hide ShiftLeft64, dev.Table, dev.Consistent;
    MapIsListed(dev, handle);
    var r := dev.MapDumb(handle);
    if r.Failed? { return Code(r), out; }
    code, offset := 0, r.offset;
  }

  lemma MapIsListed(dev: Kernel.IODRMShimArm64, handle: uint32)
    requires dev.Valid()
    ensures handle in dev.Abs().bufs ==> Map(dev.Abs(), handle) == MappedAt(handle * 0x40_0000)
  {
    hide ShiftLeft64;
    dev.LiveIffListed(handle);
    if handle in dev.Abs().bufs { MapOffset(dev.Abs(), handle); }
  }

  method DestroyDumbBuffer(dev: Kernel.IODRMShimArm64, handle: uint32) returns (code: int)
    requires dev.Valid()
    modifies dev`fLockHeld, dev.fBOs, dev.descriptors
    ensures dev.Valid() && dev.Abs() == Close(old(dev.Abs()), handle) && code == 0
  {
    var r := dev.DestroyDumb(handle);
    code := Code(r);
  }

  /** The framebuffer id is the handle itself, even of a buffer that does not exist. */
  method AddFB(dev: Kernel.IODRMShimArm64, handle: uint32) returns (code: int, bufId: uint32)
    requires dev.Valid()
    ensures code == 0 && bufId == handle
  {
    var r := dev.AddFb(handle);
    code, bufId := Code(r), r.fbId;
  }

  method SetCrtc(dev: Kernel.IODRMShimArm64, fbId: uint32, screen: Blit.Surface?) returns (code: int)
    requires dev.Valid() && (screen != null ==> screen.Valid() && screen.base !in dev.pages)
    modifies dev`fLockHeld, dev`fCurrentFbId, if screen != null then {screen.base} else {}
    ensures dev.Valid() && dev.Abs() == Show(old(dev.Abs()), fbId, dev.CanShow(screen)).0
    ensures code == -22 <==> fbId != 0 && fbId !in old(dev.Abs()).bufs
    ensures code == -5 <==> fbId != 0 && fbId in old(dev.Abs()).bufs && !dev.CanShow(screen)
    ensures code == 0 || code == -22 || code == -5
  {
    hide dev.Table, dev.Consistent, Blit.Blitted;
    var r := dev.SetCrtc(fbId, screen);
    code := Code(r);
  }
}
