/** Whole runs of a GBM surface on the kernel extension. */
module FlipRuns {
  import opened Words
  import opened DrmTable
  import opened Gbm
  import PageFlip
  import Kernel
  import Blit

  /** What the display pipeline returned for each move, agreeing with the move's `shown`. */
  ghost predicate GoodScreens(dev: Kernel.IODRMShimArm64, ops: seq<PageFlip.Op>, screens: seq<Blit.Surface?>)
    reads dev`pages
  {
    && |screens| == |ops|
    && (forall i :: 0 <= i < |screens| && screens[i] != null ==> screens[i].Valid() && screens[i].base !in dev.pages)
    && forall i :: 0 <= i < |ops| ==> GoodScreen(dev, ops[i], screens[i])
  }

  predicate GoodScreen(dev: Kernel.IODRMShimArm64, op: PageFlip.Op, screen: Blit.Surface?) {
    match op
    case Present(shown) => shown == dev.CanShow(screen)
    case Other(r) => r.SetCrtc? ==> r.shown == dev.CanShow(screen)
    case _ => true
  }

  /** The surface and the device as the client of the flip model. */
  ghost function ClientOf(dev: Kernel.IODRMShimArm64, s: GbmSurface): PageFlip.Client
    requires dev.Consistent()
    reads s, dev, dev.fBOs, dev.descriptors, dev.pages
  {
    PageFlip.Client(s.front, s.locked, dev.Abs())
  }

  ghost function Moved(dev: Kernel.IODRMShimArm64, s: GbmSurface, op: PageFlip.Op): PageFlip.Client
    requires dev.Consistent() && s.Valid()
    reads s, s.bos, dev, dev.fBOs, dev.descriptors, dev.pages
  {
    PageFlip.Step(ClientOf(dev, s), s.bos[0].gemHandle, s.bos[1].gemHandle, op)
  }

  /** ADDFB and SETCRTC of the buffer in front; nothing before the first lock. */
  method PresentFront(dev: Kernel.IODRMShimArm64, s: GbmSurface, screen: Blit.Surface?)
    requires dev.Valid() && s.Valid()
    requires screen != null ==> screen.Valid() && screen.base !in dev.pages
    modifies dev`fLockHeld, dev`fCurrentFbId, if screen != null then {screen.base} else {}
    ensures dev.Valid()
    ensures ClientOf(dev, s) == old(Moved(dev, s, PageFlip.Present(dev.CanShow(screen))))
  {
    hide dev.Table, dev.Consistent, Show, Create, Close, Map, Write;
    if s.front == -1 { return; }
    var fb := dev.AddFb(s.bos[s.front].gemHandle);
    var shown := dev.SetCrtc(fb.fbId, screen);
  }

  /** One move on the real objects; `bo` is what a lock hands out. */
  method Move(dev: Kernel.IODRMShimArm64, s: GbmSurface, op: PageFlip.Op, screen: Blit.Surface?)
    returns (bo: GbmBo?)
    requires dev.Valid() && s.Valid() && GoodScreen(dev, op, screen)
    requires screen != null ==> screen.Valid() && screen.base !in dev.pages
    modifies s`front, s`locked, dev, dev.fBOs, dev.descriptors, dev.pages, if screen != null then {screen.base} else {}
    ensures dev.Valid() && s.Valid() && s.bos[..] == old(s.bos[..])
    ensures fresh(dev.descriptors - old(dev.descriptors)) && fresh(dev.pages - old(dev.pages))
    ensures ClientOf(dev, s) == old(Moved(dev, s, op))
    ensures op.Lock? ==> bo == s.bos[s.front] && bo != null
  {
    hide dev.Table, dev.Consistent, DrmTable.Step;
    bo := null;
    match op
    case Lock => bo := s.LockFrontBuffer();
    case Present(_) => PresentFront(dev, s, screen);
    case Release => s.ReleaseBuffer(s.bos[0]);
    case Other(r) => var reply := dev.DrmIoctl(r, screen);
  }

  /**
   * The outside world: a client drives one surface while others use the device. The surface and the
   * device move as the flip model says, and the n-th lock hands out buffer n mod 2.
   */
  method RunFlips(dev: Kernel.IODRMShimArm64, s: GbmSurface, ops: seq<PageFlip.Op>, screens: seq<Blit.Surface?>)
    returns (handed: seq<GbmBo?>)
    requires dev.Valid() && s.Valid() && s.front == -1 && GoodScreens(dev, ops, screens)
    modifies s`front, s`locked, dev, dev.fBOs, dev.descriptors, dev.pages
    modifies set i | 0 <= i < |screens| && screens[i] != null :: screens[i].base
    ensures dev.Valid() && s.Valid() && s.bos[..] == old(s.bos[..])
    ensures ClientOf(dev, s) == PageFlip.Run(old(ClientOf(dev, s)), s.bos[0].gemHandle, s.bos[1].gemHandle, ops)
    ensures |handed| == PageFlip.Locks(ops) && forall n :: 0 <= n < |handed| ==> handed[n] == s.bos[n % 2]
  {
    hide dev.Table, dev.Consistent, PageFlip.Step;
    ghost var start, h0, h1 := ClientOf(dev, s), s.bos[0].gemHandle, s.bos[1].gemHandle;
    handed := [];
    var k := 0;
    while k < |ops|
      invariant 0 <= k <= |ops|
      invariant dev.Valid() && s.Valid() && s.bos[..] == old(s.bos[..])
      invariant fresh(dev.descriptors - old(dev.descriptors)) && fresh(dev.pages - old(dev.pages))
      invariant ClientOf(dev, s) == PageFlip.Run(start, h0, h1, ops[..k])
      invariant |handed| == PageFlip.Locks(ops[..k])
      invariant forall n :: 0 <= n < |handed| ==> handed[n] == s.bos[n % 2]
    {
      assert ops[..k + 1][..k] == ops[..k];
      assert GoodScreen(dev, ops[k], screens[k]);
      PageFlip.NthLock(start, h0, h1, ops[..k]);
      var bo := Move(dev, s, ops[k], screens[k]);
      if ops[k].Lock? { handed := handed + [bo]; }
      k := k + 1;
    }
    assert ops[..k] == ops;
  }

  /**
   * What the client sees after such a run: has_free_buffers tells whether it holds a buffer, if it
   * asked before each lock; and the buffer the next lock hands out is the one GETCRTC reports
   * exactly when an odd number of locks went unpresented, or none was presented and the id that was
   * current at the start is its handle.
   */
  method FlipThenLock(dev: Kernel.IODRMShimArm64, s: GbmSurface, ops: seq<PageFlip.Op>, screens: seq<Blit.Surface?>)
    returns (free: bool, crtc: Reply, next: GbmBo?)
    requires dev.Valid() && s.Owns(dev.Abs()) && s.front == -1 && !s.locked && GoodScreens(dev, ops, screens)
    requires PageFlip.AllHarmless(ops, s.bos[0].gemHandle, s.bos[1].gemHandle)
    modifies s`front, s`locked, dev, dev.fBOs, dev.descriptors, dev.pages
    modifies set i | 0 <= i < |screens| && screens[i] != null :: screens[i].base
    ensures dev.Valid() && s.Valid() && next == s.bos[PageFlip.Locks(ops) % 2] && next != null
    ensures PageFlip.AsksFirst(old(ClientOf(dev, s)), old(s.bos[0]).gemHandle, old(s.bos[1]).gemHandle, ops) ==>
              PageFlip.Held(ops) == if free then 0 else 1
    ensures crtc == Framebuffer(next.gemHandle) <==>
            if PageFlip.LocksAtPresent(ops) > 0 then (PageFlip.Locks(ops) - PageFlip.LocksAtPresent(ops)) % 2 == 1
            else old(dev.fCurrentFbId) == next.gemHandle
  {
    hide dev.Table, dev.Consistent, PageFlip.Run, PageFlip.AsksFirst, PageFlip.Start, GoodScreens;
    ghost var start, h0, h1 := ClientOf(dev, s), s.bos[0].gemHandle, s.bos[1].gemHandle;
    OwnedHandles(dev, s);
    AfterRun(start, h0, h1, ops);
    var handed := RunFlips(dev, s, ops, screens);
    free := s.HasFreeBuffers();
    crtc := dev.GetCrtc();
    next := s.LockFrontBuffer();
  }

  lemma AfterRun(start: PageFlip.Client, h0: uint32, h1: uint32, ops: seq<PageFlip.Op>)
    requires PageFlip.Start(start, h0, h1) && !start.locked && PageFlip.AllHarmless(ops, h0, h1)
    ensures var c := PageFlip.Run(start, h0, h1, ops);
            && BackIndex(c.front) == PageFlip.Locks(ops) % 2
            && (PageFlip.AsksFirst(start, h0, h1, ops) ==> PageFlip.Held(ops) == if c.locked then 1 else 0)
            && (c.drm.current == PageFlip.Handle(h0, h1, PageFlip.Locks(ops) % 2) <==>
                if PageFlip.LocksAtPresent(ops) > 0 then (PageFlip.Locks(ops) - PageFlip.LocksAtPresent(ops)) % 2 == 1
                else start.drm.current == PageFlip.Handle(h0, h1, PageFlip.Locks(ops) % 2))
  {
    PageFlip.NthLock(start, h0, h1, ops);
    PageFlip.NextLockOnScreenExactly(start, h0, h1, ops);
    if PageFlip.AsksFirst(start, h0, h1, ops) { PageFlip.AtMostOneHeld(start, h0, h1, ops); }
  }

  lemma OwnedHandles(dev: Kernel.IODRMShimArm64, s: GbmSurface)
    requires dev.Valid() && s.Owns(dev.Abs()) && s.front == -1
    ensures PageFlip.Start(ClientOf(dev, s), s.bos[0].gemHandle, s.bos[1].gemHandle)
  {
    dev.LiveIffListed(s.bos[0].gemHandle);
    dev.LiveIffListed(s.bos[1].gemHandle);
  }
}
