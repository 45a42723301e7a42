/** Whole runs of the kernel extension, from start to stop, under any requests. */
module KernelRuns {
  import opened DrmTable
  import Kernel
  import Blit

  /** What the display pipeline returned for each request, agreeing with the request's `shown`. */
  ghost predicate GoodScreens(hasFramebuffer: bool, reqs: seq<Request>, screens: seq<Blit.Surface?>) {
    && |screens| == |reqs|
    && (forall i :: 0 <= i < |screens| && screens[i] != null ==> screens[i].Valid())
    && forall i :: 0 <= i < |reqs| && reqs[i].SetCrtc? ==> reqs[i].shown == (!hasFramebuffer || screens[i] != null)
  }

  /**
   * The outside world: clients send requests one after another, then the extension is stopped.
   * The replies are those of the finite map, and every descriptor that was allocated, one for each
   * successful CREATE_DUMB, has been completed once and released once.
   */
  method RunThenStop(hasFramebuffer: bool, reqs: seq<Request>, screens: seq<Blit.Surface?>)
    returns (dev: Kernel.IODRMShimArm64, replies: seq<Reply>)
    requires GoodScreens(hasFramebuffer, reqs, screens)
    modifies set i | 0 <= i < |screens| && screens[i] != null :: screens[i].base
    ensures replies == Replies(EMPTY_TABLE, reqs)
    ensures |dev.descriptors| == Creations(replies)
    ensures forall d :: d in dev.descriptors ==> d.completed == 1 && d.released == 1
  {
    hide DrmTable.Step, dev.Table, dev.Consistent;
    dev := new Kernel.IODRMShimArm64(hasFramebuffer);
    replies := [];
    var k := 0;
    while k < |reqs|
      invariant 0 <= k <= |reqs|
      invariant fresh(dev) && fresh(dev.fBOs) && fresh(dev.descriptors) && fresh(dev.pages)
      invariant dev.Valid() && dev.hasFramebuffer == hasFramebuffer
      invariant dev.Abs() == Run(EMPTY_TABLE, reqs[..k])
      invariant replies == Replies(EMPTY_TABLE, reqs[..k])
      invariant |dev.descriptors| == Creations(replies)
    {
      var r := dev.DrmIoctl(reqs[k], screens[k]);
      assert reqs[..k + 1][..k] == reqs[..k];
      assert (replies + [r])[..|replies|] == replies;
      replies := replies + [r];
      k := k + 1;
    }
    assert reqs[..k] == reqs;
    dev.Stop();
  }
}
