/** Whole runs of the input bridge on one device. */
module EvdevRuns {
  import opened Evdev
  import opened EvdevDecode
  import opened EvdevKeys

  /**
   * The outside world: HID values arrive one after another. A reader of the pipe ends up with the
   * bridge's own multitouch fields, and with key states as the latest values left them.
   */
  method RunBridge(device: Device, vs: seq<HidValue>) returns (dev: EvdevDevice)
    requires GoodContacts(device, vs)
    ensures dev.pipe == Stream(device, vs)
    ensures dev.TouchState() == RunTouch(device, vs) == Decode(NO_TOUCH, dev.pipe)
    ensures forall c: nat :: c != 0 ==> (c in Pressed({}, dev.pipe) <==> LastWasPress(device, c, vs))
  {
    hide Decode, Pressed, LastWasPress, Events;
    dev := new EvdevDevice(device);
    var k := 0;
    while k < |vs|
      invariant 0 <= k <= |vs|
      invariant fresh(dev) && fresh(dev.mtX) && fresh(dev.mtY) && dev.Valid() && dev.device == device
      invariant GoodContacts(device, vs[..k])
      invariant dev.pipe == Stream(device, vs[..k])
      invariant dev.TouchState() == RunTouch(device, vs[..k])
    {
      assert vs[..k + 1][..k] == vs[..k];
      dev.HidValueCallback(vs[k]);
      k := k + 1;
    }
    assert vs[..k] == vs;
    TouchReconstructed(device, vs);
    forall c: nat | c != 0
      ensures c in Pressed({}, dev.pipe) <==> LastWasPress(device, c, vs)
    {
      KeysFollowSources(device, c, vs);
    }
  }
}
