/** The bridge from HID values to evdev events. */
module Evdev {
  import opened Words
  import opened InputCodes
  import opened HidKeys

  const PAGE_GENERIC_DESKTOP: uint32 := 0x01
  const PAGE_KEYBOARD: uint32 := 0x07
  const PAGE_BUTTON: uint32 := 0x09
  const PAGE_DIGITIZER: uint32 := 0x0D
  const PAGE_APPLE_VENDOR: uint32 := 0xFF01
  const GD_X: uint32 := 0x30
  const GD_Y: uint32 := 0x31
  const GD_WHEEL: uint32 := 0x38
  const DIG_TIP_SWITCH: uint32 := 0x42
  const DIG_CONTACT_ID: uint32 := 0x51
  const VENDOR_GLOBE: uint32 := 0x03
  const CONTACTS: nat := 10

  datatype Event = Event(kind: nat, code: nat, value: int32)

  datatype HidValue = HidValue(page: uint32, usage: uint32, value: int64)

  /** What device_added found the device to be. */
  datatype Device = Device(isKeyboard: bool, isPointer: bool, isTouch: bool)

  /** The multitouch fields of a device. */
  datatype Touch = Touch(slot: int, x: seq<int32>, y: seq<int32>)

  const NO_TOUCH := Touch(0, [0, 0, 0, 0, 0, 0, 0, 0, 0, 0], [0, 0, 0, 0, 0, 0, 0, 0, 0, 0])

  const SYN := Event(EV_SYN, 0, 0)

  function Pressed01(value: int64): int32 { if value != 0 then 1 else 0 }

  function ButtonCode(usage: uint32): nat {
    if usage == 1 then BTN_LEFT else if usage == 2 then BTN_RIGHT else BTN_MIDDLE
  }

  /** The slot that a contact identifier selects: its low word as a signed number, modulo ten as C divides. */
  function ContactSlot(value: int64): (slot: int)
    ensures -10 < slot < CONTACTS
  {
    CRemainder(ToInt32(value), CONTACTS)
  }

  // ---- the events of one value --------------------------------------------------------------

  function KeyboardEvents(d: Device, v: HidValue): seq<Event> {
    if v.page == PAGE_KEYBOARD && d.isKeyboard && HidToLinuxKey(v.usage) != KEY_UNKNOWN then
      [Event(EV_KEY, HidToLinuxKey(v.usage), Pressed01(v.value)), SYN]
    else if v.page == PAGE_APPLE_VENDOR && v.usage == VENDOR_GLOBE then
      [Event(EV_KEY, KEY_LEFTMETA, Pressed01(v.value)), SYN]
    else []
  }

  function PointerEvents(d: Device, v: HidValue): seq<Event> {
    if v.page == PAGE_GENERIC_DESKTOP && d.isPointer && v.usage == GD_X then [Event(EV_REL, REL_X, ToInt32(v.value))]
    else if v.page == PAGE_GENERIC_DESKTOP && d.isPointer && v.usage == GD_Y then [Event(EV_REL, REL_Y, ToInt32(v.value))]
    else if v.page == PAGE_GENERIC_DESKTOP && d.isPointer && v.usage == GD_WHEEL then
      [Event(EV_REL, REL_WHEEL, ToInt32(v.value))]
    else if v.page == PAGE_BUTTON && d.isPointer then
      [Event(EV_KEY, ButtonCode(v.usage), Pressed01(v.value)), SYN]
    else []
  }

  predicate IsTouchValue(d: Device, v: HidValue) { v.page == PAGE_DIGITIZER && d.isTouch }

  function TouchEvents(d: Device, v: HidValue): seq<Event> {
    if !IsTouchValue(d, v) then []
    else if v.usage == DIG_TIP_SWITCH then [Event(EV_KEY, BTN_TOUCH, Pressed01(v.value)), SYN]
    else if v.usage == GD_X then
      [Event(EV_ABS, ABS_MT_POSITION_X, ToInt32(v.value)), Event(EV_ABS, ABS_X, ToInt32(v.value)), SYN]
    else if v.usage == GD_Y then
      [Event(EV_ABS, ABS_MT_POSITION_Y, ToInt32(v.value)), Event(EV_ABS, ABS_Y, ToInt32(v.value)), SYN]
    else if v.usage == DIG_CONTACT_ID then [Event(EV_ABS, ABS_MT_SLOT, ContactSlot(v.value)), SYN]
    else [SYN]
  }

  /** A value has one page, so at most one of the three parts is non-empty. */
  function Events(d: Device, v: HidValue): seq<Event> {
    KeyboardEvents(d, v) + PointerEvents(d, v) + TouchEvents(d, v)
  }

  function Stream(d: Device, vs: seq<HidValue>): seq<Event> {
    if vs == [] then [] else Stream(d, vs[..|vs| - 1]) + Events(d, vs[|vs| - 1])
  }

  /** The contact slot the latest identifier of a run selected. */
  function SlotAfter(d: Device, vs: seq<HidValue>): (slot: int)
    ensures -10 < slot < 10
  {
    if vs == [] then 0
    else if IsTouchValue(d, vs[|vs| - 1]) && vs[|vs| - 1].usage == DIG_CONTACT_ID then ContactSlot(vs[|vs| - 1].value)
    else SlotAfter(d, vs[..|vs| - 1])
  }

  // ---- the bridge ---------------------------------------------------------------------------

  predicate IsPosition(d: Device, v: HidValue) { IsTouchValue(d, v) && (v.usage == GD_X || v.usage == GD_Y) }

  predicate WellFormed(t: Touch) { |t.x| == CONTACTS && |t.y| == CONTACTS }

  predicate SlotInRange(t: Touch) { 0 <= t.slot < CONTACTS }

  function NextTouch(d: Device, t: Touch, v: HidValue): (r: Touch)
    requires WellFormed(t) && (IsPosition(d, v) ==> SlotInRange(t))
    ensures WellFormed(r)
  {
    if IsTouchValue(d, v) && v.usage == GD_X then t.(x := t.x[t.slot := ToInt32(v.value)])
    else if IsTouchValue(d, v) && v.usage == GD_Y then t.(y := t.y[t.slot := ToInt32(v.value)])
    else if IsTouchValue(d, v) && v.usage == DIG_CONTACT_ID then t.(slot := ContactSlot(v.value))
    else t
  }

  class EvdevDevice {
    const device: Device
    const mtX: array<int32>
    const mtY: array<int32>
    var mtSlot: int32
    var pipe: seq<Event>

    ghost predicate Valid() { mtX.Length == CONTACTS && mtY.Length == CONTACTS && mtX != mtY }

    ghost function TouchState(): (t: Touch)
      reads this, mtX, mtY
    {
      Touch(mtSlot, mtX[..], mtY[..])
    }

    constructor (device: Device)
      ensures Valid() && fresh(mtX) && fresh(mtY) && this.device == device
      ensures pipe == [] && TouchState() == NO_TOUCH
    {
      this.device := device;
      mtX := new int32[CONTACTS](_ => 0);
      mtY := new int32[CONTACTS](_ => 0);
      mtSlot := 0;
      pipe := [];
      new;
      assert mtX[..] == NO_TOUCH.x && mtY[..] == NO_TOUCH.y;
    }

    method WriteEvent(kind: nat, code: nat, value: int32)
      modifies this`pipe
      ensures pipe == old(pipe) + [Event(kind, code, value)]
    {
      pipe := pipe + [Event(kind, code, value)];
    }

    method SyncEvent()
      modifies this`pipe
      ensures pipe == old(pipe) + [SYN]
    {
      WriteEvent(EV_SYN, 0, 0);
    }

    /** hid_value_callback. A position is stored at the current slot, which must index the arrays. */
    method HidValueCallback(v: HidValue)
      requires Valid() && (IsPosition(device, v) ==> SlotInRange(TouchState()))
      modifies this`pipe, this`mtSlot, mtX, mtY
      ensures Valid()
      ensures pipe == old(pipe) + Events(device, v)
      ensures TouchState() == NextTouch(device, old(TouchState()), v)
    {
      hide HidToLinuxKey;
      if v.page == PAGE_KEYBOARD && device.isKeyboard {
        var key := HidToLinuxKey(v.usage);
        if key != KEY_UNKNOWN {
          WriteEvent(EV_KEY, key, Pressed01(v.value));
          SyncEvent();
        }
      }
      if v.page == PAGE_APPLE_VENDOR && v.usage == VENDOR_GLOBE {
        WriteEvent(EV_KEY, KEY_LEFTMETA, Pressed01(v.value));
        SyncEvent();
      }
      if v.page == PAGE_GENERIC_DESKTOP && device.isPointer {
        if v.usage == GD_X {
          WriteEvent(EV_REL, REL_X, ToInt32(v.value));
        } else if v.usage == GD_Y {
          WriteEvent(EV_REL, REL_Y, ToInt32(v.value));
        } else if v.usage == GD_WHEEL {
          WriteEvent(EV_REL, REL_WHEEL, ToInt32(v.value));
        }
      }
      if v.page == PAGE_BUTTON && device.isPointer {
        WriteEvent(EV_KEY, ButtonCode(v.usage), Pressed01(v.value));
        SyncEvent();
      }
      if v.page == PAGE_DIGITIZER && device.isTouch {
        TouchCallback(v);
      }
    }

    /** The digitizer part of the callback. */
    method TouchCallback(v: HidValue)
      requires Valid() && IsTouchValue(device, v) && (IsPosition(device, v) ==> SlotInRange(TouchState()))
      modifies this`pipe, this`mtSlot, mtX, mtY
      ensures Valid()
      ensures pipe == old(pipe) + TouchEvents(device, v)
      ensures TouchState() == NextTouch(device, old(TouchState()), v)
    {
      var value := ToInt32(v.value);
      if v.usage == DIG_TIP_SWITCH {
        WriteEvent(EV_KEY, BTN_TOUCH, Pressed01(v.value));
      } else if v.usage == GD_X {
        mtX[mtSlot] := value;
        WriteEvent(EV_ABS, ABS_MT_POSITION_X, value);
        WriteEvent(EV_ABS, ABS_X, value);
      } else if v.usage == GD_Y {
        mtY[mtSlot] := value;
        WriteEvent(EV_ABS, ABS_MT_POSITION_Y, value);
        WriteEvent(EV_ABS, ABS_Y, value);
      } else if v.usage == DIG_CONTACT_ID {
        mtSlot := CRemainder(value, CONTACTS);
        WriteEvent(EV_ABS, ABS_MT_SLOT, mtSlot);
      }
      SyncEvent();
    }
  }

}
