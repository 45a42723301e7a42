/** What a reader of the event stream can know about keys and buttons. */
module EvdevKeys {
  import opened Words
  import opened InputCodes
  import opened HidKeys
  import opened Evdev

  // ---- the reader ----------------------------------------------------------------------------

  /** The key code that a page and usage report on a device, or 0. */
  function KeyOf(d: Device, page: uint32, usage: uint32): nat {
    if page == PAGE_KEYBOARD && d.isKeyboard then HidToLinuxKey(usage)
    else if page == PAGE_APPLE_VENDOR && usage == VENDOR_GLOBE then KEY_LEFTMETA
    else if page == PAGE_BUTTON && d.isPointer then ButtonCode(usage)
    else if page == PAGE_DIGITIZER && d.isTouch && usage == DIG_TIP_SWITCH then BTN_TOUCH
    else 0
  }

  function Track(keys: set<nat>, e: Event): set<nat> {
    if e.kind != EV_KEY then keys else if e.value != 0 then keys + {e.code} else keys - {e.code}
  }

  /** The key codes a reader believes pressed. */
  function Pressed(keys: set<nat>, es: seq<Event>): set<nat>
    decreases es
  {
    if es == [] then keys else Pressed(Track(keys, es[0]), es[1..])
  }

  lemma {:induction false} PressedConcat(keys: set<nat>, a: seq<Event>, b: seq<Event>)
    ensures Pressed(keys, a + b) == Pressed(Pressed(keys, a), b)
    decreases a
  {
    if a == [] {
      assert a + b == b;
    } else {
      assert (a + b)[1..] == a[1..] + b;
      PressedConcat(Track(keys, a[0]), a[1..], b);
    }
  }

  lemma {:induction false} PressedIgnores(keys: set<nat>, es: seq<Event>)
    requires forall i :: 0 <= i < |es| ==> es[i].kind != EV_KEY
    ensures Pressed(keys, es) == keys
    decreases es
  {
    if es != [] {
      assert es[0].kind != EV_KEY;
      PressedIgnores(keys, es[1..]);
    }
  }

  lemma KeyPressed(d: Device, keys: set<nat>, v: HidValue)
    ensures var k := KeyOf(d, v.page, v.usage);
            Pressed(keys, Events(d, v)) == if k == 0 then keys else if v.value != 0 then keys + {k} else keys - {k}
  {
    hide HidToLinuxKey, ToInt32, CRemainder;
    var es, k := Events(d, v), KeyOf(d, v.page, v.usage);
    if k == 0 {
      PressedIgnores(keys, es);
    } else {
      assert es == [Event(EV_KEY, k, Pressed01(v.value)), SYN];
      assert es[1..] == [SYN];
      PressedIgnores(Track(keys, es[0]), [SYN]);
    }
  }

  /** Whether the latest value that reports code c, if any, was a press. */
  function LatestIsPress(d: Device, c: nat, vs: seq<HidValue>): bool {
    if vs == [] then false
    else if KeyOf(d, vs[|vs| - 1].page, vs[|vs| - 1].usage) == c then vs[|vs| - 1].value != 0
    else LatestIsPress(d, c, vs[..|vs| - 1])
  }

  /** A reader sees code c pressed exactly when the latest value that reports it was a press. */
  lemma {:induction false} LatestValueWins(d: Device, c: nat, vs: seq<HidValue>)
    requires c != 0
    ensures c in Pressed({}, Stream(d, vs)) <==> LatestIsPress(d, c, vs)
  {
    if vs != [] {
      var before, last := vs[..|vs| - 1], vs[|vs| - 1];
      LatestValueWins(d, c, before);
      PressedConcat({}, Stream(d, before), Events(d, last));
      KeyPressed(d, Pressed({}, Stream(d, before)), last);
    }
  }

  /** Which values report code c, told from the code. */
  predicate ComesFrom(d: Device, c: nat, v: HidValue) {
    if c == BTN_LEFT then d.isPointer && v.page == PAGE_BUTTON && v.usage == 1
    else if c == BTN_RIGHT then d.isPointer && v.page == PAGE_BUTTON && v.usage == 2
    else if c == BTN_MIDDLE then d.isPointer && v.page == PAGE_BUTTON && v.usage != 1 && v.usage != 2
    else if c == BTN_TOUCH then d.isTouch && v.page == PAGE_DIGITIZER && v.usage == DIG_TIP_SWITCH
    else
      || (d.isKeyboard && v.page == PAGE_KEYBOARD && v.usage != 0 && v.usage == UsageOfKey(c))
      || (c == KEY_LEFTMETA && v.page == PAGE_APPLE_VENDOR && v.usage == VENDOR_GLOBE)
  }

  lemma KeySources(d: Device, c: nat, v: HidValue)
    requires c != 0
    ensures KeyOf(d, v.page, v.usage) == c <==> ComesFrom(d, c, v)
  {
    hide HidToLinuxKey, UsageOfKey;
    KeyCodesBelowButtons(v.usage);
    UsageRecovered(v.usage, c);
    NoButtonUsages();
  }

  lemma NoButtonUsages()
    ensures UsageOfKey(BTN_LEFT) == UsageOfKey(BTN_RIGHT) == UsageOfKey(BTN_MIDDLE) == UsageOfKey(BTN_TOUCH) == 0
  {
  }

  /** The latest value that reports code c was a press. */
  ghost predicate LastWasPress(d: Device, c: nat, vs: seq<HidValue>) {
    exists i :: 0 <= i < |vs| && ComesFrom(d, c, vs[i]) && vs[i].value != 0 &&
                forall j :: i < j < |vs| ==> !ComesFrom(d, c, vs[j])
  }

  lemma LastWasPressStep(d: Device, c: nat, vs: seq<HidValue>)
    requires vs != []
    ensures var before, last := vs[..|vs| - 1], vs[|vs| - 1];
            LastWasPress(d, c, vs) <==> if ComesFrom(d, c, last) then last.value != 0 else LastWasPress(d, c, before)
  {
    hide ComesFrom;
    var before, last := vs[..|vs| - 1], vs[|vs| - 1];
    if i :| 0 <= i < |before| && ComesFrom(d, c, before[i]) && before[i].value != 0 &&
            forall j :: i < j < |before| ==> !ComesFrom(d, c, before[j]) {
      assert vs[i] == before[i] && forall j :: i < j < |before| ==> vs[j] == before[j];
    }
    if i :| 0 <= i < |vs| && ComesFrom(d, c, vs[i]) && vs[i].value != 0 &&
            forall j :: i < j < |vs| ==> !ComesFrom(d, c, vs[j]) {
      assert i < |before| ==> before[i] == vs[i] && forall j :: i < j < |before| ==> before[j] == vs[j];
    }
  }

  /**
   * A reader sees a key, button or touch as pressed exactly when its own latest value was a press:
   * the left button is usage 1, the right one usage 2, the middle one every other, and a key is the
   * usage in the reverse table.
   */
  lemma KeysFollowSources(d: Device, c: nat, vs: seq<HidValue>)
    requires c != 0
    ensures c in Pressed({}, Stream(d, vs)) <==> LastWasPress(d, c, vs)
  {
    LatestValueWins(d, c, vs);
    LatestIsLast(d, c, vs);
  }

  lemma {:induction false} LatestIsLast(d: Device, c: nat, vs: seq<HidValue>)
    requires c != 0
    ensures LatestIsPress(d, c, vs) <==> LastWasPress(d, c, vs)
  {
    hide KeyOf, ComesFrom;
    if vs != [] {
      LatestIsLast(d, c, vs[..|vs| - 1]);
      KeySources(d, c, vs[|vs| - 1]);
      LastWasPressStep(d, c, vs);
    }
  }

  /** Key events carry 1 for a press and 0 for a release, never a repeat. */
  lemma {:induction false} KeyEventsAreBits(d: Device, vs: seq<HidValue>)
    ensures forall i :: 0 <= i < |Stream(d, vs)| && Stream(d, vs)[i].kind == EV_KEY ==>
              Stream(d, vs)[i].value == 0 || Stream(d, vs)[i].value == 1
  {
    hide HidToLinuxKey, ToInt32, CRemainder;
    if vs != [] { KeyEventsAreBits(d, vs[..|vs| - 1]); }
  }

  // ---- controls ------------------------------------------------------------------------------

  /**
   * Something a user holds down: a key, a button, or one finger. The fingers of a touch device
   * share the tip switch usage and differ by the contact slot selected when they report.
   */
  datatype Control = Control(page: uint32, usage: uint32, contact: int)

  function ControlOf(d: Device, slot: int, v: HidValue): Control {
    Control(v.page, v.usage, if IsTouchValue(d, v) then slot else 0)
  }

  /** The controls that values of a device can come from. */
  predicate IsControl(d: Device, a: Control) {
    if a.page == PAGE_DIGITIZER && d.isTouch then -10 < a.contact < 10 else a.contact == 0
  }

  /** The controls held down after a run. */
  function HeldControls(d: Device, vs: seq<HidValue>): set<Control> {
    if vs == [] then {}
    else
      var before, v := vs[..|vs| - 1], vs[|vs| - 1];
      var held, a := HeldControls(d, before), ControlOf(d, SlotAfter(d, before), v);
      if v.value != 0 then held + {a} else held - {a}
  }

  predicate Reports(d: Device, a: Control, c: nat) { IsControl(d, a) && KeyOf(d, a.page, a.usage) == c }

  ghost predicate SomeControlHeld(d: Device, c: nat, vs: seq<HidValue>) {
    exists a :: a in HeldControls(d, vs) && Reports(d, a, c)
  }

  /** In every run the reader's view of code c is whether some control that reports it is held. */
  ghost predicate Faithful(d: Device, c: nat) {
    forall vs: seq<HidValue> :: c in Pressed({}, Stream(d, vs)) <==> SomeControlHeld(d, c, vs)
  }

  ghost predicate OneControl(d: Device, c: nat) {
    forall a: Control, b: Control :: Reports(d, a, c) && Reports(d, b, c) ==> a == b
  }

  lemma ValueIsControl(d: Device, vs: seq<HidValue>, v: HidValue)
    ensures var a := ControlOf(d, SlotAfter(d, vs), v);
            IsControl(d, a) && a.page == v.page && a.usage == v.usage
  {
  }

  lemma {:induction false} OneControlLatest(d: Device, c: nat, vs: seq<HidValue>)
    requires OneControl(d, c)
    ensures LatestIsPress(d, c, vs) <==> SomeControlHeld(d, c, vs)
  {
    hide KeyOf, IsControl, ControlOf, SlotAfter;
    if vs != [] {
      var before, last := vs[..|vs| - 1], vs[|vs| - 1];
      OneControlLatest(d, c, before);
      ValueIsControl(d, before, last);
      var held, now, a := HeldControls(d, before), HeldControls(d, vs), ControlOf(d, SlotAfter(d, before), last);
      if KeyOf(d, last.page, last.usage) == c {
        assert Reports(d, a, c);
        assert last.value != 0 ==> a in now;
        assert forall b :: b in now && Reports(d, b, c) ==> b == a;
      } else {
        assert forall b :: Reports(d, b, c) ==> b != a && (b in now <==> b in held);
      }
    }
  }

  // ---- shared codes --------------------------------------------------------------------------

  /** The values that select a control's contact, if it has one. */
  function Select(d: Device, a: Control): seq<HidValue>
    requires IsControl(d, a)
  {
    if a.page == PAGE_DIGITIZER && d.isTouch then [HidValue(PAGE_DIGITIZER, DIG_CONTACT_ID, a.contact)] else []
  }

  function Report(a: Control, value: int64): HidValue { HidValue(a.page, a.usage, value) }

  /** Press a, press b, release b. */
  function PressBoth(d: Device, a: Control, b: Control): seq<HidValue>
    requires IsControl(d, a) && IsControl(d, b)
  {
    Select(d, a) + [Report(a, 1)] + Select(d, b) + [Report(b, 1), Report(b, 0)]
  }

  /** The identifier of a contact itself, not a key. */
  predicate IsIdentifier(a: Control) { a.page == PAGE_DIGITIZER && a.usage == DIG_CONTACT_ID }

  lemma SmallContact(k: int)
    requires -10 < k < 10
    ensures ContactSlot(k) == k
  {
  }

  /** After selecting a's contact, reports of a's usage are a's, and no key has moved. */
  lemma Selected(d: Device, vs: seq<HidValue>, a: Control)
    requires IsControl(d, a)
    ensures var ws := vs + Select(d, a);
            && (forall v: HidValue :: v.page == a.page && v.usage == a.usage ==> ControlOf(d, SlotAfter(d, ws), v) == a)
            && forall b: Control :: !IsIdentifier(b) ==> (b in HeldControls(d, ws) <==> b in HeldControls(d, vs))
  {
    var ws := vs + Select(d, a);
    if a.page == PAGE_DIGITIZER && d.isTouch {
      assert ws[..|ws| - 1] == vs;
      SmallContact(a.contact);
    } else {
      assert ws == vs;
    }
  }

  /** A report of a control that is not an identifier moves that control alone, and keeps the contact. */
  lemma Reported(d: Device, vs: seq<HidValue>, a: Control, value: int64)
    requires !IsIdentifier(a) && ControlOf(d, SlotAfter(d, vs), Report(a, value)) == a
    ensures var ws := vs + [Report(a, value)];
            && SlotAfter(d, ws) == SlotAfter(d, vs)
            && HeldControls(d, ws) == if value != 0 then HeldControls(d, vs) + {a} else HeldControls(d, vs) - {a}
  {
    var ws := vs + [Report(a, value)];
    assert ws[..|ws| - 1] == vs;
  }

  /** Two controls that report the same code: pressing both and releasing one, the reader loses the other. */
  lemma SharedCodeMisleads(d: Device, c: nat, a: Control, b: Control)
    requires c != 0 && a != b && Reports(d, a, c) && Reports(d, b, c)
    ensures c !in Pressed({}, Stream(d, PressBoth(d, a, b)))
    ensures a in HeldControls(d, PressBoth(d, a, b)) && SomeControlHeld(d, c, PressBoth(d, a, b))
  {
    hide KeyOf, HeldControls, ControlOf, SlotAfter, IsControl, Select, Stream, Pressed;
    KeysAreNotIdentifiers(d, a, c);
    KeysAreNotIdentifiers(d, b, c);
    var v0 := [] + Select(d, a);
    var v1 := v0 + [Report(a, 1)];
    var v2 := v1 + Select(d, b);
    var v3 := v2 + [Report(b, 1)];
    Selected(d, [], a);
    Reported(d, v0, a, 1);
    Selected(d, v1, b);
    Reported(d, v2, b, 1);
    Reported(d, v3, b, 0);
    assert v3 + [Report(b, 0)] == PressBoth(d, a, b);
    LatestValueWins(d, c, PressBoth(d, a, b));
  }

  lemma KeysAreNotIdentifiers(d: Device, a: Control, c: nat)
    requires c != 0 && Reports(d, a, c)
    ensures !IsIdentifier(a)
  {
  }

  /** Two fingers down and the second one up: the reader sees no touch while the first finger is still down. */
  lemma TwoFingers(d: Device)
    requires d.isTouch
    ensures var first, second := Control(PAGE_DIGITIZER, DIG_TIP_SWITCH, 0), Control(PAGE_DIGITIZER, DIG_TIP_SWITCH, 1);
            && BTN_TOUCH !in Pressed({}, Stream(d, PressBoth(d, first, second)))
            && first in HeldControls(d, PressBoth(d, first, second))
  {
    hide HeldControls, Stream, Pressed;
    SharedCodeMisleads(d, BTN_TOUCH, Control(PAGE_DIGITIZER, DIG_TIP_SWITCH, 0), Control(PAGE_DIGITIZER, DIG_TIP_SWITCH, 1));
  }

  /** Key states survive the bridge for exactly the codes that a single control reports. */
  lemma FaithfulExactly(d: Device, c: nat)
    requires c != 0
    ensures Faithful(d, c) <==> OneControl(d, c)
  {
    hide Reports, Stream, Pressed, LatestIsPress, HeldControls;
    if OneControl(d, c) {
      forall vs: seq<HidValue>
        ensures c in Pressed({}, Stream(d, vs)) <==> SomeControlHeld(d, c, vs)
      {
        LatestValueWins(d, c, vs);
        OneControlLatest(d, c, vs);
      }
    } else {
      var a, b :| Reports(d, a, c) && Reports(d, b, c) && a != b;
      ReportsAreControls(d, a, b, c);
      SharedCodeMisleads(d, c, a, b);
    }
  }

  lemma ReportsAreControls(d: Device, a: Control, b: Control, c: nat)
    requires Reports(d, a, c) && Reports(d, b, c)
    ensures IsControl(d, a) && IsControl(d, b)
  {
  }

  /**
   * The codes that several controls report: left Meta on a keyboard (Cmd and Globe), the middle
   * button on a pointer (every button past the second), and the touch button on a touch device
   * (every finger).
   */
  predicate IsShared(d: Device, c: nat) {
    || (d.isKeyboard && c == KEY_LEFTMETA)
    || (d.isPointer && c == BTN_MIDDLE)
    || (d.isTouch && c == BTN_TOUCH)
  }

  lemma SharedCodes(d: Device, c: nat)
    requires c != 0
    ensures OneControl(d, c) <==> !IsShared(d, c)
  {
    hide HidToLinuxKey;
    if d.isKeyboard && c == KEY_LEFTMETA {
      KeyCodesBelowButtons(0xE3);
      TwoControls(d, c, Control(PAGE_KEYBOARD, 0xE3, 0), Control(PAGE_APPLE_VENDOR, VENDOR_GLOBE, 0));
    } else if d.isPointer && c == BTN_MIDDLE {
      TwoControls(d, c, Control(PAGE_BUTTON, 3, 0), Control(PAGE_BUTTON, 4, 0));
    } else if d.isTouch && c == BTN_TOUCH {
      TwoControls(d, c, Control(PAGE_DIGITIZER, DIG_TIP_SWITCH, 0), Control(PAGE_DIGITIZER, DIG_TIP_SWITCH, 1));
    } else {
      forall a: Control, b: Control | Reports(d, a, c) && Reports(d, b, c)
        ensures a == b
      {
        SameControl(d, c, a, b);
      }
    }
  }

  lemma TwoControls(d: Device, c: nat, a: Control, b: Control)
    requires a != b && Reports(d, a, c) && Reports(d, b, c)
    ensures !OneControl(d, c)
  {
  }

  lemma SameControl(d: Device, c: nat, a: Control, b: Control)
    requires c != 0 && !IsShared(d, c) && Reports(d, a, c) && Reports(d, b, c)
    ensures a == b
  {
    hide HidToLinuxKey;
    KeyCodesBelowButtons(a.usage);
    KeyCodesBelowButtons(b.usage);
    if a.page == PAGE_KEYBOARD && b.page == PAGE_KEYBOARD {
      MappedUsagesDistinct(a.usage, b.usage);
    }
  }

  /** Every run, every device: releasing one control never releases another, for exactly the codes that are not shared. */
  lemma KeyStatesReconstructed(d: Device, c: nat)
    requires c != 0
    ensures Faithful(d, c) <==> !IsShared(d, c)
  {
    hide Faithful, OneControl;
    FaithfulExactly(d, c);
    SharedCodes(d, c);
  }
}
