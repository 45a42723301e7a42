/** Readers of the event stream: a multitouch type B decoder, a frame splitter, motion and single-touch readers. */
module EvdevDecode {
  import opened Words
  import opened InputCodes
  import opened HidKeys
  import opened Evdev

  // ---- multitouch (type B of the Linux multi-touch protocol) ---------------------------------

  /** ABS_MT_SLOT selects a slot, ABS_MT_POSITION_X and _Y write to the selected one. */
  function Apply(t: Touch, e: Event): (r: Touch)
    requires WellFormed(t)
    ensures WellFormed(r)
  {
    if e.kind != EV_ABS then t
    else if e.code == ABS_MT_SLOT then t.(slot := e.value)
    else if e.code == ABS_MT_POSITION_X && SlotInRange(t) then t.(x := t.x[t.slot := e.value])
    else if e.code == ABS_MT_POSITION_Y && SlotInRange(t) then t.(y := t.y[t.slot := e.value])
    else t
  }

  function Decode(t: Touch, es: seq<Event>): (r: Touch)
    requires WellFormed(t)
    ensures WellFormed(r)
    decreases es
  {
    if es == [] then t else Decode(Apply(t, es[0]), es[1..])
  }

  lemma {:induction false} DecodeConcat(t: Touch, a: seq<Event>, b: seq<Event>)
    requires WellFormed(t)
    ensures Decode(t, a + b) == Decode(Decode(t, a), b)
    decreases a
  {
    if a == [] {
      assert a + b == b;
    } else {
      assert (a + b)[1..] == a[1..] + b;
      DecodeConcat(Apply(t, a[0]), a[1..], b);
    }
  }

  /** A contact identifier selects one of the ten slots. */
  predicate GoodContact(d: Device, v: HidValue) {
    IsTouchValue(d, v) && v.usage == DIG_CONTACT_ID ==> 0 <= ContactSlot(v.value)
  }

  /** C's remainder keeps the sign: the slot is in range for non-negative identifiers and for multiples of ten. */
  lemma ContactSlotInRange(value: int64)
    ensures 0 <= ContactSlot(value) <==> ToInt32(value) >= 0 || ToInt32(value) % 10 == 0
  {
  }

  /**
   * Identifiers that fit 31 bits select their last decimal digit. In general `low` is the low word
   * as a signed number, and the slot is its remainder in C's division by ten.
   */
  lemma ContactSlotExactly(value: int64, low: int32, slot: int)
    requires (value - low) % TWO_32 == 0
    ensures 0 <= value < 0x8000_0000 ==> ContactSlot(value) == value % 10
    ensures slot == ContactSlot(value) <==>
              -10 < slot < 10 && (low - slot) % 10 == 0 && (slot > 0 ==> low > 0) && (slot < 0 ==> low < 0)
  {
    hide ToInt32, CRemainder;
    ToInt32Exactly(value, low);
    CRemainderExactly(low, 10, slot);
    if 0 <= value < 0x8000_0000 { CRemainderExactly(value, 10, value % 10); }
  }

  predicate GoodContacts(d: Device, vs: seq<HidValue>) {
    forall i :: 0 <= i < |vs| ==> GoodContact(d, vs[i])
  }

  function RunTouch(d: Device, vs: seq<HidValue>): (t: Touch)
    requires GoodContacts(d, vs)
    ensures WellFormed(t) && SlotInRange(t)
  {
    if vs == [] then NO_TOUCH
    else
      NextTouch(d, RunTouch(d, vs[..|vs| - 1]), vs[|vs| - 1])
  }

  lemma {:induction false} DecodeIgnores(t: Touch, es: seq<Event>)
    requires WellFormed(t) && forall i :: 0 <= i < |es| ==> es[i].kind != EV_ABS
    ensures Decode(t, es) == t
    decreases es
  {
    if es != [] {
      assert es[0].kind != EV_ABS;
      DecodeIgnores(t, es[1..]);
    }
  }

  lemma ValueDecoded(d: Device, t: Touch, v: HidValue)
    requires WellFormed(t) && SlotInRange(t)
    ensures Decode(t, Events(d, v)) == NextTouch(d, t, v)
  {
    hide HidToLinuxKey, ToInt32, CRemainder;
    var es := Events(d, v);
    if IsPosition(d, v) {
      assert es == [es[0]] + es[1..];
      assert es[1..] == [es[1], SYN];
      assert es[1..][1..] == [SYN];
      DecodeIgnores(Apply(t, es[0]), [SYN]);
    } else if IsTouchValue(d, v) && v.usage == DIG_CONTACT_ID {
      assert es[1..] == [SYN];
      DecodeIgnores(Apply(t, es[0]), [SYN]);
    } else {
      DecodeIgnores(t, es);
    }
  }

  /** The slot, and every contact's position, can be read back from the events of any run. */
  lemma {:induction false} TouchReconstructed(d: Device, vs: seq<HidValue>)
    requires GoodContacts(d, vs)
    ensures Decode(NO_TOUCH, Stream(d, vs)) == RunTouch(d, vs)
  {
    if vs != [] {
      var before, last := vs[..|vs| - 1], vs[|vs| - 1];
      TouchReconstructed(d, before);
      DecodeConcat(NO_TOUCH, Stream(d, before), Events(d, last));
      ValueDecoded(d, RunTouch(d, before), last);
    }
  }

  /** The latest coordinate of one axis that came while contact slot k was selected. */
  function LastPosition(d: Device, axis: uint32, k: int, vs: seq<HidValue>): int32 {
    if vs == [] then 0
    else
      var before, v := vs[..|vs| - 1], vs[|vs| - 1];
      if d.isTouch && v.page == PAGE_DIGITIZER && v.usage == axis && SlotAfter(d, before) == k then ToInt32(v.value)
      else LastPosition(d, axis, k, before)
  }

  /** The bridge's fields, read backwards from the run: a contact is where it was last reported. */
  lemma {:induction false} TouchIsLatest(d: Device, vs: seq<HidValue>, k: nat)
    requires GoodContacts(d, vs) && k < 10
    ensures var t := RunTouch(d, vs);
            t.slot == SlotAfter(d, vs) && t.x[k] == LastPosition(d, GD_X, k, vs) && t.y[k] == LastPosition(d, GD_Y, k, vs)
  {
    hide ContactSlot, ToInt32;
    if vs != [] { TouchIsLatest(d, vs[..|vs| - 1], k); }
  }

  // ---- frames --------------------------------------------------------------------------------

  /** The completed frames of a stream, each closed by SYN_REPORT (code 0); `open` is the frame begun before it. */
  function Frames(open: seq<Event>, es: seq<Event>): seq<seq<Event>>
    decreases es
  {
    if es == [] then []
    else if es[0].kind == EV_SYN && es[0].code == 0 then [open] + Frames([], es[1..])
    else Frames(open + [es[0]], es[1..])
  }

  predicate IsRelative(d: Device, v: HidValue) {
    v.page == PAGE_GENERIC_DESKTOP && d.isPointer && (v.usage == GD_X || v.usage == GD_Y || v.usage == GD_WHEEL)
  }

  /** The events of each value that has any, without the SYN that closes them. */
  function Bodies(d: Device, vs: seq<HidValue>): seq<seq<Event>> {
    if vs == [] then []
    else
      var es := Events(d, vs[0]);
      (if es == [] then [] else [es[..|es| - 1]]) + Bodies(d, vs[1..])
  }

  lemma {:induction false} FrameClosed(open: seq<Event>, body: seq<Event>, rest: seq<Event>)
    requires forall i :: 0 <= i < |body| ==> body[i].kind != EV_SYN
    ensures Frames(open, body + [SYN] + rest) == [open + body] + Frames([], rest)
    decreases body
  {
    var es := body + [SYN] + rest;
    if body == [] {
      assert es[1..] == rest && open + body == open;
    } else {
      assert es[1..] == body[1..] + [SYN] + rest;
      FrameClosed(open + [body[0]], body[1..], rest);
      assert open + [body[0]] + body[1..] == open + body;
    }
  }

  lemma OneSynAtEnd(d: Device, v: HidValue)
    ensures IsTouchValue(d, v) ==> Events(d, v) != []
    ensures !IsRelative(d, v) && Events(d, v) != [] ==>
              var es := Events(d, v);
              && es[|es| - 1] == SYN
              && forall i :: 0 <= i < |es| - 1 ==> es[i].kind != EV_SYN
  {
    hide HidToLinuxKey, ToInt32, CRemainder;
  }

  lemma {:induction false} StreamFromFirst(d: Device, vs: seq<HidValue>)
    requires vs != []
    ensures Stream(d, vs) == Events(d, vs[0]) + Stream(d, vs[1..])
  {
    hide Events;
    if |vs| == 1 {
      assert Stream(d, vs[..0]) == [];
    } else {
      StreamFromFirst(d, vs[..|vs| - 1]);
      assert vs[..|vs| - 1][1..] == vs[1..][..|vs| - 2];
    }
  }

  /**
   * The frames a run should give: relative motion waits in `open` for the next value that is not
   * relative motion and has events; that value closes the frame.
   */
  function Grouped(d: Device, open: seq<Event>, vs: seq<HidValue>): seq<seq<Event>>
    decreases vs
  {
    if vs == [] then []
    else
      var es := Events(d, vs[0]);
      if IsRelative(d, vs[0]) then Grouped(d, open + es, vs[1..])
      else if es == [] then Grouped(d, open, vs[1..])
      else [open + es[..|es| - 1]] + Grouped(d, [], vs[1..])
  }

  lemma GroupedFromFirst(d: Device, open: seq<Event>, vs: seq<HidValue>)
    requires vs != []
    ensures var es := Events(d, vs[0]);
            Grouped(d, open, vs) ==
            if IsRelative(d, vs[0]) then Grouped(d, open + es, vs[1..])
            else if es == [] then Grouped(d, open, vs[1..])
            else [open + es[..|es| - 1]] + Grouped(d, [], vs[1..])
  {
    hide Events;
  }

  /** The frames of every run, relative motion included. */
  lemma {:induction false} FramesOfRun(d: Device, open: seq<Event>, vs: seq<HidValue>)
    ensures Frames(open, Stream(d, vs)) == Grouped(d, open, vs)
    decreases vs
  {
    if vs != [] {
      hide Events, Frames, Stream, IsRelative, Grouped;
      StreamFromFirst(d, vs);
      GroupedFromFirst(d, open, vs);
      var es, rest := Events(d, vs[0]), Stream(d, vs[1..]);
      if IsRelative(d, vs[0]) {
        RelativeWaits(d, open, vs[0], rest);
        FramesOfRun(d, open + es, vs[1..]);
      } else {
        FirstFrame(d, open, vs[0], rest);
        FramesOfRun(d, if es == [] then open else [], vs[1..]);
      }
    } else {
      NoFrames(d, open);
    }
  }

  lemma FirstFrame(d: Device, open: seq<Event>, v: HidValue, rest: seq<Event>)
    requires !IsRelative(d, v)
    ensures var es := Events(d, v);
            Frames(open, es + rest) ==
            if es == [] then Frames(open, rest) else [open + es[..|es| - 1]] + Frames([], rest)
  {
    hide Events, Frames;
    OneSynAtEnd(d, v);
    var es := Events(d, v);
    if es == [] {
      assert es + rest == rest;
    } else {
      assert es + rest == es[..|es| - 1] + [SYN] + rest;
      FrameClosed(open, es[..|es| - 1], rest);
    }
  }

  lemma NoFrames(d: Device, open: seq<Event>)
    ensures Frames(open, Stream(d, [])) == []
  {
  }

  lemma RelativeWaits(d: Device, open: seq<Event>, v: HidValue, rest: seq<Event>)
    requires IsRelative(d, v)
    ensures |Events(d, v)| == 1
    ensures Frames(open, Events(d, v) + rest) == Frames(open + Events(d, v), rest)
  {
    hide HidToLinuxKey, ToInt32, CRemainder;
    var es := Events(d, v);
    assert (es + rest)[1..] == rest && es == [es[0]];
  }

  lemma {:induction false} GroupedWithoutMotion(d: Device, vs: seq<HidValue>)
    requires forall i :: 0 <= i < |vs| ==> !IsRelative(d, vs[i])
    ensures Grouped(d, [], vs) == Bodies(d, vs)
  {
    hide Events;
    if vs != [] {
      assert !IsRelative(d, vs[0]);
      var es := Events(d, vs[0]);
      assert es != [] ==> [] + es[..|es| - 1] == es[..|es| - 1];
      GroupedWithoutMotion(d, vs[1..]);
    }
  }

  /** Motion costs frames: a reader gets at most one frame for each value that is not relative motion. */
  lemma {:induction false} GroupedIsShorter(d: Device, open: seq<Event>, vs: seq<HidValue>)
    ensures |Grouped(d, open, vs)| <= |Bodies(d, vs)|
    ensures (exists i :: 0 <= i < |vs| && IsRelative(d, vs[i])) ==> |Grouped(d, open, vs)| < |Bodies(d, vs)|
    decreases vs
  {
    hide Events, IsRelative;
    if vs != [] {
      var es := Events(d, vs[0]);
      if IsRelative(d, vs[0]) { RelativeWaits(d, [], vs[0], []); }
      GroupedIsShorter(d, if IsRelative(d, vs[0]) then open + es else if es == [] then open else [], vs[1..]);
      if i :| 0 <= i < |vs| && IsRelative(d, vs[i]) {
        assert i > 0 ==> vs[1..][i - 1] == vs[i];
      }
    }
  }

  /** Every value with events is one frame of its own exactly in the runs without relative motion. */
  lemma OneFramePerValueExactly(d: Device, vs: seq<HidValue>)
    ensures Frames([], Stream(d, vs)) == Bodies(d, vs) <==> forall i :: 0 <= i < |vs| ==> !IsRelative(d, vs[i])
  {
    hide Events, Frames, Stream, IsRelative;
    FramesOfRun(d, [], vs);
    GroupedIsShorter(d, [], vs);
    if forall i :: 0 <= i < |vs| ==> !IsRelative(d, vs[i]) { GroupedWithoutMotion(d, vs); }
  }

  /** Each digitizer value is one frame, closed by exactly one SYN. */
  lemma {:induction false} DigitizerFrames(d: Device, vs: seq<HidValue>)
    requires forall i :: 0 <= i < |vs| ==> IsTouchValue(d, vs[i])
    ensures Frames([], Stream(d, vs)) == Bodies(d, vs) && |Bodies(d, vs)| == |vs|
  {
    OneFramePerValueExactly(d, vs);
    if vs != [] {
      hide Events, Frames, Stream;
      assert IsTouchValue(d, vs[0]);
      OneSynAtEnd(d, vs[0]);
      DigitizerFrames(d, vs[1..]);
    }
  }

  /** Motion alone completes no frame, so a reader hears of it only with the next other value. */
  lemma {:induction false} MotionAloneUnseen(d: Device, open: seq<Event>, vs: seq<HidValue>)
    requires forall i :: 0 <= i < |vs| ==> IsRelative(d, vs[i])
    ensures Grouped(d, open, vs) == [] == Frames(open, Stream(d, vs))
    decreases vs
  {
    FramesOfRun(d, open, vs);
    if vs != [] {
      hide Events, Frames, Stream;
      assert IsRelative(d, vs[0]);
      MotionAloneUnseen(d, open + Events(d, vs[0]), vs[1..]);
    }
  }

  // ---- motion and the single-touch axes ------------------------------------------------------

  /** What a reader of relative axis `code` adds up. */
  function Travel(code: nat, es: seq<Event>): int {
    if es == [] then 0
    else Travel(code, es[..|es| - 1]) + if es[|es| - 1].kind == EV_REL && es[|es| - 1].code == code then es[|es| - 1].value else 0
  }

  function AxisUsage(code: nat): uint32 {
    if code == REL_X then GD_X else if code == REL_Y then GD_Y else GD_WHEEL
  }

  /** What the device reported for the axis. */
  function Moved(d: Device, code: nat, vs: seq<HidValue>): int {
    if vs == [] then 0
    else
      var v := vs[|vs| - 1];
      Moved(d, code, vs[..|vs| - 1]) + if IsRelative(d, v) && v.usage == AxisUsage(code) then ToInt32(v.value) else 0
  }

  /** The sum of what the device reported for the axis, on unbounded integers. */
  function Reported(d: Device, code: nat, vs: seq<HidValue>): int {
    if vs == [] then 0
    else
      var v := vs[|vs| - 1];
      Reported(d, code, vs[..|vs| - 1]) + if IsRelative(d, v) && v.usage == AxisUsage(code) then v.value else 0
  }

  predicate FitsInt32(d: Device, v: HidValue) { IsRelative(d, v) ==> -0x8000_0000 <= v.value < 0x8000_0000 }

  /** The 32-bit events lose nothing while every report fits, and nothing modulo 2^32 in any run. */
  lemma {:induction false} MovedIsReported(d: Device, code: nat, vs: seq<HidValue>)
    ensures (Reported(d, code, vs) - Moved(d, code, vs)) % TWO_32 == 0
    ensures (forall i :: 0 <= i < |vs| ==> FitsInt32(d, vs[i])) ==> Moved(d, code, vs) == Reported(d, code, vs)
  {
    hide ToInt32, AxisUsage;
    if vs != [] {
      var before, v := vs[..|vs| - 1], vs[|vs| - 1];
      MovedIsReported(d, code, before);
      ToInt32Exactly(v.value, ToInt32(v.value));
      SumOfMultiples(Reported(d, code, before) - Moved(d, code, before), v.value - ToInt32(v.value));
      if forall i :: 0 <= i < |vs| ==> FitsInt32(d, vs[i]) {
        assert FitsInt32(d, v) && forall i :: 0 <= i < |before| ==> before[i] == vs[i];
      }
    }
  }

  lemma SumOfMultiples(a: int, b: int)
    requires a % TWO_32 == 0 && b % TWO_32 == 0
    ensures (a + b) % TWO_32 == 0
  {
  }

  lemma {:induction false} TravelConcat(code: nat, a: seq<Event>, b: seq<Event>)
    ensures Travel(code, a + b) == Travel(code, a) + Travel(code, b)
  {
    if b == [] {
      assert a + b == a;
    } else {
      assert (a + b)[..|a + b| - 1] == a + b[..|b| - 1];
      TravelConcat(code, a, b[..|b| - 1]);
    }
  }

  lemma {:induction false} NoTravel(code: nat, es: seq<Event>)
    requires forall i :: 0 <= i < |es| ==> es[i].kind != EV_REL
    ensures Travel(code, es) == 0
  {
    if es != [] { NoTravel(code, es[..|es| - 1]); }
  }

  lemma ValueTravels(d: Device, code: nat, v: HidValue)
    requires code == REL_X || code == REL_Y || code == REL_WHEEL
    ensures Travel(code, Events(d, v)) ==
            if IsRelative(d, v) && v.usage == AxisUsage(code) then ToInt32(v.value) else 0
  {
    hide HidToLinuxKey, ToInt32, CRemainder;
    var es := Events(d, v);
    if IsRelative(d, v) {
      assert |es| == 1 && es[..0] == [];
    } else {
      NoTravel(code, es);
    }
  }

  /** On each relative axis a reader's total is the total the device reported. */
  lemma {:induction false} MotionConserved(d: Device, code: nat, vs: seq<HidValue>)
    requires code == REL_X || code == REL_Y || code == REL_WHEEL
    ensures Travel(code, Stream(d, vs)) == Moved(d, code, vs)
  {
    hide Events;
    if vs != [] {
      var before, last := vs[..|vs| - 1], vs[|vs| - 1];
      MotionConserved(d, code, before);
      TravelConcat(code, Stream(d, before), Events(d, last));
      ValueTravels(d, code, last);
    }
  }

  /** The last value of absolute axis `code` that a single-touch reader saw. */
  function LastAbs(code: nat, start: int32, es: seq<Event>): int32 {
    if es == [] then start
    else if es[|es| - 1].kind == EV_ABS && es[|es| - 1].code == code then es[|es| - 1].value
    else LastAbs(code, start, es[..|es| - 1])
  }

  /** The last coordinate the digitizer reported, whatever the contact. */
  function LastReported(d: Device, usage: uint32, vs: seq<HidValue>): int32 {
    if vs == [] then 0
    else if IsTouchValue(d, vs[|vs| - 1]) && vs[|vs| - 1].usage == usage then ToInt32(vs[|vs| - 1].value)
    else LastReported(d, usage, vs[..|vs| - 1])
  }

  lemma {:induction false} LastAbsConcat(code: nat, start: int32, a: seq<Event>, b: seq<Event>)
    ensures LastAbs(code, start, a + b) == LastAbs(code, LastAbs(code, start, a), b)
  {
    if b == [] {
      assert a + b == a;
    } else {
      assert (a + b)[..|a + b| - 1] == a + b[..|b| - 1];
      LastAbsConcat(code, start, a, b[..|b| - 1]);
    }
  }

  lemma {:induction false} LastAbsKept(code: nat, start: int32, es: seq<Event>)
    requires forall i :: 0 <= i < |es| ==> es[i].kind != EV_ABS || es[i].code != code
    ensures LastAbs(code, start, es) == start
  {
    if es != [] { LastAbsKept(code, start, es[..|es| - 1]); }
  }

  lemma ValueReported(d: Device, code: nat, start: int32, v: HidValue)
    requires code == ABS_X || code == ABS_Y
    ensures LastAbs(code, start, Events(d, v)) ==
            if IsTouchValue(d, v) && v.usage == (if code == ABS_X then GD_X else GD_Y) then ToInt32(v.value) else start
  {
    hide HidToLinuxKey, ToInt32, CRemainder, LastAbs;
    var es := Events(d, v);
    if IsTouchValue(d, v) && v.usage == (if code == ABS_X then GD_X else GD_Y) {
      assert es == es[..1] + [Event(EV_ABS, code, ToInt32(v.value)), SYN];
      LastAbsSeen(code, start, es[..1], ToInt32(v.value));
    } else {
      LastAbsKept(code, start, es);
    }
  }

  lemma LastAbsSeen(code: nat, start: int32, es: seq<Event>, value: int32)
    ensures LastAbs(code, start, es + [Event(EV_ABS, code, value), SYN]) == value
  {
    var all := es + [Event(EV_ABS, code, value), SYN];
    assert all[|all| - 1] == SYN && all[..|all| - 1] == es + [Event(EV_ABS, code, value)];
  }

  /** A single-touch reader has the digitizer's latest coordinates. */
  lemma {:induction false} SingleTouchFollows(d: Device, code: nat, vs: seq<HidValue>)
    requires code == ABS_X || code == ABS_Y
    ensures LastAbs(code, 0, Stream(d, vs)) == LastReported(d, if code == ABS_X then GD_X else GD_Y, vs)
  {
    hide Events, ToInt32;
    if vs != [] {
      var before, last := vs[..|vs| - 1], vs[|vs| - 1];
      SingleTouchFollows(d, code, before);
      LastAbsConcat(code, 0, Stream(d, before), Events(d, last));
      ValueReported(d, code, LastAbs(code, 0, Stream(d, before)), last);
    }
  }
}
