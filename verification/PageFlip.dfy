/**
 * Double buffering over one surface: lock a buffer, show it with ADDFB and SETCRTC, release it.
 * Other clients may run any request that neither sets the CRTC nor closes the surface's handles.
 */
module PageFlip {
  import opened Words
  import opened DrmTable
  import Gbm

  datatype Op = Lock | Present(shown: bool) | Release | Other(r: Request)

  datatype Client = Client(front: int, locked: bool, drm: Drm)

  function Handle(h0: uint32, h1: uint32, index: int): uint32 { if index == 0 then h0 else h1 }

  /** Presenting shows the locked front buffer; before the first lock there is nothing to present. */
  function Step(c: Client, h0: uint32, h1: uint32, op: Op): Client {
    match op
    case Lock => c.(front := Gbm.BackIndex(c.front), locked := true)
    case Present(shown) =>
      if c.front == -1 then c
      else
        var (t, fb) := DrmTable.Step(c.drm, AddFb(Handle(h0, h1, c.front)));
        c.(drm := DrmTable.Step(t, SetCrtc(fb.fbId, shown)).0)
    case Release => c.(locked := false)
    case Other(r) => c.(drm := DrmTable.Step(c.drm, r).0)
  }

  function Run(c: Client, h0: uint32, h1: uint32, ops: seq<Op>): Client {
    if ops == [] then c else Step(Run(c, h0, h1, ops[..|ops| - 1]), h0, h1, ops[|ops| - 1])
  }

  /** How many locks the run made, and how many of them came before its latest presentation. */
  function Locks(ops: seq<Op>): nat {
    if ops == [] then 0 else Locks(ops[..|ops| - 1]) + if ops[|ops| - 1].Lock? then 1 else 0
  }

  function LocksAtPresent(ops: seq<Op>): nat {
    if ops == [] then 0
    else if ops[|ops| - 1].Present? then Locks(ops)
    else LocksAtPresent(ops[..|ops| - 1])
  }

  predicate Harmless(r: Request, h0: uint32, h1: uint32) {
    !Closes(r, h0) && !Closes(r, h1) && !(r.SetCrtc? && r.fbId != 0)
  }

  /** A new surface that owns two live buffers; the CRTC may show anything, one of their handles included. */
  ghost predicate Start(c: Client, h0: uint32, h1: uint32) {
    && c.front == -1 && h0 != h1
    && 1 <= h0 <= MAX_DUMB_BOS && 1 <= h1 <= MAX_DUMB_BOS
    && h0 in c.drm.bufs && h1 in c.drm.bufs
  }

  ghost predicate AllHarmless(ops: seq<Op>, h0: uint32, h1: uint32) {
    forall i :: 0 <= i < |ops| && ops[i].Other? ==> Harmless(ops[i].r, h0, h1)
  }

  lemma {:induction false} RunFacts(c: Client, h0: uint32, h1: uint32, ops: seq<Op>)
    requires Start(c, h0, h1) && AllHarmless(ops, h0, h1)
    ensures var d := Run(c, h0, h1, ops);
            && d.front == (if Locks(ops) == 0 then -1 else (Locks(ops) - 1) % 2)
            && h0 in d.drm.bufs && h1 in d.drm.bufs
            && LocksAtPresent(ops) <= Locks(ops)
            && d.drm.current == (if LocksAtPresent(ops) == 0 then c.drm.current
                                 else Handle(h0, h1, (LocksAtPresent(ops) - 1) % 2))
  {
    if ops != [] {
      RunFacts(c, h0, h1, ops[..|ops| - 1]);
      var d, op := Run(c, h0, h1, ops[..|ops| - 1]), ops[|ops| - 1];
      if op.Other? {
        assert Harmless(op.r, h0, h1);
        HarmlessKeeps(d.drm, op.r, h0, h1);
      }
    }
  }

  lemma HarmlessKeeps(s: Drm, r: Request, h0: uint32, h1: uint32)
    requires Harmless(r, h0, h1) && h0 in s.bufs && h1 in s.bufs
    ensures var t := DrmTable.Step(s, r).0; h0 in t.bufs && h1 in t.bufs && t.current == s.current
  {
    hide NewBuffer, LowestFree;
    LowestFreeIs(s.bufs);
  }

  /** The front buffer of a run depends on the number of locks alone. */
  lemma {:induction false} FrontAfter(c: Client, h0: uint32, h1: uint32, ops: seq<Op>)
    requires c.front == -1
    ensures Run(c, h0, h1, ops).front == if Locks(ops) == 0 then -1 else (Locks(ops) - 1) % 2
  {
    if ops != [] {
      FrontAfter(c, h0, h1, ops[..|ops| - 1]);
    }
  }

  /** The n-th lock of any run, counting from 0, hands out buffer n mod 2, whatever other clients do. */
  lemma {:induction false} NthLock(c: Client, h0: uint32, h1: uint32, ops: seq<Op>)
    requires c.front == -1
    ensures Step(Run(c, h0, h1, ops), h0, h1, Lock).front == Locks(ops) % 2
  {
    FrontAfter(c, h0, h1, ops);
  }

  /** The buffer the next lock would hand out is the one GETCRTC reports. */
  ghost predicate NextOnScreen(c: Client, h0: uint32, h1: uint32) {
    DrmTable.Step(c.drm, GetCrtc).1 == Framebuffer(Handle(h0, h1, Step(c, h0, h1, Lock).front))
  }

  /**
   * After any run the next lock hands out the buffer on screen exactly when an odd number of locks
   * went unpresented since the latest presentation; and before any presentation, exactly when the
   * id that was current at the start is that buffer's handle.
   */
  lemma {:induction false} NextLockOnScreenExactly(c: Client, h0: uint32, h1: uint32, ops: seq<Op>)
    requires Start(c, h0, h1) && AllHarmless(ops, h0, h1)
    ensures NextOnScreen(Run(c, h0, h1, ops), h0, h1) <==>
            if LocksAtPresent(ops) > 0 then (Locks(ops) - LocksAtPresent(ops)) % 2 == 1
            else c.drm.current == Handle(h0, h1, Locks(ops) % 2)
  {
    RunFacts(c, h0, h1, ops);
  }

  /**
   * A client that presents every locked buffer before it locks the next is handed the buffer on
   * screen in one case only: at its first lock, when the start id is the first buffer's handle.
   */
  lemma {:induction false} DisciplinedClientTearsExactly(c: Client, h0: uint32, h1: uint32, ops: seq<Op>)
    requires Start(c, h0, h1) && AllHarmless(ops, h0, h1)
    requires Locks(ops) > 0 ==> LocksAtPresent(ops) == Locks(ops)
    ensures NextOnScreen(Run(c, h0, h1, ops), h0, h1) <==> Locks(ops) == 0 && c.drm.current == h0
  {
    RunFacts(c, h0, h1, ops);
    NextLockOnScreenExactly(c, h0, h1, ops);
  }

  /**
   * That case is reachable: a surface whose first buffer was shown, destroyed and created again
   * gets the same two handles, while the reported id is not cleared.
   */
  lemma RecreatedSurfaceOnScreen(s: Drm, w: uint32, h: uint32, shown: bool)
    requires LowestFree(s.bufs) != 0 && LowestFree(Gbm.AfterAlloc(s, w, h).bufs) != 0
    ensures var h0, h1 := LowestFree(s.bufs), LowestFree(Gbm.AfterAlloc(s, w, h).bufs);
            var t := Show(Gbm.AfterAlloc(Gbm.AfterAlloc(s, w, h), w, h), h0, shown).0;
            var u := Close(Close(t, h0), h1);
            && LowestFree(u.bufs) == h0 && LowestFree(Gbm.AfterAlloc(u, w, h).bufs) == h1
            && var c := Client(-1, false, Gbm.AfterAlloc(Gbm.AfterAlloc(u, w, h), w, h));
               Start(c, h0, h1) && NextOnScreen(c, h0, h1)
  {
    hide NewBuffer, LowestFree;
    Gbm.SurfaceRoundTrip(s, w, h);
    LowestFreeIs(s.bufs);
    LowestFreeIs(Gbm.AfterAlloc(s, w, h).bufs);
    var h0, h1 := LowestFree(s.bufs), LowestFree(Gbm.AfterAlloc(s, w, h).bufs);
    var t := Show(Gbm.AfterAlloc(Gbm.AfterAlloc(s, w, h), w, h), h0, shown).0;
    var u := Close(Close(t, h0), h1);
    assert u == s.(current := h0);
  }

  /** On the started device: two creates, SETCRTC 1, two closes, two creates, and the first lock is on screen. */
  lemma RecreatedFromEmpty(w: uint32, h: uint32)
    ensures var create := CreateDumb(w, h, 32, true);
            var s := DrmTable.Run(EMPTY_TABLE, [create, create, SetCrtc(1, true), GemClose(1), GemClose(2), create, create]);
            Start(Client(-1, false, s), 1, 2) && NextOnScreen(Client(-1, false, s), 1, 2)
  {
    hide NewBuffer;
    var create := CreateDumb(w, h, 32, true);
    var rs := [create, create, SetCrtc(1, true), GemClose(1), GemClose(2), create, create];
    var b := NewBuffer(w, h, 32);
    assert rs[..6][..5] == rs[..5] && rs[..5][..4] == rs[..4] && rs[..4][..3] == rs[..3] && rs[..3][..2] == rs[..2]
           && rs[..2][..1] == rs[..1] && rs[..1][..0] == [];
    assert DrmTable.Run(EMPTY_TABLE, rs[..1]) == Drm(map[1 := b], 0);
    assert DrmTable.Run(EMPTY_TABLE, rs[..2]) == Drm(map[1 := b, 2 := b], 0);
    assert DrmTable.Run(EMPTY_TABLE, rs[..3]) == Drm(map[1 := b, 2 := b], 1);
    assert DrmTable.Run(EMPTY_TABLE, rs[..4]) == Drm(map[2 := b], 1);
    assert DrmTable.Run(EMPTY_TABLE, rs[..5]) == Drm(map[], 1);
    assert DrmTable.Run(EMPTY_TABLE, rs[..6]) == Drm(map[1 := b], 1);
  }

  /** Buffers handed out and not yet given back. */
  function Held(ops: seq<Op>): nat {
    if ops == [] then 0
    else
      var n := Held(ops[..|ops| - 1]);
      match ops[|ops| - 1]
      case Lock => n + 1
      case Release => if n > 0 then n - 1 else 0
      case _ => n
  }

  /** Every lock comes when has_free_buffers says yes. */
  ghost predicate AsksFirst(c: Client, h0: uint32, h1: uint32, ops: seq<Op>) {
    forall i :: 0 <= i < |ops| && ops[i].Lock? ==> !Run(c, h0, h1, ops[..i]).locked
  }

  /**
   * A client that locks only when has_free_buffers says so holds at most one buffer, and none
   * exactly when has_free_buffers says so.
   */
  lemma {:induction false} AtMostOneHeld(c: Client, h0: uint32, h1: uint32, ops: seq<Op>)
    requires !c.locked && AsksFirst(c, h0, h1, ops)
    ensures Held(ops) == if Run(c, h0, h1, ops).locked then 1 else 0
  {
    if ops != [] {
      var before := ops[..|ops| - 1];
      forall i | 0 <= i < |before| && before[i].Lock?
        ensures !Run(c, h0, h1, before[..i]).locked
      {
        assert before[..i] == ops[..i];
      }
      AtMostOneHeld(c, h0, h1, before);
    }
  }
}
