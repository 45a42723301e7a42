/**
 * What a client of /dev/dri/card0 sees: a finite map from handles to buffers, and the id that
 * GETCRTC reports. Every ioctl is one atomic step of this machine.
 */
module DrmTable {
  import opened Words
  import Pitch

  const MAX_DUMB_BOS: uint32 := 256

  datatype Buffer = Buffer(width: uint32, height: uint32, bpp: uint32, pitch: uint32, bytes: seq<uint8>)

  datatype Drm = Drm(bufs: map<uint32, Buffer>, current: uint32)

  datatype Errno = ENOMEM | EINVAL | EIO | ENXIO

  /**
   * The requests of a run. `memory` says whether the descriptor allocation succeeds, `shown`
   * whether the copy to the display does. `Store` is a client writing one byte through a mapping.
   */
  datatype Request =
    | CreateDumb(width: uint32, height: uint32, bpp: uint32, memory: bool)
    | MapDumb(handle: uint32)
    | DestroyDumb(handle: uint32)
    | GemClose(handle: uint32)
    | AddFb(handle: uint32)
    | SetCrtc(fbId: uint32, shown: bool)
    | GetCrtc
    | Store(handle: uint32, offset: nat, value: uint8)

  datatype Reply =
    | Failed(errno: Errno)
    | Done
    | Created(handle: uint32, pitch: uint32, size: uint64)
    | MappedAt(offset: uint64)
    | Framebuffer(fbId: uint32)

  const EMPTY_TABLE := Drm(map[], 0)

  /** The smallest handle in from..256 that names no buffer, or 0. */
  function FirstFree(bufs: map<uint32, Buffer>, from: uint32): (h: uint32)
    requires 1 <= from <= MAX_DUMB_BOS + 1
    ensures h == 0 || (from <= h <= MAX_DUMB_BOS && h !in bufs)
    ensures forall k: uint32 :: from <= k <= MAX_DUMB_BOS && (h == 0 || k < h) ==> k in bufs
    decreases MAX_DUMB_BOS + 1 - from
  {
    if from > MAX_DUMB_BOS then 0
    else if from !in bufs then from
    else FirstFree(bufs, from + 1)
  }

  function LowestFree(bufs: map<uint32, Buffer>): uint32 { FirstFree(bufs, 1) }

  function BufferSize(pitch: uint32, height: uint32): uint64 {
    ProductFits(pitch, height);
    pitch * height
  }

  lemma ProductFits(a: uint32, b: uint32)
    ensures 0 <= a * b < TWO_64
  {
    MulMonotone(a, 0, b);
    MulMonotone(a, b, TWO_32 - 1);
    assert a * (TWO_32 - 1) < TWO_64;
  }

  function NewBuffer(width: uint32, height: uint32, bpp: uint32): Buffer {
    var pitch := Pitch.KernelPitch(width, bpp);
    Buffer(width, height, Pitch.EffectiveBpp(bpp), pitch, seq(BufferSize(pitch, height), _ => 0))
  }

  function Create(s: Drm, width: uint32, height: uint32, bpp: uint32, memory: bool): (Drm, Reply) {
    var h := LowestFree(s.bufs);
    if h == 0 || !memory then (s, Failed(ENOMEM))
    else
      var b := NewBuffer(width, height, bpp);
      (s.(bufs := s.bufs[h := b]), Created(h, b.pitch, BufferSize(b.pitch, height)))
  }

  function Map(s: Drm, handle: uint32): Reply {
    if handle in s.bufs then MappedAt(ShiftLeft64(handle, 22)) else Failed(EINVAL)
  }

  function Close(s: Drm, handle: uint32): Drm { s.(bufs := s.bufs - {handle}) }

  function Show(s: Drm, fbId: uint32, shown: bool): (Drm, Reply) {
    if fbId == 0 then (s, Done)
    else if fbId !in s.bufs then (s, Failed(EINVAL))
    else (s.(current := fbId), if shown then Done else Failed(EIO))
  }

  function Write(s: Drm, handle: uint32, offset: nat, value: uint8): Drm {
    if handle in s.bufs && offset < |s.bufs[handle].bytes| then
      var b := s.bufs[handle];
      s.(bufs := s.bufs[handle := b.(bytes := b.bytes[offset := value])])
    else s
  }

  function Step(s: Drm, r: Request): (Drm, Reply) {
    match r
    case CreateDumb(w, h, bpp, memory) => Create(s, w, h, bpp, memory)
    case MapDumb(h) => (s, Map(s, h))
    case DestroyDumb(h) => (Close(s, h), Done)
    case GemClose(h) => (Close(s, h), Done)
    case AddFb(h) => (s, Framebuffer(h))
    case SetCrtc(f, shown) => Show(s, f, shown)
    case GetCrtc => (s, Framebuffer(s.current))
    case Store(h, o, v) => (Write(s, h, o, v), Done)
  }

  /** The table after a run, latest request last. */
  function Run(s: Drm, rs: seq<Request>): Drm {
    if rs == [] then s else Step(Run(s, rs[..|rs| - 1]), rs[|rs| - 1]).0
  }

  /** The replies of a run. */
  function Replies(s: Drm, rs: seq<Request>): seq<Reply> {
    if rs == [] then []
    else Replies(s, rs[..|rs| - 1]) + [Step(Run(s, rs[..|rs| - 1]), rs[|rs| - 1]).1]
  }

  function Creations(replies: seq<Reply>): nat {
    if replies == [] then 0
    else Creations(replies[..|replies| - 1]) + if replies[|replies| - 1].Created? then 1 else 0
  }

  ghost predicate Inv(s: Drm) {
    forall h: uint32 :: h in s.bufs ==>
      && 1 <= h <= MAX_DUMB_BOS
      && var b := s.bufs[h];
         && b.pitch == Pitch.KernelPitch(b.width, b.bpp)
         && |b.bytes| == b.pitch * b.height
  }

  lemma StepInv(s: Drm, r: Request)
    requires Inv(s)
    ensures Inv(Step(s, r).0)
  {
  }

  /** In every reachable table handles are in 1..256 and every buffer has pitch * height bytes. */
  lemma {:induction false} RunInv(s: Drm, rs: seq<Request>)
    requires Inv(s)
    ensures Inv(Run(s, rs))
  {
    if rs != [] {
      RunInv(s, rs[..|rs| - 1]);
      StepInv(Run(s, rs[..|rs| - 1]), rs[|rs| - 1]);
    }
  }

  lemma LowestFreeIs(bufs: map<uint32, Buffer>)
    ensures var l := LowestFree(bufs);
            && (l == 0 <==> forall h: uint32 :: 1 <= h <= MAX_DUMB_BOS ==> h in bufs)
            && (l != 0 ==> l <= MAX_DUMB_BOS && l !in bufs && forall h: uint32 :: 1 <= h < l ==> h in bufs)
  {
  }

  /** A created buffer takes the smallest absent handle, is all zero, and closing it restores the table. */
  lemma CloseUndoesCreate(s: Drm, width: uint32, height: uint32, bpp: uint32, memory: bool)
    requires Inv(s)
    ensures var (t, reply) := Create(s, width, height, bpp, memory);
            if !memory || forall h: uint32 :: 1 <= h <= MAX_DUMB_BOS ==> h in s.bufs then
              t == s && reply == Failed(ENOMEM)
            else
              && reply.Created? && reply.handle !in s.bufs && t.bufs.Keys == s.bufs.Keys + {reply.handle}
              && (forall h: uint32 :: 1 <= h < reply.handle ==> h in s.bufs)
              && (forall i :: 0 <= i < |t.bufs[reply.handle].bytes| ==> t.bufs[reply.handle].bytes[i] == 0)
              && reply.size == |t.bufs[reply.handle].bytes|
              && Close(t, reply.handle) == s
  {
    hide Pitch.KernelPitch, LowestFree, BufferSize;
    LowestFreeIs(s.bufs);
    var h := LowestFree(s.bufs);
    if h != 0 && memory {
      var t := Create(s, width, height, bpp, memory).0;
      assert Close(t, h).bufs == s.bufs;
    }
  }

  lemma LowestFreeWithout(bufs: map<uint32, Buffer>, h: uint32)
    requires h in bufs && 1 <= h <= MAX_DUMB_BOS
    ensures 1 <= LowestFree(bufs - {h}) <= h
    ensures LowestFree(bufs - {h}) == h <==> forall k: uint32 :: 1 <= k < h ==> k in bufs
  {
    var rest := bufs - {h};
    var l := LowestFree(rest);
    assert h !in rest;
    assert forall k: uint32 :: 1 <= k < l ==> k in rest;
    if l < h {
      assert l !in bufs;
    } else {
      forall k: uint32 | 1 <= k < h
        ensures k in bufs
      {
        assert k in rest;
      }
    }
  }

  /** A closed handle is the next one handed out exactly when every smaller handle is live. */
  lemma ReuseAfterClose(s: Drm, h: uint32, width: uint32, height: uint32, bpp: uint32)
    requires h in s.bufs && 1 <= h <= MAX_DUMB_BOS
    ensures var reply := Create(Close(s, h), width, height, bpp, true).1;
            && reply.Created?
            && reply.handle <= h
            && (reply.handle == h <==> forall k: uint32 :: 1 <= k < h ==> k in s.bufs)
  {
    hide Pitch.KernelPitch, LowestFree;
    LowestFreeWithout(s.bufs, h);
  }

  predicate Touches(r: Request, h: uint32) {
    match r
    case DestroyDumb(k) => k == h
    case GemClose(k) => k == h
    case Store(k, _, _) => k == h
    case _ => false
  }

  predicate Closes(r: Request, h: uint32) { Touches(r, h) && !r.Store? }

  /** The bytes of buffer h if nothing but the stores addressed to it mattered. */
  function StoredBytes(bytes: seq<uint8>, h: uint32, rs: seq<Request>): seq<uint8> {
    if rs == [] then bytes
    else
      var before := StoredBytes(bytes, h, rs[..|rs| - 1]);
      var r := rs[|rs| - 1];
      if r.Store? && r.handle == h && r.offset < |before| then before[r.offset := r.value] else before
  }

  /**
   * Isolation: as long as nobody closes h, its geometry never changes and its bytes depend on the
   * stores addressed to h alone, whatever creates, closes, blits and stores surround them.
   */
  lemma {:induction false} BufferIsolated(s: Drm, h: uint32, rs: seq<Request>)
    requires h in s.bufs && 1 <= h <= MAX_DUMB_BOS
    requires forall i :: 0 <= i < |rs| ==> !Closes(rs[i], h)
    ensures var t := Run(s, rs);
            && h in t.bufs
            && t.bufs[h] == s.bufs[h].(bytes := StoredBytes(s.bufs[h].bytes, h, rs))
  {
    if rs != [] {
      BufferIsolated(s, h, rs[..|rs| - 1]);
      assert !Closes(rs[|rs| - 1], h);
    }
  }

  /** Request i is a SETCRTC with a non-zero id that named a live buffer when it came. */
  ghost predicate ShowsAt(s: Drm, rs: seq<Request>, i: nat)
    requires i < |rs|
  {
    rs[i].SetCrtc? && rs[i].fbId != 0 && rs[i].fbId in Run(s, rs[..i]).bufs
  }

  /** GETCRTC reports the latest id that a SETCRTC found live, failed blits and later closes included. */
  lemma {:induction false} CurrentIsLastShown(s: Drm, rs: seq<Request>, i: nat)
    requires i < |rs| && ShowsAt(s, rs, i)
    requires forall j :: i < j < |rs| ==> !ShowsAt(s, rs, j)
    ensures Step(Run(s, rs), GetCrtc).1 == Framebuffer(rs[i].fbId)
    decreases |rs|
  {
    var before := rs[..|rs| - 1];
    assert rs[..|rs| - 1] == before;
    if i < |rs| - 1 {
      assert !ShowsAt(s, rs, |rs| - 1);
      assert before[..i] == rs[..i];
      forall j | i < j < |before|
        ensures !ShowsAt(s, before, j)
      {
        assert before[..j] == rs[..j];
        assert !ShowsAt(s, rs, j);
      }
      CurrentIsLastShown(s, before, i);
    }
  }

  lemma {:induction false} CurrentIsInitial(s: Drm, rs: seq<Request>)
    requires forall j :: 0 <= j < |rs| ==> !ShowsAt(s, rs, j)
    ensures Run(s, rs).current == s.current
  {
    if rs != [] {
      var before := rs[..|rs| - 1];
      assert !ShowsAt(s, rs, |rs| - 1);
      forall j | 0 <= j < |before|
        ensures !ShowsAt(s, before, j)
      {
        assert before[..j] == rs[..j];
        assert !ShowsAt(s, rs, j);
      }
      CurrentIsInitial(s, before);
    }
  }

  ghost predicate CurrentIsLive(s: Drm) { s.current == 0 || s.current in s.bufs }

  /** The one step after which GETCRTC names no buffer is the close of the buffer it names. */
  lemma CurrentDanglesExactly(s: Drm, r: Request)
    requires Inv(s) && CurrentIsLive(s)
    ensures CurrentIsLive(Step(s, r).0) <==> !(s.current != 0 && Closes(r, s.current))
  {
  }

  /** Request i created the buffer with handle h. */
  ghost predicate CreatesAt(s: Drm, rs: seq<Request>, h: uint32, i: nat)
    requires i < |rs|
  {
    Step(Run(s, rs[..i]), rs[i]).1.Created? && Step(Run(s, rs[..i]), rs[i]).1.handle == h
  }

  /** The request that created the present buffer h, or -1: a buffer's identity, since handles are reused. */
  ghost function Born(s: Drm, rs: seq<Request>, h: uint32): (i: int)
    ensures -1 <= i < |rs|
  {
    if rs == [] then -1
    else if CreatesAt(s, rs, h, |rs| - 1) then |rs| - 1
    else Born(s, rs[..|rs| - 1], h)
  }

  lemma CreatesWhenAbsent(s: Drm, r: Request, h: uint32)
    ensures var (t, reply) := Step(s, r);
            && (h in t.bufs <==> (h in s.bufs && !Closes(r, h)) || (reply.Created? && reply.handle == h))
            && (reply.Created? && reply.handle == h ==> h !in s.bufs)
  {
    hide Pitch.KernelPitch, LowestFree, BufferSize;
    LowestFreeIs(s.bufs);
  }

  lemma BornStep(s: Drm, rs: seq<Request>, h: uint32)
    requires rs != []
    ensures var before, last := rs[..|rs| - 1], rs[|rs| - 1];
            && (h in Run(s, rs).bufs <==>
                  (h in Run(s, before).bufs && !Closes(last, h)) || CreatesAt(s, rs, h, |rs| - 1))
            && (CreatesAt(s, rs, h, |rs| - 1) ==> h !in Run(s, before).bufs && Born(s, rs, h) == |rs| - 1)
            && (!CreatesAt(s, rs, h, |rs| - 1) ==> Born(s, rs, h) == Born(s, before, h))
  {
    CreatesWhenAbsent(Run(s, rs[..|rs| - 1]), rs[|rs| - 1], h);
    hide Step, Closes;
  }

  /** After the run, h names the very buffer it named after the first i requests. */
  ghost predicate SameBuffer(s: Drm, rs: seq<Request>, h: uint32, i: nat)
    requires i <= |rs|
  {
    h in Run(s, rs).bufs && Born(s, rs, h) == Born(s, rs[..i], h)
  }

  predicate ClosedSince(rs: seq<Request>, h: uint32, i: nat) {
    exists j :: i <= j < |rs| && Closes(rs[j], h)
  }

  lemma ClosedSinceStep(rs: seq<Request>, h: uint32, i: nat)
    requires i < |rs|
    ensures ClosedSince(rs, h, i) <==> ClosedSince(rs[..|rs| - 1], h, i) || Closes(rs[|rs| - 1], h)
  {
    hide Closes;
    assert forall j :: i <= j < |rs| - 1 ==> rs[..|rs| - 1][j] == rs[j];
  }

  /** A live handle keeps naming the same buffer exactly until somebody closes it. */
  lemma {:induction false} SameBufferExactly(s: Drm, rs: seq<Request>, h: uint32, i: nat)
    requires i <= |rs| && h in Run(s, rs[..i]).bufs
    ensures SameBuffer(s, rs, h, i) <==> !ClosedSince(rs, h, i)
    decreases |rs|
  {
    if i == |rs| {
      assert rs[..i] == rs;
    } else {
      hide Run, Born, Closes, CreatesAt, ClosedSince;
      assert rs[..|rs| - 1][..i] == rs[..i];
      SameBufferExactly(s, rs[..|rs| - 1], h, i);
      ClosedSinceStep(rs, h, i);
      BornStep(s, rs, h);
    }
  }

  /**
   * After a run whose last effective SETCRTC is request i, GETCRTC names the very buffer that was
   * shown exactly when nobody closed its handle since; otherwise no buffer has the id, or one created later.
   */
  lemma ReportedBufferExactly(s: Drm, rs: seq<Request>, i: nat)
    requires i < |rs| && ShowsAt(s, rs, i)
    requires forall j :: i < j < |rs| ==> !ShowsAt(s, rs, j)
    ensures var h := Run(s, rs).current;
            && h == rs[i].fbId
            && (SameBuffer(s, rs, h, i) <==> !ClosedSince(rs, h, i + 1))
            && (h in Run(s, rs).bufs && ClosedSince(rs, h, i + 1) ==> Born(s, rs, h) > i)
  {
    CurrentIsLastShown(s, rs, i);
    var h := rs[i].fbId;
    assert !Closes(rs[i], h) && !CreatesAt(s, rs[..i + 1], h, i);
    assert rs[..i + 1][..i] == rs[..i];
    BornStep(s, rs[..i + 1], h);
    hide Run, Born, Closes, CreatesAt, ClosedSince;
    SameBufferExactly(s, rs, h, i + 1);
    BornLater(s, rs, h, i + 1);
  }

  lemma {:induction false} BornLater(s: Drm, rs: seq<Request>, h: uint32, i: nat)
    requires i <= |rs|
    ensures Born(s, rs, h) == Born(s, rs[..i], h) || Born(s, rs, h) >= i
    decreases |rs|
  {
    if i == |rs| {
      assert rs[..i] == rs;
    } else {
      hide CreatesAt;
      assert rs[..|rs| - 1][..i] == rs[..i];
      BornLater(s, rs[..|rs| - 1], h, i);
    }
  }

  // ---- mmap windows -------------------------------------------------------------------------

  /** The window of the buffer with handle h in the offset space of the device. */
  ghost predicate InWindow(s: Drm, h: uint32, address: int)
    requires h in s.bufs && Map(s, h).MappedAt?
  {
    Map(s, h).offset <= address < Map(s, h).offset + |s.bufs[h].bytes|
  }

  lemma MapOffset(s: Drm, h: uint32)
    requires h in s.bufs && h <= MAX_DUMB_BOS
    ensures Map(s, h) == MappedAt(h * 0x40_0000)
  {
    Pow2Values();
  }

  /** Every address of a window decodes to its handle, by a right shift of 22 bits, exactly when the buffer is at most 4 MiB. */
  lemma WindowDecodes(s: Drm, h: uint32)
    requires Inv(s) && h in s.bufs
    ensures (forall a :: InWindow(s, h, a) ==> a / 0x40_0000 == h) <==> |s.bufs[h].bytes| <= 0x40_0000
  {
    MapOffset(s, h);
    if |s.bufs[h].bytes| > 0x40_0000 {
      assert InWindow(s, h, (h + 1) * 0x40_0000);
    }
  }

  /** The windows of two live buffers meet exactly when the lower one reaches up to the other's offset. */
  lemma WindowsMeet(s: Drm, h: uint32, k: uint32)
    requires Inv(s) && h in s.bufs && k in s.bufs && h < k
    ensures (exists a :: InWindow(s, h, a) && InWindow(s, k, a)) <==>
            |s.bufs[h].bytes| > (k - h) * 0x40_0000 && |s.bufs[k].bytes| > 0
  {
    MapOffset(s, h);
    MapOffset(s, k);
    if |s.bufs[h].bytes| > (k - h) * 0x40_0000 && |s.bufs[k].bytes| > 0 {
      assert InWindow(s, h, k * 0x40_0000) && InWindow(s, k, k * 0x40_0000);
    }
  }
}
