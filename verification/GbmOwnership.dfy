/**
 * Who owns the kernel's handles. gbm_bo_destroy closes its handle with two ioctls, so a run is
 * told here at the grain of single ioctls: other processes may come between the two.
 */
module GbmOwnership {
  import opened Words
  import opened DrmTable

  datatype Op =
    | New(id: nat, width: uint32, height: uint32, memory: bool)
    | FirstClose(id: nat)
    | SecondClose(handle: uint32)

  /** `owner` maps live buffer objects to handles; `pending` are handles whose second close is still to come. */
  datatype World = World(drm: Drm, owner: map<nat, uint32>, pending: multiset<uint32>)

  function Step(w: World, op: Op): World {
    match op
    case New(id, width, height, memory) =>
      var (t, r) := Create(w.drm, width, height, 32, memory);
      if id in w.owner || !r.Created? then w else w.(drm := t, owner := w.owner[id := r.handle])
    case FirstClose(id) =>
      if id !in w.owner then w
      else
        var h := w.owner[id];
        World(Close(w.drm, h), w.owner - {id}, w.pending + multiset{h})
    case SecondClose(h) =>
      if h !in w.pending then w else w.(drm := Close(w.drm, h), pending := w.pending - multiset{h})
  }

  function Run(w: World, ops: seq<Op>): World {
    if ops == [] then w else Step(Run(w, ops[..|ops| - 1]), ops[|ops| - 1])
  }

  /** The live handles are the disjoint union of what the live buffer objects own. */
  ghost predicate Partition(w: World) {
    && (forall i :: i in w.owner ==> w.owner[i] in w.drm.bufs)
    && (forall i, j :: i in w.owner && j in w.owner && i != j ==> w.owner[i] != w.owner[j])
    && (forall h :: h in w.drm.bufs ==> exists i :: i in w.owner && w.owner[i] == h)
  }

  ghost predicate PendingAreDead(w: World) {
    forall h :: h in w.pending ==> h !in w.drm.bufs
  }

  /** A create that would be handed a handle whose second close is still to come. */
  ghost predicate Races(w: World, op: Op) {
    op.New? && op.id !in w.owner && op.memory && LowestFree(w.drm.bufs) in w.pending
  }

  lemma NewKeeps(w: World, op: Op)
    requires op.New? && Partition(w) && PendingAreDead(w) && !Races(w, op)
    ensures Partition(Step(w, op)) && PendingAreDead(Step(w, op))
  {
    hide LowestFree, NewBuffer;
    LowestFreeIs(w.drm.bufs);
    var v := Step(w, op);
    if v != w {
      var l := LowestFree(w.drm.bufs);
      assert v.owner[op.id] == l;
      forall h | h in v.drm.bufs
        ensures exists i :: i in v.owner && v.owner[i] == h
      {
        if h != l {
          var i :| i in w.owner && w.owner[i] == h;
          assert i in v.owner && v.owner[i] == h;
        }
      }
    }
  }

  lemma CloseKeeps(w: World, op: Op)
    requires !op.New? && Partition(w) && PendingAreDead(w)
    ensures Partition(Step(w, op)) && PendingAreDead(Step(w, op))
  {
    var v := Step(w, op);
    if op.FirstClose? && op.id in w.owner {
      forall h | h in v.drm.bufs
        ensures exists i :: i in v.owner && v.owner[i] == h
      {
        var i :| i in w.owner && w.owner[i] == h;
        assert i in v.owner && v.owner[i] == h;
      }
    } else if op.SecondClose? && op.handle in w.pending {
      assert v.drm.bufs == w.drm.bufs;
    }
  }

  /** Ownership stays a partition in every run in which no create takes a handle that is still to be closed. */
  lemma {:induction false} PartitionKept(w: World, ops: seq<Op>)
    requires Partition(w) && PendingAreDead(w)
    requires forall i :: 0 <= i < |ops| ==> !Races(Run(w, ops[..i]), ops[i])
    ensures Partition(Run(w, ops)) && PendingAreDead(Run(w, ops))
  {
    if ops != [] {
      var before := ops[..|ops| - 1];
      forall i | 0 <= i < |before|
        ensures !Races(Run(w, before[..i]), before[i])
      {
        assert before[..i] == ops[..i];
        assert !Races(Run(w, ops[..i]), ops[i]);
      }
      PartitionKept(w, before);
      var last := ops[|ops| - 1];
      if last.New? { NewKeeps(Run(w, before), last); } else { CloseKeeps(Run(w, before), last); }
    }
  }

  /** In particular no create while a destroy is half done is enough. */
  lemma AtomicDestroysKeep(w: World, ops: seq<Op>)
    requires Partition(w) && PendingAreDead(w)
    requires forall i :: 0 <= i < |ops| && ops[i].New? ==> Run(w, ops[..i]).pending == multiset{}
    ensures Partition(Run(w, ops))
  {
    PartitionKept(w, ops);
  }

  /**
   * One create between the two closes of handle h loses its own buffer to the second close exactly
   * when h is then the lowest free handle; any smaller free handle saves it.
   */
  lemma OneCreateBetweenCloses(w: World, h: uint32, op: Op)
    requires Partition(w) && PendingAreDead(w) && h in w.pending && 1 <= h <= MAX_DUMB_BOS
    requires op.New? && op.id !in w.owner && op.memory
    ensures Partition(Step(Step(w, op), SecondClose(h))) <==>
            exists k: uint32 :: 1 <= k < h && k !in w.drm.bufs
  {
    hide NewBuffer, LowestFree;
    LowestFreeIs(w.drm.bufs);
    var l := LowestFree(w.drm.bufs);
    var v := Step(w, op);
    var u := Step(v, SecondClose(h));
    assert v.owner == w.owner[op.id := l] && u.owner == v.owner;
    if l == h {
      assert u.owner[op.id] !in u.drm.bufs;
    } else {
      assert l < h;
      assert u.drm.bufs == v.drm.bufs;
      PartitionOfNew(w, op);
    }
  }

  lemma PartitionOfNew(w: World, op: Op)
    requires op.New? && Partition(w) && op.id !in w.owner && op.memory && LowestFree(w.drm.bufs) != 0
    ensures Partition(Step(w, op))
  {
    NewKeeps(w.(pending := multiset{}), op);
    assert Step(w, op) == Step(w.(pending := multiset{}), op).(pending := w.pending);
  }

  // ---- any number of creates between the two closes ------------------------------------------

  /** How many handles below h are free. */
  function FreeBelow(bufs: map<uint32, Buffer>, h: uint32): nat {
    if h <= 1 then 0 else FreeBelow(bufs, h - 1) + if h - 1 in bufs then 0 else 1
  }

  lemma {:induction false} FreeBelowTaken(bufs: map<uint32, Buffer>, b: Buffer, k: uint32, h: uint32)
    requires k >= 1 && k !in bufs
    ensures FreeBelow(bufs[k := b], h) == FreeBelow(bufs, h) - if k < h then 1 else 0
  {
    if h > 1 { FreeBelowTaken(bufs, b, k, h - 1); }
  }

  lemma {:induction false} NoneFreeBelow(bufs: map<uint32, Buffer>, h: uint32)
    ensures FreeBelow(bufs, h) == 0 <==> forall k: uint32 :: 1 <= k < h ==> k in bufs
  {
    if h > 1 { NoneFreeBelow(bufs, h - 1); }
  }

  /** Creates of new buffer objects, some of which may find no memory. */
  ghost predicate NewObjects(w: World, ops: seq<Op>) {
    && (forall i :: 0 <= i < |ops| ==> ops[i].New? && ops[i].id !in w.owner)
    && (forall i, j :: 0 <= i < j < |ops| ==> ops[i].New? && ops[j].New? && ops[i].id != ops[j].id)
  }

  function WithMemory(ops: seq<Op>): nat {
    if ops == [] then 0
    else
      var last := ops[|ops| - 1];
      WithMemory(ops[..|ops| - 1]) + if last.New? && last.memory then 1 else 0
  }

  ghost predicate OwnersFrom(v: World, w: World, ops: seq<Op>) {
    forall i :: i in v.owner ==> i in w.owner || exists j :: 0 <= j < |ops| && ops[j].New? && ops[j].id == i
  }

  /** One create takes a free handle below h while there is one, and then h itself. */
  lemma CreateTakes(w: World, op: Op, h: uint32)
    requires Partition(w) && op.New? && op.id !in w.owner && 1 <= h <= MAX_DUMB_BOS
    ensures var v := Step(w, op);
            && Partition(v)
            && (h in w.drm.bufs || !op.memory ==> (h in v.drm.bufs <==> h in w.drm.bufs))
            && (h !in w.drm.bufs && op.memory ==> (h in v.drm.bufs <==> FreeBelow(w.drm.bufs, h) == 0))
            && (h !in v.drm.bufs ==>
                  FreeBelow(v.drm.bufs, h) == FreeBelow(w.drm.bufs, h) - if op.memory then 1 else 0)
  {
    LowestFreeIs(w.drm.bufs);
    var l := LowestFree(w.drm.bufs);
    NoneFreeBelow(w.drm.bufs, h);
    hide LowestFree, NewBuffer, FreeBelow;
    if op.memory && l != 0 {
      PartitionOfNew(w, op);
      FreeBelowTaken(w.drm.bufs, NewBuffer(op.width, op.height, 32), l, h);
    }
  }

  lemma {:induction false} CreatesTake(w: World, h: uint32, ops: seq<Op>)
    requires Partition(w) && h !in w.drm.bufs && 1 <= h <= MAX_DUMB_BOS && NewObjects(w, ops)
    ensures var v := Run(w, ops);
            && Partition(v) && v.pending == w.pending && OwnersFrom(v, w, ops)
            && (h !in v.drm.bufs <==> WithMemory(ops) <= FreeBelow(w.drm.bufs, h))
            && (h !in v.drm.bufs ==> FreeBelow(v.drm.bufs, h) == FreeBelow(w.drm.bufs, h) - WithMemory(ops))
  {
    hide FreeBelow;
    if ops != [] {
      var n := |ops| - 1;
      CreatesTake(w, h, ops[..n]);
      var v := Run(w, ops[..n]);
      assert ops[n].id !in v.owner;
      CreateTakes(v, ops[n], h);
      OwnersGrow(v, w, ops);
    }
  }

  lemma OwnersGrow(v: World, w: World, ops: seq<Op>)
    requires |ops| > 0 && ops[|ops| - 1].New? && OwnersFrom(v, w, ops[..|ops| - 1])
    ensures var u := Step(v, ops[|ops| - 1]);
            OwnersFrom(u, w, ops) && u.pending == v.pending
  {
    hide LowestFree, NewBuffer;
    var u := Step(v, ops[|ops| - 1]);
    forall i | i in u.owner && i !in w.owner
      ensures exists j :: 0 <= j < |ops| && ops[j].New? && ops[j].id == i
    {
      if i in v.owner {
        var j :| 0 <= j < |ops| - 1 && ops[..|ops| - 1][j].New? && ops[..|ops| - 1][j].id == i;
        assert ops[j].New? && ops[j].id == i;
      }
    }
  }

  /**
   * However many creates come between the two closes of h: ownership survives the second close
   * exactly when at most as many of them had memory as there were free handles below h.
   */
  lemma CreatesBetweenCloses(w: World, h: uint32, ops: seq<Op>)
    requires Partition(w) && PendingAreDead(w) && h in w.pending && 1 <= h <= MAX_DUMB_BOS
    requires NewObjects(w, ops)
    ensures Partition(Step(Run(w, ops), SecondClose(h))) <==> WithMemory(ops) <= FreeBelow(w.drm.bufs, h)
  {
    hide FreeBelow, WithMemory, Run;
    CreatesTake(w, h, ops);
    var v := Run(w, ops);
    var u := Step(v, SecondClose(h));
    if h in v.drm.bufs {
      var i :| i in v.owner && v.owner[i] == h;
      assert u.owner[i] !in u.drm.bufs;
    } else {
      assert u.drm.bufs == v.drm.bufs;
    }
  }

  /** With nothing between its two closes a destroy is one step: its handle and its owner go, nothing stays pending. */
  lemma UndisturbedDestroy(w: World, id: nat)
    requires id in w.owner
    ensures var h := w.owner[id];
            Step(Step(w, FirstClose(id)), SecondClose(h)) == World(Close(w.drm, h), w.owner - {id}, w.pending)
  {
    var h := w.owner[id];
    assert w.drm.bufs - {h} - {h} == w.drm.bufs - {h};
    assert w.pending + multiset{h} - multiset{h} == w.pending;
  }
}
