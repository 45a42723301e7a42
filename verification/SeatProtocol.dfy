/**
 * The seat protocol between the daemon and any number of compositor sessions, each with its own
 * socket: seatd_open_device sends one request and waits for one reply, and the daemon serves the
 * sockets in any order.
 */
module SeatProtocol {
  import opened Words
  import opened Seatd
  import opened Paths

  datatype Phase = Idle | Waiting(path: string)

  /** A finished call of seatd_open_device: its path, and whether it returned a descriptor. */
  datatype Call = Call(path: string, granted: bool)

  /**
   * One session. `served` lists what open(2) would return at each request the daemon took from
   * this socket, in order; it is there to state what each call should have returned.
   */
  datatype Session = Session(socket: int32, phase: Phase, requests: seq<Message>, replies: seq<Reply>,
                             calls: seq<Call>, served: seq<Opened>)

  datatype Move =
    | Send(session: nat, path: string)
    | Serve(session: nat, outcome: Opened)
    | Receive(session: nat)

  function Zeros(n: nat): string { seq(n, _ => '\0') }

  function Truncate(path: string): string { if |path| < DATA_SIZE then path else path[..DATA_SIZE - 1] }

  /** The request for a path: at most 255 bytes of it in a zeroed buffer. */
  function Pack(path: string): Message {
    Message(MSG_OPEN_DEVICE, Truncate(path) + Zeros(DATA_SIZE - |Truncate(path)|))
  }

  predicate IsCString(path: string) { forall i :: 0 <= i < |path| ==> path[i] != '\0' }

  function SendStep(s: Session, path: string): Session {
    if s.phase.Idle? then s.(phase := Waiting(path), requests := s.requests + [Pack(path)]) else s
  }

  function ServeStep(s: Session, o: Opened): Session {
    if s.requests == [] then s
    else s.(requests := s.requests[1..], replies := s.replies + Answer(s.socket, s.requests[0], o), served := s.served + [o])
  }

  /** recvmsg: a non-zero code or a missing descriptor makes the call fail. */
  function ReceiveStep(s: Session): Session {
    if s.phase.Idle? || s.replies == [] then s
    else
      var r := s.replies[0];
      s.(phase := Idle, replies := s.replies[1..], calls := s.calls + [Call(s.phase.path, r.code == 0 && r.device)])
  }

  function Step(w: seq<Session>, m: Move): seq<Session> {
    if m.session >= |w| then w
    else
      var s := w[m.session];
      w[m.session := match m
                     case Send(_, path) => SendStep(s, path)
                     case Serve(_, o) => ServeStep(s, o)
                     case Receive(_) => ReceiveStep(s)]
  }

  function Run(w: seq<Session>, ms: seq<Move>): seq<Session> {
    if ms == [] then w else Step(Run(w, ms[..|ms| - 1]), ms[|ms| - 1])
  }

  predicate Possible(m: Move) {
    match m
    case Send(_, path) => IsCString(path)
    case Serve(_, o) => o.OpenFailed? ==> o.errno > 0
    case Receive(_) => true
  }

  predicate ShouldGrant(path: string, o: Opened) { BelowDevices(path) && o.Fd? }

  /** Finished calls got exactly what their own request was served. */
  ghost predicate CallsRight(s: Session) {
    |s.calls| <= |s.served| &&
    forall k :: 0 <= k < |s.calls| ==> (s.calls[k].granted <==> ShouldGrant(s.calls[k].path, s.served[k]))
  }

  /** In step: an idle session has nothing in flight, a waiting one exactly its request or its reply. */
  ghost predicate InStep(s: Session) {
    && CallsRight(s)
    && match s.phase
       case Idle => s.requests == [] && s.replies == [] && |s.served| == |s.calls|
       case Waiting(path) =>
         && IsCString(path)
         && if s.requests != [] then s.requests == [Pack(path)] && s.replies == [] && |s.served| == |s.calls|
            else
              && |s.served| == |s.calls| + 1
              && (s.served[|s.calls|].OpenFailed? ==> s.served[|s.calls|].errno > 0)
              && s.replies == [OpenAnswer(s.socket, Truncate(path), s.served[|s.calls|])]
  }

  /** The daemon reads back the path that was packed, whole up to 255 bytes and cut there beyond. */
  lemma Unpacked(path: string)
    requires IsCString(path)
    ensures CString(Pack(path).data) == Truncate(path)
    ensures |path| <= 255 ==> CString(Pack(path).data) == path
    ensures |path| > 255 ==> CString(Pack(path).data) == path[..255]
    ensures Pack(path).kind == 1 && |Pack(path).data| == 256
  {
    PrefixBeforeZeros(Truncate(path), DATA_SIZE - |Truncate(path)|, DATA_SIZE - 1);
  }

  lemma {:induction false} PrefixBeforeZeros(t: string, n: nat, limit: nat)
    requires IsCString(t) && |t| <= limit && n > 0
    ensures Prefix(t + Zeros(n), limit) == t
  {
    if t != "" {
      assert (t + Zeros(n))[1..] == t[1..] + Zeros(n);
      PrefixBeforeZeros(t[1..], n, limit - 1);
    }
  }

  /** Cutting a path cannot change the prefix test. */
  lemma TruncateKeepsPrefix(path: string)
    ensures BelowDevices(Truncate(path)) <==> BelowDevices(path)
  {
    hide BelowDevices;
    AllowedExactly(path);
    AllowedExactly(Truncate(path));
  }

  lemma SendInStep(s: Session, path: string)
    requires InStep(s) && IsCString(path)
    ensures InStep(SendStep(s, path))
  {
    hide Pack;
  }

  lemma ServeInStep(s: Session, o: Opened)
    requires InStep(s) && (o.OpenFailed? ==> o.errno > 0)
    ensures InStep(ServeStep(s, o))
  {
    hide OpenAnswer, CString, ShouldGrant;
    if s.requests != [] {
      Unpacked(s.phase.path);
      assert s.requests[1..] == [];
    }
  }

  lemma ReceiveInStep(s: Session)
    requires InStep(s)
    ensures InStep(ReceiveStep(s))
  {
    hide BelowDevices, OpenAnswer, Pack;
    if s.phase.Waiting? && s.replies != [] {
      OpenAnswerExactly(s.socket, Truncate(s.phase.path), s.served[|s.calls|]);
      TruncateKeepsPrefix(s.phase.path);
      assert s.replies[1..] == [];
    }
  }

  lemma StepInStep(w: seq<Session>, m: Move)
    requires (forall i :: 0 <= i < |w| ==> InStep(w[i])) && Possible(m)
    ensures forall i :: 0 <= i < |w| ==> InStep(Step(w, m)[i])
  {
    hide InStep, SendStep, ServeStep, ReceiveStep;
    if m.session < |w| {
      var s := w[m.session];
      match m
      case Send(_, path) => SendInStep(s, path);
      case Serve(_, o) => ServeInStep(s, o);
      case Receive(_) => ReceiveInStep(s);
    }
  }

  /**
   * However the sessions and the daemon interleave, every session stays in step: its k-th call
   * consumes the reply to its k-th request, and returns a descriptor exactly when its path passed
   * the prefix test and that request's open succeeded.
   */
  lemma {:induction false} SessionsStayInStep(w: seq<Session>, ms: seq<Move>)
    requires forall i :: 0 <= i < |w| ==> InStep(w[i])
    requires forall k :: 0 <= k < |ms| ==> Possible(ms[k])
    ensures |Run(w, ms)| == |w|
    ensures forall i :: 0 <= i < |w| ==> InStep(Run(w, ms)[i]) && CallsRight(Run(w, ms)[i])
  {
    hide InStep, Possible;
    if ms != [] {
      SessionsStayInStep(w, ms[..|ms| - 1]);
      StepInStep(Run(w, ms[..|ms| - 1]), ms[|ms| - 1]);
    }
    forall i | 0 <= i < |w|
      ensures CallsRight(Run(w, ms)[i])
    {
      InStepCallsRight(Run(w, ms)[i]);
    }
  }

  lemma InStepCallsRight(s: Session)
    requires InStep(s)
    ensures CallsRight(s)
  {
  }
}
