/** The seat daemon: a 16-slot client table, and device descriptors passed to clients. */
module Seatd {
  import opened Words
  import opened Paths

  const MAX_CLIENTS: nat := 16
  const MAX_HELD: nat := 8
  const DATA_SIZE: nat := 256
  const MSG_OPEN_DEVICE := 1
  const MSG_CLOSE_DEVICE := 2
  const MSG_ENABLE_SEAT := 3
  const MSG_DISABLE_SEAT := 4
  const EPERM: int32 := 1

  datatype Client = Client(fd: int32, pid: int32, active: bool, heldFds: seq<int32>, heldCount: nat)

  datatype Message = Message(kind: nat, data: string)

  /** What recv returned: end of stream or an error, or a whole message. */
  datatype Received = Closed | Got(msg: Message)

  /** What open(2) returned: a new descriptor, or a failure with its positive errno. */
  datatype Opened = Fd(fd: int32) | OpenFailed(errno: int32)

  /** A reply as it goes out: its code, and whether a descriptor of the opened device rides on it. */
  datatype Reply = Reply(socket: int32, code: int32, device: bool)

  /** The C string in a fixed buffer: up to the first NUL; the last byte is forced to NUL. */
  function CString(data: string): (s: string)
    ensures |s| < DATA_SIZE && s <= data
    ensures forall i :: 0 <= i < |s| ==> s[i] != '\0'
    ensures |s| == 255 || |s| == |data| || data[|s|] == '\0'
  {
    Prefix(data, DATA_SIZE - 1)
  }

  function Prefix(data: string, limit: nat): (s: string)
    ensures |s| <= limit && s <= data
    ensures forall i :: 0 <= i < |s| ==> s[i] != '\0'
    ensures |s| < limit && |s| < |data| ==> data[|s|] == '\0'
    decreases limit
  {
    if data == "" || limit == 0 || data[0] == '\0' then "" else [data[0]] + Prefix(data[1..], limit - 1)
  }

  predicate Allowed(path: string) {
    "/dev/dri/" <= path || "/dev/input/" <= path
  }

  /** The prefix test accepts exactly the paths below /dev/dri and /dev/input. */
  lemma AllowedExactly(path: string)
    ensures Allowed(path) <==> BelowDevices(path)
  {
    PrefixIsBelow(path);
  }

  predicate GoodOpen(o: Opened, open: set<int32>) {
    match o
    case Fd(fd) => fd >= 0 && fd !in open
    case OpenFailed(errno) => errno > 0
  }

  function OpenAnswer(socket: int32, path: string, o: Opened): Reply {
    if !Allowed(path) then Reply(socket, -EPERM, false)
    else if o.OpenFailed? then Reply(socket, Negate(o.errno), false)
    else Reply(socket, 0, true)
  }

  /** A zero code comes with a descriptor and no other does; the two failures keep apart by their code. */
  lemma OpenAnswerExactly(socket: int32, path: string, o: Opened)
    requires o.OpenFailed? ==> o.errno > 0
    ensures var r := OpenAnswer(socket, path, o);
            && r.socket == socket
            && (r.device <==> BelowDevices(path) && o.Fd?)
            && (r.code == 0 <==> r.device)
            && (!BelowDevices(path) ==> r.code == -1)
            && (BelowDevices(path) && o.OpenFailed? ==> r.code == -o.errno)
  {
    hide Allowed, BelowDevices;
    AllowedExactly(path);
  }

  /** The replies one message gets; an unknown type gets none. */
  function Answer(socket: int32, m: Message, o: Opened): seq<Reply> {
    if m.kind == MSG_OPEN_DEVICE then [OpenAnswer(socket, CString(m.data), o)]
    else if m.kind == MSG_CLOSE_DEVICE || m.kind == MSG_ENABLE_SEAT || m.kind == MSG_DISABLE_SEAT then
      [Reply(socket, 0, false)]
    else []
  }

  /** Close, enable and disable are answered by code 0 alone, open by its own reply, and nothing else is answered. */
  lemma AnswerExactly(socket: int32, m: Message, o: Opened, r: Reply)
    ensures r in Answer(socket, m, o) <==>
              || (m.kind == 1 && r == OpenAnswer(socket, CString(m.data), o))
              || (m.kind in {2, 3, 4} && r.socket == socket && r.code == 0 && !r.device)
    ensures |Answer(socket, m, o)| == if m.kind in {1, 2, 3, 4} then 1 else 0
  {
    hide OpenAnswer, CString;
  }

  /** Negation on 32 bits: the least value has no opposite. */
  function Negate(x: int32): int32 { if x == -0x8000_0000 then x else -x }

  function Answers(socket: int32, ms: seq<Message>, os: seq<Opened>): seq<Reply>
    requires |ms| == |os|
  {
    if ms == [] then [] else Answers(socket, ms[..|ms| - 1], os[..|ms| - 1]) + Answer(socket, ms[|ms| - 1], os[|ms| - 1])
  }

  predicate Known(m: Message) { MSG_OPEN_DEVICE <= m.kind <= MSG_DISABLE_SEAT }

  /** A pipelining client gets one reply for each message exactly when it sends only the four known types. */
  lemma {:induction false} RepliesMatchRequests(socket: int32, ms: seq<Message>, os: seq<Opened>)
    requires |ms| == |os|
    ensures |Answers(socket, ms, os)| <= |ms|
    ensures |Answers(socket, ms, os)| == |ms| <==> forall i :: 0 <= i < |ms| ==> Known(ms[i])
    ensures (forall i :: 0 <= i < |ms| ==> Known(ms[i])) ==>
              forall i :: 0 <= i < |ms| ==> [Answers(socket, ms, os)[i]] == Answer(socket, ms[i], os[i])
  {
    hide OpenAnswer, CString;
    if ms != [] {
      var n := |ms| - 1;
      RepliesMatchRequests(socket, ms[..n], os[..n]);
      assert forall i :: 0 <= i < n ==> ms[..n][i] == ms[i];
    }
  }

  /** The client after it was granted a descriptor: the first eight numbers are noted. */
  function Holding(c: Client, fd: int32): Client
    requires |c.heldFds| == MAX_HELD
  {
    if c.heldCount < MAX_HELD then c.(heldFds := c.heldFds[c.heldCount := fd], heldCount := c.heldCount + 1) else c
  }

  /** The descriptor numbers noted for a client. */
  function Noted(c: Client): seq<int32>
    requires c.heldCount <= |c.heldFds|
  {
    c.heldFds[..c.heldCount]
  }

  function HoldingAll(c: Client, fds: seq<int32>): Client
    requires |c.heldFds| == MAX_HELD
    decreases |fds|
  {
    if fds == [] then c else HoldingAll(Holding(c, fds[0]), fds[1..])
  }

  /** After any grants the first eight numbers are noted, in the order of the grants, and nothing else has changed. */
  lemma {:induction false} FirstEightNoted(c: Client, fds: seq<int32>)
    requires |c.heldFds| == MAX_HELD && c.heldCount <= MAX_HELD
    ensures var e := HoldingAll(c, fds);
            && |e.heldFds| == 8 && e.heldCount <= 8
            && Noted(e) == (if |Noted(c) + fds| <= 8 then Noted(c) + fds else (Noted(c) + fds)[..8])
            && e.fd == c.fd && e.pid == c.pid && e.active == c.active
    decreases |fds|
  {
    if fds == [] {
      assert Noted(c) + fds == Noted(c);
    } else {
      var d := Holding(c, fds[0]);
      FirstEightNoted(d, fds[1..]);
      if c.heldCount < MAX_HELD {
        assert Noted(d) == Noted(c) + [fds[0]];
        assert Noted(c) + fds == Noted(d) + fds[1..];
      } else {
        assert (Noted(c) + fds)[..8] == Noted(c) == (Noted(d) + fds[1..])[..8];
      }
    }
  }

  const NO_CLIENT := Client(-1, 0, false, [0, 0, 0, 0, 0, 0, 0, 0], 0)

  /** The sockets of the occupied slots. */
  ghost function Sockets(cs: seq<Client>): set<int32> {
    set i | 0 <= i < |cs| && cs[i].fd >= 0 :: cs[i].fd
  }

  ghost predicate ClientOk(c: Client) {
    && |c.heldFds| == MAX_HELD && c.heldCount <= MAX_HELD
    && (c.active <==> c.fd >= 0)
  }

  /** The open descriptors are the listening socket and one distinct socket for each occupied slot. */
  ghost predicate Conserved(serverFd: int32, open: set<int32>, cs: seq<Client>) {
    && |cs| == 16 && serverFd >= 0
    && (forall i :: 0 <= i < |cs| ==> ClientOk(cs[i]) && cs[i].fd != serverFd)
    && (forall i, j :: 0 <= i < j < |cs| && cs[i].fd >= 0 ==> cs[i].fd != cs[j].fd)
    && open == Sockets(cs) + {serverFd}
  }

  lemma SlotTaken(serverFd: int32, open: set<int32>, cs: seq<Client>, i: nat, c: Client)
    requires Conserved(serverFd, open, cs) && i < |cs| && cs[i].fd < 0
    requires ClientOk(c) && c.fd >= 0 && c.fd !in open
    ensures Conserved(serverFd, open + {c.fd}, cs[i := c])
  {
    var ds := cs[i := c];
    assert ds[i].fd in Sockets(ds);
    forall fd | fd in Sockets(cs)
      ensures fd in Sockets(ds)
    {
      var j :| 0 <= j < |cs| && cs[j].fd >= 0 && cs[j].fd == fd;
      assert ds[j].fd == fd;
    }
    SocketsOpen(serverFd, open, cs);
  }

  lemma SocketsOpen(serverFd: int32, open: set<int32>, cs: seq<Client>)
    requires Conserved(serverFd, open, cs)
    ensures forall j :: 0 <= j < |cs| && cs[j].fd >= 0 ==> cs[j].fd in open
  {
  }

  function Occupied(cs: seq<Client>): nat {
    if cs == [] then 0 else Occupied(cs[..|cs| - 1]) + if cs[|cs| - 1].fd >= 0 then 1 else 0
  }

  lemma {:induction false} SocketCount(cs: seq<Client>)
    requires forall i, j :: 0 <= i < j < |cs| && cs[i].fd >= 0 ==> cs[i].fd != cs[j].fd
    ensures |Sockets(cs)| == Occupied(cs) <= |cs|
  {
    if cs == [] {
      assert Sockets(cs) == {};
    } else {
      var front, c := cs[..|cs| - 1], cs[|cs| - 1];
      assert cs == front + [c];
      SocketCount(front);
      SocketsOfPush(front, c);
    }
  }

  lemma SocketsOfPush(front: seq<Client>, c: Client)
    requires forall i :: 0 <= i < |front| && front[i].fd >= 0 ==> front[i].fd != c.fd
    ensures Sockets(front + [c]) == if c.fd >= 0 then Sockets(front) + {c.fd} else Sockets(front)
    ensures c.fd !in Sockets(front)
  {
    var cs := front + [c];
    forall fd | fd in Sockets(front)
      ensures fd in Sockets(cs)
    {
      var j :| 0 <= j < |front| && front[j].fd >= 0 && front[j].fd == fd;
      assert cs[j].fd == fd;
    }
    assert cs[|front|] == c;
  }

  /** Between handlers the daemon has one descriptor open for each occupied slot, and the listening socket. */
  lemma DescriptorCount(serverFd: int32, open: set<int32>, cs: seq<Client>)
    requires Conserved(serverFd, open, cs)
    ensures |open| == 1 + Occupied(cs) <= 17
  {
    SocketCount(cs);
    assert serverFd !in Sockets(cs);
  }

  lemma ClientFacts(serverFd: int32, open: set<int32>, cs: seq<Client>, i: nat)
    requires Conserved(serverFd, open, cs) && i < |cs|
    ensures ClientOk(cs[i])
  {
  }

  lemma SlotFreed(serverFd: int32, open: set<int32>, cs: seq<Client>, i: nat, c: Client)
    requires Conserved(serverFd, open, cs) && i < |cs| && cs[i].fd >= 0
    requires ClientOk(c) && c.fd == -1
    ensures Conserved(serverFd, open - {cs[i].fd}, cs[i := c])
  {
    var ds := cs[i := c];
    forall fd | fd in Sockets(cs) && fd != cs[i].fd
      ensures fd in Sockets(ds)
    {
      var j :| 0 <= j < |cs| && cs[j].fd >= 0 && cs[j].fd == fd;
      assert ds[j].fd == fd;
    }
    forall j | 0 <= j < |ds| && ds[j].fd >= 0
      ensures ds[j].fd in Sockets(cs) && ds[j].fd != cs[i].fd
    {
      assert ds[j] == cs[j];
      assert j < i ==> cs[j].fd != cs[i].fd;
    }
  }

  lemma SlotKept(serverFd: int32, open: set<int32>, cs: seq<Client>, i: nat, c: Client)
    requires Conserved(serverFd, open, cs) && i < |cs|
    requires ClientOk(c) && c.fd == cs[i].fd
    ensures Conserved(serverFd, open, cs[i := c])
  {
    var ds := cs[i := c];
    forall j | 0 <= j < |cs|
      ensures ds[j].fd == cs[j].fd
    {
    }
    assert Sockets(ds) == Sockets(cs);
  }

  class Daemon {
    const serverFd: int32
    const clients: array<Client>
    ghost var open: set<int32>  // the process's open descriptors
    var sent: seq<Reply>

    ghost predicate Valid()
      reads this`open, clients
    {
      clients.Length == 16 && Conserved(serverFd, open, clients[..])
    }

    constructor (serverFd: int32)
      requires serverFd >= 0
      ensures Valid() && fresh(clients) && this.serverFd == serverFd && sent == []
      ensures forall i :: 0 <= i < MAX_CLIENTS ==> clients[i].fd < 0
      ensures open == {serverFd}
    {
      this.serverFd := serverFd;
      clients := new Client[MAX_CLIENTS](_ => NO_CLIENT);
      open := {serverFd};
      sent := [];
      new;
      assert Sockets(clients[..]) == {};
    }

    ghost predicate Full()
      requires clients.Length == 16
      reads clients
    {
      forall i :: 0 <= i < 16 ==> clients[i].fd >= 0
    }

    /** close(2). */
    ghost method CloseFd(fd: int32)
      modifies this`open
      ensures open == old(open) - {fd}
    {
      open := open - {fd};
    }

    /**
     * accept_client: `cfd` is what accept(2) returned, a descriptor not in use or a failure. The
     * lowest free slot takes it; when all 16 are taken it is closed again.
     */
    method AcceptClient(cfd: int32, pid: int32) returns (slot: int)
      requires Valid() && (cfd >= 0 ==> cfd !in open)
      modifies this`open, clients
      ensures Valid()
      ensures slot == -1 <==> cfd < 0 || old(Full())
      ensures slot == -1 ==> open == old(open) && clients[..] == old(clients[..])
      ensures slot != -1 ==>
                && 0 <= slot < MAX_CLIENTS && old(clients[slot].fd) < 0
                && (forall i :: 0 <= i < slot ==> old(clients[i].fd) >= 0)
                && open == old(open) + {cfd}
                && clients[..] == old(clients[..])[slot := Client(cfd, pid, true, old(clients[slot].heldFds), 0)]
    {
      if cfd < 0 { return -1; }
      open := open + {cfd};
      var i := 0;
      while i < MAX_CLIENTS
        invariant 0 <= i <= MAX_CLIENTS
        invariant forall j :: 0 <= j < i ==> clients[j].fd >= 0
      {
        if clients[i].fd < 0 {
          SlotTaken(serverFd, old(open), clients[..], i, clients[i].(fd := cfd, pid := pid, active := true, heldCount := 0));
          clients[i] := clients[i].(fd := cfd, pid := pid, active := true, heldCount := 0);
          return i;
        }
        i := i + 1;
      }
      CloseFd(cfd);
      slot := -1;
    }

    /** send_fd: one message with the reply code, and the descriptor when there is one. */
    method SendFd(socket: int32, fd: int32, code: int32)
      modifies this`sent
      ensures sent == old(sent) + [Reply(socket, code, fd >= 0)]
    {
      sent := sent + [Reply(socket, code, fd >= 0)];
    }

    /** handle_open_device: the daemon's own descriptor is closed as soon as it has been passed on. */
    method HandleOpenDevice(i: nat, path: string, o: Opened)
      requires Valid() && i < MAX_CLIENTS && clients[i].fd >= 0 && GoodOpen(o, open)
      modifies this`open, this`sent, clients
      ensures Valid() && open == old(open)
      ensures sent == old(sent) + [OpenAnswer(old(clients[i]).fd, path, o)]
      ensures BelowDevices(path) && o.Fd? ==> sent == old(sent) + [Reply(old(clients[i]).fd, 0, true)]
      ensures BelowDevices(path) && o.OpenFailed? ==> sent == old(sent) + [Reply(old(clients[i]).fd, -o.errno, false)]
      ensures !BelowDevices(path) ==> sent == old(sent) + [Reply(old(clients[i]).fd, -1, false)]
      ensures clients[..] == if BelowDevices(path) && o.Fd? then old(clients[..])[i := Holding(old(clients[i]), o.fd)]
                             else old(clients[..])
    {
      hide Conserved, BelowDevices;
      var c := clients[i];
      AllowedExactly(path);
      ClientFacts(serverFd, open, clients[..], i);
      if !("/dev/dri/" <= path) && !("/dev/input/" <= path) {
        SendFd(c.fd, -1, -EPERM);
        return;
      }
      if o.OpenFailed? {
        SendFd(c.fd, -1, Negate(o.errno));
        return;
      }
      var devFd := o.fd;
      SlotKept(serverFd, open, clients[..], i, Holding(c, devFd));
      open := open + {devFd};
      if c.heldCount < MAX_HELD {
        clients[i] := c.(heldFds := c.heldFds[c.heldCount := devFd], heldCount := c.heldCount + 1);
      }
      SendFd(c.fd, devFd, 0);
      CloseFd(devFd);
    }

    /** handle_client_message for an occupied slot. */
    method HandleClientMessage(i: nat, r: Received, o: Opened)
      requires Valid() && i < MAX_CLIENTS && clients[i].fd >= 0 && GoodOpen(o, open)
      modifies this`open, this`sent, clients
      ensures Valid()
      ensures r.Closed? ==>
                && open == old(open) - {old(clients[i].fd)} && sent == old(sent)
                && clients[..] == old(clients[..])[i := old(clients[i]).(fd := -1, active := false)]
      ensures r.Got? ==>
                && open == old(open) && sent == old(sent) + Answer(old(clients[i].fd), r.msg, o)
                && clients[..] == if r.msg.kind == MSG_OPEN_DEVICE && BelowDevices(CString(r.msg.data)) && o.Fd?
                                  then old(clients[..])[i := Holding(old(clients[i]), o.fd)] else old(clients[..])
    {
      hide Conserved, BelowDevices;
      ClientFacts(serverFd, open, clients[..], i);
      if r.Closed? {
        SlotFreed(serverFd, open, clients[..], i, clients[i].(fd := -1, active := false));
        CloseFd(clients[i].fd);
        clients[i] := clients[i].(fd := -1, active := false);
        return;
      }
      match r.msg.kind
      case 1 => HandleOpenDevice(i, CString(r.msg.data), o);
      case 2 => SendFd(clients[i].fd, -1, 0);
      case 3 => SendFd(clients[i].fd, -1, 0);
      case 4 => SendFd(clients[i].fd, -1, 0);
      case _ =>
    }
  }
}
