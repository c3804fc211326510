/** The event loop of TcpEchoServer.cpp. The kernel's answers (the events, and what
    accept, recv and send return) are parameters. */
module EchoServer {
  import opened Wrappers
  import opened Bytes

  type Fd = int

  const BUFFER_SIZE: nat := 1000
  const MAX_EVENTS: nat := 5

  datatype Interest = EpollIn | EpollOut

  datatype Flags = Flags(hup: bool, err: bool, out: bool, inp: bool)

  datatype Recv = Failed | Got(data: seq<Byte>)

  /** An event with the results of the calls that its handler makes; `uninitialised`
      is what the fields of a handler constructed for it happen to hold. */
  datatype Event = Event(fd: Fd, flags: Flags, accepted: Option<Fd>, uninitialised: Client, sent: int, recv: Recv)

  // ------------------------------------------------------------- subsequences

  ghost predicate Subsequence(s: seq<Byte>, t: seq<Byte>)
    decreases |t|
  {
    || s == []
    || (t != [] && (|| (s[|s| - 1] == t[|t| - 1] && Subsequence(s[..|s| - 1], t[..|t| - 1]))
                    || Subsequence(s, t[..|t| - 1])))
  }

  lemma {:induction false} SubsequenceAppend(s: seq<Byte>, t: seq<Byte>, x: seq<Byte>)
    requires Subsequence(s, t)
    ensures Subsequence(s + x, t + x)
    decreases |x|
  {
    if x == [] {
      assert s + x == s && t + x == t;
    } else {
      var init := x[..|x| - 1];
      SubsequenceAppend(s, t, init);
      assert (s + x)[..|s + x| - 1] == s + init && (t + x)[..|t + x| - 1] == t + init;
    }
  }

  lemma {:induction false} SubsequencePrefix(s: seq<Byte>, t: seq<Byte>, k: nat)
    requires Subsequence(s, t) && k <= |s|
    ensures Subsequence(s[..k], t)
    decreases |t|
  {
    if k == |s| {
      assert s[..k] == s;
    } else {
      var init := t[..|t| - 1];
      if Subsequence(s, init) {
        SubsequencePrefix(s, init, k);
      } else {
        SubsequencePrefix(s[..|s| - 1], init, k);
        assert s[..|s| - 1][..k] == s[..k];
      }
    }
  }

  lemma {:induction false} SubsequenceLength(s: seq<Byte>, t: seq<Byte>)
    requires Subsequence(s, t)
    ensures |s| <= |t|
    ensures |s| == |t| ==> s == t
    decreases |t|
  {
    if s != [] {
      var init := t[..|t| - 1];
      if Subsequence(s, init) {
        SubsequenceLength(s, init);
      } else {
        SubsequenceLength(s[..|s| - 1], init);
        assert s == s[..|s| - 1] + [s[|s| - 1]] && t == init + [t[|t| - 1]];
      }
    }
  }

  // ------------------------------------------------------------------ one client

  /** An EchoHandler: its fields, and what has passed through it. The constructor
      leaves the fields uninitialised. */
  datatype Client = Client(received: int, buffer: seq<Byte>, input: seq<Byte>, output: seq<Byte>, lost: nat)

  /** The outcome of handling one event: the handler afterwards, whether its socket
      was removed from the table, and the interest it asked for last. */
  datatype Handled = Handled(client: Client, removed: bool, interest: Option<Interest>)

  function Max0(x: int): nat {
    if x < 0 then 0 else x
  }

  function AfterSend(c: Client, sent: int): Client
    requires |c.buffer| == BUFFER_SIZE && c.received <= BUFFER_SIZE && sent <= Max0(c.received)
  {
    if c.received > 0
    then c.(received := 0, output := c.output + c.buffer[..Max0(sent)], lost := c.lost + c.received - Max0(sent))
    else c.(received := 0)
  }

  /** recv overwrites the front of the buffer, and a terminator follows the data. */
  function AfterRecv(c: Client, data: seq<Byte>): Client
    requires |c.buffer| == BUFFER_SIZE && |data| < BUFFER_SIZE
  {
    c.(received := |data|,
       buffer := if data == [] then c.buffer else data + [0] + c.buffer[|data| + 1..],
       input := c.input + data)
  }

  /** What the source demands of the kernel: a send event finds a sane length, send
      returns at most what it was given, and recv leaves room for the terminator. */
  predicate Handleable(c: Client, e: Event) {
    && |c.buffer| == BUFFER_SIZE
    && (e.flags.out && !e.flags.hup && !e.flags.err ==> c.received <= BUFFER_SIZE && e.sent <= Max0(c.received))
    && (e.flags.inp && !e.flags.hup && !e.flags.err && e.recv.Got? ==> |e.recv.data| < BUFFER_SIZE)
  }

  function Handle(c: Client, e: Event): (h: Handled)
    requires Handleable(c, e)
  {
    if e.flags.hup then Handled(c, true, None)
    else if e.flags.err then Handled(c, false, None)
    else
      var c' := if e.flags.out then AfterSend(c, e.sent) else c;
      var interest := if e.flags.out then Some(EpollIn) else None;
      if !e.flags.inp then Handled(c', false, interest)
      else if e.recv.Failed? then Handled(c'.(received := -1), true, interest)
      else
        var c'' := AfterRecv(c', e.recv.data);
        if e.recv.data == [] then Handled(c'', true, interest) else Handled(c'', false, Some(EpollOut))
  }

  /** The bytes that a client waits to have sent back. */
  function Pending(c: Client, i: Interest): seq<Byte>
    requires i.EpollOut? ==> 0 <= c.received <= |c.buffer|
  {
    if i.EpollOut? then c.buffer[..c.received] else []
  }

  /** What holds of a live client between events: while it wants to write it has
      between 1 and 999 bytes pending, and while it wants to read, none since its first
      receive; what it sent and has pending is a subsequence of what it received; and
      the difference is what short sends lost. */
  ghost predicate ClientInv(c: Client, i: Interest) {
    && |c.buffer| == BUFFER_SIZE
    && (i.EpollOut? ==> 1 <= c.received < BUFFER_SIZE)
    && (i.EpollIn? ==> c.input == [] || c.received == 0)
    && Subsequence(c.output + Pending(c, i), c.input)
    && |c.input| == |c.output| + |Pending(c, i)| + c.lost
  }

  /** An event of the interest that the client has registered. */
  predicate Delivers(c: Client, i: Interest, e: Event) {
    && (e.flags.out ==> i == EpollOut)
    && (e.flags.inp ==> i == EpollIn)
    && Handleable(c, e)
  }

  lemma SentKeepsSubsequence(c: Client, n: nat)
    requires ClientInv(c, EpollOut) && n <= c.received
    ensures Subsequence(c.output + c.buffer[..n], c.input)
  {
    SubsequencePrefix(c.output + Pending(c, EpollOut), c.input, |c.output| + n);
    assert (c.output + Pending(c, EpollOut))[..|c.output| + n] == c.output + c.buffer[..n];
  }

  lemma HandleKeepsInv(c: Client, i: Interest, e: Event)
    requires ClientInv(c, i) && Delivers(c, i, e)
    ensures var h := Handle(c, e);
            !h.removed ==> ClientInv(h.client, if h.interest.Some? then h.interest.value else i)
  {
    var h := Handle(c, e);
    if !e.flags.hup && !e.flags.err {
      if e.flags.out {
        SentKeepsSubsequence(c, Max0(e.sent));
        assert h.client.output + [] == h.client.output;
      } else if e.flags.inp && e.recv.Got? {
        assert c.output + Pending(c, i) == c.output;
        SubsequenceAppend(c.output, c.input, e.recv.data);
        assert h.client.buffer[..|e.recv.data|] == e.recv.data;
      }
    }
  }

  /** Bytes are conserved exactly when no send was short. */
  lemma ConservedIffNothingLost(c: Client, i: Interest)
    requires ClientInv(c, i)
    ensures c.output + Pending(c, i) == c.input <==> c.lost == 0
  {
    SubsequenceLength(c.output + Pending(c, i), c.input);
  }

  /** What a client leaves behind when it is removed: it was sent a subsequence of what
      it sent, and all of it but the bytes that were pending at a hang-up exactly when no
      send was short. */
  lemma RemovalConserves(c: Client, i: Interest, e: Event)
    requires ClientInv(c, i) && Delivers(c, i, e) && Handle(c, e).removed
    ensures var c' := Handle(c, e).client;
            && Subsequence(c'.output, c'.input)
            && (c'.output + (if e.flags.hup then Pending(c, i) else []) == c'.input <==> c'.lost == 0)
  {
    ConservedIffNothingLost(c, i);
    SubsequencePrefix(c.output + Pending(c, i), c.input, |c.output|);
    assert (c.output + Pending(c, i))[..|c.output|] == c.output;
    if !e.flags.hup {
      assert i == EpollIn;
      assert e.recv.Got? ==> c.input + e.recv.data == c.input;
    }
  }

  // ------------------------------------------------------------------ the server

  /** The listening socket, the clients in the handler table, and the kernel's
      interest list. Sockets are never closed, and removing one from the table leaves
      it in the interest list. */
  datatype Server = Server(listener: Fd, clients: map<Fd, Client>, epoll: map<Fd, Interest>)

  function Accept(s: Server, e: Event): Server {
    if e.accepted.None? then s
    else s.(clients := s.clients[e.accepted.value := Fresh(e.uninitialised)],
            epoll := s.epoll[e.accepted.value := EpollIn])
  }

  /** A handler just constructed: no bytes have passed. */
  function Fresh(uninitialised: Client): Client {
    uninitialised.(input := [], output := [], lost := 0)
  }

  function Updated(epoll: map<Fd, Interest>, fd: Fd, interest: Option<Interest>): map<Fd, Interest> {
    if interest.Some? then epoll[fd := interest.value] else epoll
  }

  /** What the kernel guarantees about an event that it reports in this state: the
      socket is registered, the event is of the registered interest (or hang-up or
      error), and accept returns a descriptor that is not open. */
  predicate EventOk(s: Server, e: Event) {
    && e.fd in s.epoll
    && (e.fd == s.listener ==>
          (e.accepted.Some? ==> e.accepted.value !in s.epoll) && |e.uninitialised.buffer| == BUFFER_SIZE)
    && (e.fd in s.clients ==> Delivers(s.clients[e.fd], s.epoll[e.fd], e))
  }

  /** The body of the loop over the reported events. */
  function Dispatch(s: Server, e: Event): Server
    requires e.fd in s.clients ==> Handleable(s.clients[e.fd], e)
  {
    if e.fd == s.listener then Accept(s, e)
    else if e.fd in s.clients then
      var h := Handle(s.clients[e.fd], e);
      s.(clients := if h.removed then s.clients - {e.fd} else s.clients[e.fd := h.client],
         epoll := Updated(s.epoll, e.fd, h.interest))
    else s
  }

  /** One result of epoll_wait: at most five events, one for a socket, all of them
      determined before the first is handled. */
  ghost predicate BatchOk(s: Server, es: seq<Event>) {
    && |es| <= MAX_EVENTS
    && (forall k :: 0 <= k < |es| ==> EventOk(s, es[k]))
    && (forall j, k :: 0 <= j < k < |es| ==> es[j].fd != es[k].fd)
  }

  ghost predicate ServerInv(s: Server) {
    && s.listener in s.epoll && s.listener !in s.clients
    && (forall fd :: fd in s.clients ==> fd in s.epoll && ClientInv(s.clients[fd], s.epoll[fd]))
  }

  lemma DispatchKeepsInv(s: Server, e: Event)
    requires ServerInv(s) && EventOk(s, e)
    ensures ServerInv(Dispatch(s, e))
  {
    if e.fd != s.listener && e.fd in s.clients {
      HandleKeepsInv(s.clients[e.fd], s.epoll[e.fd], e);
    }
  }

  /** A step touches only the entry of its own socket, apart from a newly accepted one. */
  lemma DispatchIsLocal(s: Server, e: Event, fd: Fd)
    requires ServerInv(s) && EventOk(s, e) && fd != e.fd && fd in s.epoll
    ensures var s' := Dispatch(s, e);
            && (fd in s'.clients <==> fd in s.clients) && (fd in s.clients ==> s'.clients[fd] == s.clients[fd])
            && fd in s'.epoll && s'.epoll[fd] == s.epoll[fd]
  {
  }

  /** So the events of a batch are still right when their turn comes. */
  lemma EventsStayOk(s: Server, e: Event, e': Event)
    requires ServerInv(s) && EventOk(s, e) && EventOk(s, e') && e.fd != e'.fd
    ensures EventOk(Dispatch(s, e), e')
  {
    DispatchIsLocal(s, e, e'.fd);
  }

  ghost function Batch(s: Server, es: seq<Event>): (s': Server)
    requires ServerInv(s) && BatchOk(s, es)
    ensures ServerInv(s')
    decreases |es|
  {
    if es == [] then s
    else
      BatchTail(s, es);
      Batch(Dispatch(s, es[0]), es[1..])
  }

  lemma BatchTail(s: Server, es: seq<Event>)
    requires ServerInv(s) && BatchOk(s, es) && es != []
    ensures ServerInv(Dispatch(s, es[0])) && BatchOk(Dispatch(s, es[0]), es[1..])
  {
    DispatchKeepsInv(s, es[0]);
    forall k | 0 < k < |es|
      ensures EventOk(Dispatch(s, es[0]), es[k])
    {
      EventsStayOk(s, es[0], es[k]);
    }
  }

  /** A server just started on its listening socket. */
  function Started(listener: Fd): Server {
    Server(listener, map[], map[listener := EpollIn])
  }

  ghost predicate IsRun(s: Server, batches: seq<seq<Event>>, s': Server)
    decreases |batches|
  {
    if batches == [] then s' == s
    else ServerInv(s) && BatchOk(s, batches[0]) && IsRun(Batch(s, batches[0]), batches[1..], s')
  }

  lemma {:induction false} RunKeepsInv(s: Server, batches: seq<seq<Event>>, s': Server)
    requires ServerInv(s) && IsRun(s, batches, s')
    ensures ServerInv(s')
    decreases |batches|
  {
    if batches != [] {
      RunKeepsInv(Batch(s, batches[0]), batches[1..], s');
    }
  }

  // ----------------------------------------------------- what the events tell

  // The bytes that pass a socket, told from the events alone.

  predicate Reads(e: Event, fd: Fd) {
    e.fd == fd && e.flags.inp && !e.flags.hup && !e.flags.err && e.recv.Got?
  }

  predicate Sends(e: Event, fd: Fd) {
    e.fd == fd && e.flags.out && !e.flags.hup && !e.flags.err
  }

  /** Everything that recv returned. */
  ghost function ReceivedBy(es: seq<Event>, fd: Fd): seq<Byte> {
    if es == [] then []
    else
      var e := es[|es| - 1];
      ReceivedBy(es[..|es| - 1], fd) + if Reads(e, fd) then e.recv.data else []
  }

  /** What the last recv returned, until a send follows it. */
  ghost function PendingBy(es: seq<Event>, fd: Fd): seq<Byte> {
    if es == [] then []
    else
      var e := es[|es| - 1];
      if Reads(e, fd) then e.recv.data else if Sends(e, fd) then [] else PendingBy(es[..|es| - 1], fd)
  }

  /** As many bytes as the result of send says; none when it failed. */
  function Taken(bytes: seq<Byte>, sent: int): seq<Byte> {
    if sent <= 0 then [] else if sent < |bytes| then bytes[..sent] else bytes
  }

  /** Everything that send took. */
  ghost function SentBy(es: seq<Event>, fd: Fd): seq<Byte> {
    if es == [] then []
    else
      var init, e := es[..|es| - 1], es[|es| - 1];
      SentBy(init, fd) + if Sends(e, fd) then Taken(PendingBy(init, fd), e.sent) else []
  }

  /** No send was short. */
  ghost predicate AllSent(es: seq<Event>, fd: Fd) {
    forall k :: 0 <= k < |es| && Sends(es[k], fd) ==>
                  Taken(PendingBy(es[..k], fd), es[k].sent) == PendingBy(es[..k], fd)
  }

  lemma HistoryStep(h: seq<Event>, e: Event, fd: Fd)
    ensures var h' := h + [e];
            && ReceivedBy(h', fd) == ReceivedBy(h, fd) + (if Reads(e, fd) then e.recv.data else [])
            && PendingBy(h', fd)
               == (if Reads(e, fd) then e.recv.data else if Sends(e, fd) then [] else PendingBy(h, fd))
            && SentBy(h', fd) == SentBy(h, fd) + (if Sends(e, fd) then Taken(PendingBy(h, fd), e.sent) else [])
            && (AllSent(h', fd)
                <==> AllSent(h, fd) && (Sends(e, fd) ==> Taken(PendingBy(h, fd), e.sent) == PendingBy(h, fd)))
  {
    var h' := h + [e];
    assert h'[..|h|] == h;
    assert forall k :: 0 <= k < |h| ==> h'[k] == h[k] && h'[..k] == h[..k];
  }

  lemma {:induction false} HistoryNone(h: seq<Event>, fd: Fd)
    requires forall e :: e in h ==> e.fd != fd
    ensures ReceivedBy(h, fd) == [] && PendingBy(h, fd) == [] && SentBy(h, fd) == [] && AllSent(h, fd)
  {
    if h != [] {
      assert h[|h| - 1] in h;
      HistoryNone(h[..|h| - 1], fd);
    }
  }

  /** The record of a client is what the events tell. */
  ghost predicate Told(c: Client, h: seq<Event>, fd: Fd) {
    && c.input == ReceivedBy(h, fd) && c.output == SentBy(h, fd)
    && (c.lost == 0 <==> AllSent(h, fd))
  }

  ghost predicate ClientTold(c: Client, i: Interest, h: seq<Event>, fd: Fd)
    requires ClientInv(c, i)
  {
    Told(c, h, fd) && Pending(c, i) == PendingBy(h, fd)
  }

  lemma SendTold(c: Client, sent: int, h: seq<Event>, e: Event)
    requires ClientInv(c, EpollOut) && ClientTold(c, EpollOut, h, e.fd)
    requires Sends(e, e.fd) && !Reads(e, e.fd) && e.sent == sent <= c.received
    ensures Told(AfterSend(c, sent), h + [e], e.fd) && PendingBy(h + [e], e.fd) == []
  {
    HistoryStep(h, e, e.fd);
    var p := PendingBy(h, e.fd);
    assert Taken(p, sent) == p[..Max0(sent)];
    assert c.buffer[..Max0(sent)] == p[..Max0(sent)];
  }

  lemma RecvTold(c: Client, h: seq<Event>, e: Event)
    requires ClientInv(c, EpollIn) && ClientTold(c, EpollIn, h, e.fd)
    requires Reads(e, e.fd) && !Sends(e, e.fd) && |e.recv.data| < BUFFER_SIZE
    ensures var c' := AfterRecv(c, e.recv.data);
            Told(c', h + [e], e.fd) && c'.buffer[..c'.received] == PendingBy(h + [e], e.fd) == e.recv.data
  {
    HistoryStep(h, e, e.fd);
    assert SentBy(h, e.fd) + [] == SentBy(h, e.fd);
    assert e.recv.data != [] ==> AfterRecv(c, e.recv.data).buffer[..|e.recv.data|] == e.recv.data;
  }

  lemma HandleTold(c: Client, i: Interest, h: seq<Event>, e: Event)
    requires ClientInv(c, i) && Delivers(c, i, e) && ClientTold(c, i, h, e.fd)
    ensures var d := Handle(c, e);
            && Told(d.client, h + [e], e.fd)
            && (!d.removed ==>
                  var j := if d.interest.Some? then d.interest.value else i;
                  ClientInv(d.client, j) && ClientTold(d.client, j, h + [e], e.fd))
  {
    HandleKeepsInv(c, i, e);
    if Sends(e, e.fd) {
      SendTold(c, e.sent, h, e);
    } else if Reads(e, e.fd) {
      RecvTold(c, h, e);
    } else {
      HistoryStep(h, e, e.fd);
      assert c.input + [] == c.input && c.output + [] == c.output;
    }
  }

  ghost predicate ServerTold(s: Server, h: seq<Event>)
    requires ServerInv(s)
  {
    && (forall fd :: fd in s.clients ==> ClientTold(s.clients[fd], s.epoll[fd], h, fd))
    && (forall e :: e in h ==> e.fd in s.epoll)
  }

  lemma OtherTold(c: Client, i: Interest, h: seq<Event>, e: Event, fd: Fd)
    requires ClientInv(c, i) && ClientTold(c, i, h, fd) && e.fd != fd
    ensures ClientTold(c, i, h + [e], fd)
  {
    HistoryStep(h, e, fd);
    assert c.input + [] == c.input && c.output + [] == c.output;
  }

  /** After an accept the new client is in the table under its descriptor, wants to
      read, and no bytes have passed. */
  lemma AcceptedIsLive(s: Server, e: Event)
    requires ServerInv(s) && EventOk(s, e) && e.fd == s.listener && e.accepted.Some?
    ensures var s', fd := Dispatch(s, e), e.accepted.value;
            && fd in s'.clients && fd in s'.epoll && s'.epoll[fd] == EpollIn
            && s'.clients[fd].input == [] && s'.clients[fd].output == [] && s'.clients[fd].lost == 0
            && s'.clients - {fd} == s.clients && s'.epoll - {fd} == s.epoll
  {
    assert e.accepted.value !in s.clients;
  }

  lemma AcceptTold(s: Server, h: seq<Event>, e: Event)
    requires ServerInv(s) && EventOk(s, e) && e.fd == s.listener && ServerTold(s, h)
    ensures ServerInv(Dispatch(s, e)) && ServerTold(Dispatch(s, e), h + [e])
  {
    DispatchKeepsInv(s, e);
    forall fd | fd in s.clients
      ensures ClientTold(s.clients[fd], s.epoll[fd], h + [e], fd)
    {
      OtherTold(s.clients[fd], s.epoll[fd], h, e, fd);
    }
    if e.accepted.Some? {
      HistoryNone(h + [e], e.accepted.value);
    }
  }

  lemma DispatchTold(s: Server, h: seq<Event>, e: Event)
    requires ServerInv(s) && EventOk(s, e) && ServerTold(s, h)
    ensures ServerInv(Dispatch(s, e)) && ServerTold(Dispatch(s, e), h + [e])
  {
    DispatchKeepsInv(s, e);
    if e.fd == s.listener {
      AcceptTold(s, h, e);
    } else {
      forall fd | fd in s.clients && fd != e.fd
        ensures ClientTold(s.clients[fd], s.epoll[fd], h + [e], fd)
      {
        OtherTold(s.clients[fd], s.epoll[fd], h, e, fd);
      }
      if e.fd in s.clients {
        HandleTold(s.clients[e.fd], s.epoll[e.fd], h, e);
      }
    }
  }

  lemma {:induction false} BatchTold(s: Server, h: seq<Event>, es: seq<Event>)
    requires ServerInv(s) && BatchOk(s, es) && ServerTold(s, h)
    ensures ServerTold(Batch(s, es), h + es)
    decreases |es|
  {
    if es == [] {
      assert h + es == h;
    } else {
      BatchTail(s, es);
      DispatchTold(s, h, es[0]);
      BatchTold(Dispatch(s, es[0]), h + [es[0]], es[1..]);
      assert h + es == h + [es[0]] + es[1..];
    }
  }

  /** The events of a run, in order. */
  function Flat(batches: seq<seq<Event>>): seq<Event> {
    if batches == [] then [] else batches[0] + Flat(batches[1..])
  }

  lemma {:induction false} RunTold(s: Server, h: seq<Event>, batches: seq<seq<Event>>, s': Server)
    requires ServerInv(s) && ServerTold(s, h) && IsRun(s, batches, s')
    ensures ServerInv(s') && ServerTold(s', h + Flat(batches))
    decreases |batches|
  {
    if batches == [] {
      assert h + Flat(batches) == h;
    } else {
      BatchTold(s, h, batches[0]);
      RunTold(Batch(s, batches[0]), h + batches[0], batches[1..], s');
      assert h + Flat(batches) == h + batches[0] + Flat(batches[1..]);
    }
  }

  lemma StartedTold(listener: Fd, batches: seq<seq<Event>>, s: Server)
    requires IsRun(Started(listener), batches, s)
    ensures ServerInv(s) && ServerTold(s, Flat(batches))
  {
    RunTold(Started(listener), [], batches, s);
    assert [] + Flat(batches) == Flat(batches);
  }

  /** On every run a live client has been sent a subsequence of the bytes that recv
      returned for it, and with the pending ones all of them exactly when no send was
      short; it is registered for writing exactly when bytes are pending, which from its
      first byte on is when its length field lies between 1 and 999. */
  lemma EchoConserves(listener: Fd, batches: seq<seq<Event>>, s: Server, fd: Fd)
    requires IsRun(Started(listener), batches, s) && fd in s.clients
    ensures fd in s.epoll && ClientInv(s.clients[fd], s.epoll[fd])
    ensures var c, i, h := s.clients[fd], s.epoll[fd], Flat(batches);
            && c.input == ReceivedBy(h, fd) && c.output == SentBy(h, fd) && Pending(c, i) == PendingBy(h, fd)
            && Subsequence(SentBy(h, fd), ReceivedBy(h, fd))
            && (SentBy(h, fd) + PendingBy(h, fd) == ReceivedBy(h, fd) <==> AllSent(h, fd))
            && (c.lost == 0 <==> AllSent(h, fd))
            && (i == EpollOut <==> PendingBy(h, fd) != [])
            && (c.input != [] ==> (i == EpollOut <==> 1 <= c.received < BUFFER_SIZE))
  {
    StartedTold(listener, batches, s);
    var c, i := s.clients[fd], s.epoll[fd];
    ConservedIffNothingLost(c, i);
    SubsequencePrefix(c.output + Pending(c, i), c.input, |c.output|);
    assert (c.output + Pending(c, i))[..|c.output|] == c.output;
  }

  /** In the middle of a batch the next event is still right. */
  lemma {:induction false} BatchUpTo(s: Server, es: seq<Event>, k: nat)
    requires ServerInv(s) && BatchOk(s, es) && k < |es|
    ensures BatchOk(s, es[..k]) && EventOk(Batch(s, es[..k]), es[k])
    decreases k
  {
    if k > 0 {
      BatchTail(s, es);
      BatchUpTo(Dispatch(s, es[0]), es[1..], k - 1);
      assert es[..k][0] == es[0] && es[..k][1..] == es[1..][..k - 1];
    }
  }

  /** On every run each client that a step removes, whichever event of its batch that
      is, was sent a subsequence of the bytes that recv returned for it, and all of them
      but those pending at a hang-up exactly when no send was short. */
  lemma RemovedWereEchoed(listener: Fd, batches: seq<seq<Event>>, s: Server, es: seq<Event>, k: nat)
    requires IsRun(Started(listener), batches, s) && BatchOk(s, es) && k < |es|
    ensures ServerInv(s)
    ensures BatchOk(s, es[..k]) && EventOk(Batch(s, es[..k]), es[k])
    ensures var s', e := Batch(s, es[..k]), es[k];
            e.fd in s'.clients && Removed(Dispatch(s', e), e.fd) ==>
              var c', h := Handle(s'.clients[e.fd], e).client, Flat(batches) + es[..k] + [e];
              && c'.input == ReceivedBy(h, e.fd) && c'.output == SentBy(h, e.fd)
              && Subsequence(SentBy(h, e.fd), ReceivedBy(h, e.fd))
              && (SentBy(h, e.fd) + PendingBy(h, e.fd) == ReceivedBy(h, e.fd) <==> AllSent(h, e.fd))
              && (PendingBy(h, e.fd) != [] ==> e.flags.hup)
  {
    StartedTold(listener, batches, s);
    BatchUpTo(s, es, k);
    BatchTold(s, Flat(batches), es[..k]);
    var s', e := Batch(s, es[..k]), es[k];
    if e.fd in s'.clients && Removed(Dispatch(s', e), e.fd) {
      var h := Flat(batches) + es[..k];
      RemovalTold(s'.clients[e.fd], s'.epoll[e.fd], h, e);
    }
  }

  lemma RemovalTold(c: Client, i: Interest, h: seq<Event>, e: Event)
    requires ClientInv(c, i) && Delivers(c, i, e) && ClientTold(c, i, h, e.fd) && Handle(c, e).removed
    ensures var c', h', fd := Handle(c, e).client, h + [e], e.fd;
            && Told(c', h', fd) && Subsequence(SentBy(h', fd), ReceivedBy(h', fd))
            && (SentBy(h', fd) + PendingBy(h', fd) == ReceivedBy(h', fd) <==> AllSent(h', fd))
            && (PendingBy(h', fd) != [] ==> e.flags.hup)
  {
    HandleTold(c, i, h, e);
    RemovalConserves(c, i, e);
    HistoryStep(h, e, e.fd);
  }

  // ------------------------------------------------------------ complete sends

  /** The send of this event, if it makes one, takes the whole pending text. */
  predicate SendsAll(s: Server, e: Event) {
    e.fd in s.clients && e.flags.out && s.clients[e.fd].received > 0 ==> e.sent == s.clients[e.fd].received
  }

  ghost predicate BatchSendsAll(s: Server, es: seq<Event>)
    requires ServerInv(s) && BatchOk(s, es)
  {
    forall k :: 0 <= k < |es| ==> SendsAll(s, es[k])
  }

  ghost predicate RunSendsAll(s: Server, batches: seq<seq<Event>>)
    decreases |batches|
  {
    batches != [] && ServerInv(s) && BatchOk(s, batches[0]) ==>
      BatchSendsAll(s, batches[0]) && RunSendsAll(Batch(s, batches[0]), batches[1..])
  }

  ghost predicate NothingLost(s: Server) {
    forall fd :: fd in s.clients ==> s.clients[fd].lost == 0
  }

  lemma {:induction false} BatchLosesNothing(s: Server, es: seq<Event>)
    requires ServerInv(s) && BatchOk(s, es) && BatchSendsAll(s, es) && NothingLost(s)
    ensures NothingLost(Batch(s, es))
    decreases |es|
  {
    if es != [] {
      BatchTail(s, es);
      forall k | 0 < k < |es|
        ensures SendsAll(Dispatch(s, es[0]), es[k])
      {
        DispatchIsLocal(s, es[0], es[k].fd);
      }
      BatchLosesNothing(Dispatch(s, es[0]), es[1..]);
    }
  }

  lemma {:induction false} RunLosesNothing(s: Server, batches: seq<seq<Event>>, s': Server)
    requires ServerInv(s) && IsRun(s, batches, s') && RunSendsAll(s, batches) && NothingLost(s)
    ensures NothingLost(s')
    decreases |batches|
  {
    if batches != [] {
      BatchLosesNothing(s, batches[0]);
      RunLosesNothing(Batch(s, batches[0]), batches[1..], s');
    }
  }

  /** With complete sends the bytes that send took from a live client, followed by the
      pending ones, are those that recv returned, on every run. */
  lemma CompleteSendsConserve(listener: Fd, batches: seq<seq<Event>>, s: Server, fd: Fd)
    requires IsRun(Started(listener), batches, s) && RunSendsAll(Started(listener), batches) && fd in s.clients
    ensures fd in s.epoll && ClientInv(s.clients[fd], s.epoll[fd])
    ensures s.clients[fd].output + Pending(s.clients[fd], s.epoll[fd]) == s.clients[fd].input
    ensures SentBy(Flat(batches), fd) + PendingBy(Flat(batches), fd) == ReceivedBy(Flat(batches), fd)
  {
    RunLosesNothing(Started(listener), batches, s);
    EchoConserves(listener, batches, s, fd);
  }

  // ------------------------------------------------------------ removed sockets

  /** A socket that is registered but no longer in the table. */
  predicate Removed(s: Server, fd: Fd) {
    fd in s.epoll && fd != s.listener && fd !in s.clients
  }

  lemma {:induction false} BatchKeepsRemoved(s: Server, es: seq<Event>, fd: Fd)
    requires ServerInv(s) && BatchOk(s, es) && Removed(s, fd)
    ensures Removed(Batch(s, es), fd)
    decreases |es|
  {
    if es != [] {
      BatchTail(s, es);
      BatchKeepsRemoved(Dispatch(s, es[0]), es[1..], fd);
    }
  }

  lemma {:induction false} RemovedForGood(s: Server, batches: seq<seq<Event>>, s': Server, fd: Fd)
    requires ServerInv(s) && IsRun(s, batches, s') && Removed(s, fd)
    ensures Removed(s', fd)
    decreases |batches|
  {
    if batches != [] {
      BatchKeepsRemoved(s, batches[0], fd);
      RemovedForGood(Batch(s, batches[0]), batches[1..], s', fd);
    }
  }

  /** A client's socket is removed by a hang-up, and by a read that fails or finds the
      end of the stream, and by nothing else; the listening socket never. */
  lemma RemovedExactlyWhen(s: Server, e: Event)
    requires ServerInv(s) && EventOk(s, e) && (e.fd in s.clients || e.fd == s.listener)
    ensures Removed(Dispatch(s, e), e.fd)
       <==> && e.fd in s.clients
            && (e.flags.hup || (!e.flags.err && e.flags.inp && (e.recv.Failed? || e.recv.data == [])))
  {
  }

  /** The events of the other sockets. */
  ghost function Others(es: seq<Event>, fd: Fd): (rs: seq<Event>)
    ensures |rs| <= |es|
    ensures forall r :: r in rs ==> r in es && r.fd != fd
  {
    if es == [] then []
    else if es[0].fd == fd then Others(es[1..], fd)
    else [es[0]] + Others(es[1..], fd)
  }

  lemma {:induction false} OthersOk(s: Server, es: seq<Event>, fd: Fd)
    requires BatchOk(s, es)
    ensures BatchOk(s, Others(es, fd))
  {
    if es != [] {
      assert forall k :: 0 < k < |es| ==> es[k] in es[1..];
      OthersOk(s, es[1..], fd);
    }
  }

  /** A removed socket is never dispatched again, not even by a later event of the
      batch in which it was removed: a batch does what it would do without the
      socket's events. */
  lemma {:induction false} RemovedIsIgnored(s: Server, es: seq<Event>, fd: Fd)
    requires ServerInv(s) && BatchOk(s, es) && Removed(s, fd)
    ensures BatchOk(s, Others(es, fd)) && Batch(s, es) == Batch(s, Others(es, fd))
    decreases |es|
  {
    OthersOk(s, es, fd);
    if es != [] {
      BatchTail(s, es);
      RemovedIsIgnored(Dispatch(s, es[0]), es[1..], fd);
      if es[0].fd != fd {
        assert Others(es, fd)[1..] == Others(es[1..], fd);
      }
    }
  }
}
