/** The classes of TcpEchoServer.cpp, which carry out the steps of EchoServer in place. */
module EchoLoop {
  import opened Bytes
  import opened EchoServer

  /** The socket handler. Its fields start uninitialised; the ghost fields record what
      passes through it. */
  class EchoHandler {
    const fd: Fd
    var received: int
    const buffer: array<Byte>
    ghost var input: seq<Byte>
    ghost var output: seq<Byte>
    ghost var lost: nat

    ghost function Abs(): Client
      reads this, buffer
    {
      Client(received, buffer[..], input, output, lost)
    }

    constructor (client: Fd, uninitialised: Client)
      requires |uninitialised.buffer| == BUFFER_SIZE
      ensures fd == client && buffer.Length == BUFFER_SIZE && fresh(buffer)
      ensures Abs() == Fresh(uninitialised)
    {
      fd := client;
      received := uninitialised.received;
      buffer := new Byte[BUFFER_SIZE](i requires 0 <= i < BUFFER_SIZE => uninitialised.buffer[i]);
      input, output, lost := [], [], 0;
      new;
      assert buffer[..] == uninitialised.buffer;
    }

    /** The kernel's recv: it writes to the front of the buffer. */
    method Receive(r: Recv) returns (n: int)
      requires buffer.Length == BUFFER_SIZE && (r.Got? ==> |r.data| < BUFFER_SIZE)
      modifies buffer
      ensures n == if r.Failed? then -1 else |r.data|
      ensures buffer[..] == if r.Failed? then old(buffer[..]) else r.data + old(buffer[|r.data|..])
    {
      if r.Failed? {
        return -1;
      }
      forall i | 0 <= i < |r.data| {
        buffer[i] := r.data[i];
      }
      n := |r.data|;
    }

    method HandleEvent(l: SocketsListener, e: Event)
      requires Handleable(Abs(), e) && fd in l.epoll
      modifies this, buffer, l`handlers, l`epoll
      ensures var h := Handle(old(Abs()), e);
              && Abs() == h.client
              && l.handlers == (if h.removed then old(l.handlers) - {fd} else old(l.handlers))
              && l.epoll == Updated(old(l.epoll), fd, h.interest)
    {
      if e.flags.hup {
        l.RemoveSocket(fd);
        return;
      }
      if e.flags.err {
        return;
      }
      if e.flags.out {
        SendPending(e.sent);
        l.UpdateSocket(fd, EpollIn);
      }
      if e.flags.inp {
        ReceiveMore(e.recv);
        if received > 0 {
          l.UpdateSocket(fd, EpollOut);
        } else {
          l.RemoveSocket(fd);
        }
      }
    }

    /** The send branch, up to the change of interest. */
    method SendPending(sent: int)
      requires buffer.Length == BUFFER_SIZE && received <= BUFFER_SIZE && sent <= Max0(received)
      modifies this
      ensures Abs() == AfterSend(old(Abs()), sent)
    {
      if received > 0 {
        output := output + buffer[..Max0(sent)];
        lost := lost + received - Max0(sent);
      }
      received := 0;
    }

    /** The receive branch, up to the change of interest. */
    method ReceiveMore(r: Recv)
      requires buffer.Length == BUFFER_SIZE && (r.Got? ==> |r.data| < BUFFER_SIZE)
      modifies this, buffer
      ensures Abs() == if r.Failed? then old(Abs()).(received := -1) else AfterRecv(old(Abs()), r.data)
    {
      ghost var before := buffer[..];
      received := Receive(r);
      if received > 0 {
        buffer[received] := 0;
        assert buffer[..] == r.data + [0] + before[|r.data| + 1..];
      }
      if r.Got? {
        input := input + r.data;
      }
    }
  }

  /** A handler of the table: the server's own, or a client's. */
  datatype Handler = ServerHandler | ClientHandler(h: EchoHandler)

  class SocketsListener {
    const listener: Fd
    var handlers: map<Fd, Handler>
    var epoll: map<Fd, Interest>
    ghost var Repr: set<object>

    /** Every entry's key is its handler's descriptor, and no two entries share a
        handler or a buffer. */
    ghost predicate Valid()
      reads this, Repr
    {
      && this in Repr && listener in handlers && handlers.Keys <= epoll.Keys
      && (forall fd :: fd in handlers ==> (handlers[fd].ServerHandler? <==> fd == listener))
      && (forall fd :: fd in handlers && handlers[fd].ClientHandler? ==> Owned(fd, handlers[fd].h))
      && (forall fd, fd' :: fd in handlers && fd' in handlers && fd != fd'
                            && handlers[fd].ClientHandler? && handlers[fd'].ClientHandler?
            ==> handlers[fd].h != handlers[fd'].h && handlers[fd].h.buffer != handlers[fd'].h.buffer)
    }

    ghost predicate Owned(fd: Fd, h: EchoHandler)
      reads this
    {
      h in Repr && h.buffer in Repr && h.fd == fd && h.buffer.Length == BUFFER_SIZE
    }

    ghost function Abs(): Server
      requires Valid()
      reads this, Repr
    {
      Server(listener, map fd | fd in handlers && handlers[fd].ClientHandler? :: handlers[fd].h.Abs(), epoll)
    }

    constructor (fd: Fd)
      ensures Valid() && fresh(Repr) && Abs() == Started(fd)
    {
      listener, handlers, epoll := fd, map[fd := ServerHandler], map[fd := EpollIn];
      Repr := {this};
    }

    /** epoll_ctl refuses a descriptor that it has already. */
    method AddSocketHandler(fd: Fd, events: Interest, handler: Handler)
      modifies this`handlers, this`epoll
      ensures handlers == old(handlers)[fd := handler]
      ensures epoll == if fd in old(epoll) then old(epoll) else old(epoll)[fd := events]
    {
      handlers := handlers[fd := handler];
      if fd !in epoll {
        epoll := epoll[fd := events];
      }
    }

    /** The descriptor stays in the interest list. */
    method RemoveSocket(fd: Fd)
      modifies this`handlers
      ensures handlers == old(handlers) - {fd}
    {
      handlers := handlers - {fd};
    }

    /** epoll_ctl refuses a descriptor that it does not have. */
    method UpdateSocket(fd: Fd, events: Interest)
      modifies this`epoll
      ensures epoll == if fd in old(epoll) then old(epoll)[fd := events] else old(epoll)
    {
      if fd in epoll {
        epoll := epoll[fd := events];
      }
    }

    /** ServerHandler::handle: a client that connects gets a handler of its own. */
    method AcceptClient(e: Event)
      requires Valid() && EventOk(Abs(), e) && e.fd == listener
      modifies this
      ensures Valid() && fresh(Repr - old(Repr))
      ensures Abs() == Accept(old(Abs()), e)
    {
      if e.accepted.None? {
        return;
      }
      var client := e.accepted.value;
      var handler := new EchoHandler(client, e.uninitialised);
      AddSocketHandler(client, EpollIn, ClientHandler(handler));
      Repr := Repr + {handler, handler.buffer};
    }

    method DispatchClient(e: Event, h: EchoHandler)
      requires Valid() && EventOk(Abs(), e) && e.fd in handlers && handlers[e.fd] == ClientHandler(h)
      modifies Repr
      ensures Valid() && Repr == old(Repr)
      ensures Abs() == Dispatch(old(Abs()), e)
    {
      ghost var before := Abs();
      assert e.fd in before.clients && before.clients[e.fd] == h.Abs();
      h.HandleEvent(this, e);
      forall fd | fd in handlers && fd != e.fd && handlers[fd].ClientHandler?
        ensures handlers[fd].h.Abs() == before.clients[fd]
      {
        assert handlers[fd].h != h && handlers[fd].h.buffer != h.buffer;
      }
    }

    /** The body of the loop over the reported events. */
    method DispatchEvent(e: Event)
      requires Valid() && EventOk(Abs(), e)
      modifies Repr
      ensures Valid() && fresh(Repr - old(Repr))
      ensures Abs() == Dispatch(old(Abs()), e)
    {
      if e.fd in handlers {
        match handlers[e.fd] {
          case ServerHandler => AcceptClient(e);
          case ClientHandler(h) => DispatchClient(e, h);
        }
      }
    }

    /** One turn of the endless loop of run(): the events that epoll_wait reported are
        dispatched in order, each only if its socket is still in the table. */
    method RunOnce(events: seq<Event>)
      requires Valid() && ServerInv(Abs()) && BatchOk(Abs(), events)
      modifies Repr
      ensures Valid() && fresh(Repr - old(Repr))
      ensures Abs() == Batch(old(Abs()), events)
    {
      ghost var goal := Batch(Abs(), events);
      assert events[0..] == events;
      for i := 0 to |events|
        invariant Valid() && fresh(Repr - old(Repr))
        invariant ServerInv(Abs()) && BatchOk(Abs(), events[i..])
        invariant Batch(Abs(), events[i..]) == goal
      {
        assert events[i..][1..] == events[i + 1..];
        BatchTail(Abs(), events[i..]);
        DispatchEvent(events[i]);
      }
    }
  }
}
