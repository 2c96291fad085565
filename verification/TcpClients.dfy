/** The client slots of the TCP server (interface/tcpserver.cpp: AcceptTcpClient,
    DisconnectTcpClient, FindClientBySocket, the event loop).
*/
module TcpClients {

  const TCP_MAX_CLIENTS: nat := 6
  const INVALID_SOCKET: int := -1

  datatype Client = Client(connected: bool, sock: int, addr: int)

  /** InitTcpClient. */
  const EMPTY := Client(false, INVALID_SOCKET, 0)

  datatype Status = NO_ERRORS | ERROR_OCCURED

  /** What epoll reports for one descriptor. `rc` is ReceiveTcpData's answer. */
  datatype Event =
    | Listen(sock: int, addr: int, epollOk: bool)
    | Hangup(fd: int)
    | Readable(fd: int, rc: Status)

  function Connected(slots: seq<Client>): (n: nat)
    ensures n <= |slots|
  {
    if slots == [] then 0
    else Connected(slots[..|slots| - 1]) + if slots[|slots| - 1].connected then 1 else 0
  }

  lemma {:induction false} ConnectedUpdate(slots: seq<Client>, i: nat, c: Client)
    requires i < |slots|
    ensures Connected(slots[i := c]) ==
            Connected(slots) + (if c.connected then 1 else 0) - (if slots[i].connected then 1 else 0)
  {
    var last := |slots| - 1;
    if i == last {
      assert slots[i := c][..last] == slots[..last];
    } else {
      assert slots[i := c][..last] == slots[..last][i := c];
      ConnectedUpdate(slots[..last], i, c);
    }
  }

  lemma {:induction false} NoneConnected(slots: seq<Client>)
    requires forall i :: 0 <= i < |slots| ==> !slots[i].connected
    ensures Connected(slots) == 0
  {
    if slots != [] {
      NoneConnected(slots[..|slots| - 1]);
    }
  }

  /** One slot per live peer and per socket. */
  predicate Distinct(slots: seq<Client>) {
    forall i, j :: 0 <= i < j < |slots| && slots[i].connected && slots[j].connected ==>
      slots[i].addr != slots[j].addr && slots[i].sock != slots[j].sock
  }

  /** Free slots look freshly initialised. */
  predicate Clean(slots: seq<Client>) {
    forall i :: 0 <= i < |slots| && !slots[i].connected ==> slots[i] == EMPTY
  }

  /** Every slot of a reconnecting peer is a ghost of its earlier session. */
  function Reaped(slots: seq<Client>, addr: int): (r: seq<Client>)
    ensures |r| == |slots|
    ensures forall i :: 0 <= i < |r| ==> r[i] == if slots[i].connected && slots[i].addr == addr then EMPTY else slots[i]
  {
    seq(|slots|, i requires 0 <= i < |slots| => if slots[i].connected && slots[i].addr == addr then EMPTY else slots[i])
  }

  /** The slot a new peer gets: the first free one, or slot 0 when all are taken. */
  predicate Chosen(slots: seq<Client>, idx: int) {
    && 0 <= idx < |slots|
    && (forall j :: 0 <= j < idx ==> slots[j].connected)
    && (slots[idx].connected ==> idx == 0 && forall j :: 0 <= j < |slots| ==> slots[j].connected)
  }

  /** Which slot that is, by the slots before: the first that is free or was the same
      peer's - all of which become free - and slot 0 if every slot is another peer's. */
  lemma ChosenExactly(slots: seq<Client>, addr: int, idx: nat)
    requires 0 < |slots|
    ensures Chosen(Reaped(slots, addr), idx) <==>
            if exists j :: 0 <= j < |slots| && (!slots[j].connected || slots[j].addr == addr) then
              && idx < |slots| && (!slots[idx].connected || slots[idx].addr == addr)
              && forall j :: 0 <= j < idx ==> slots[j].connected && slots[j].addr != addr
            else idx == 0
    ensures forall j :: 0 <= j < |slots| ==>
              Reaped(slots, addr)[j] == if slots[j].connected && slots[j].addr == addr then Client(false, -1, 0) else slots[j]
  {
    var reaped := Reaped(slots, addr);
    if j :| 0 <= j < |slots| && (!slots[j].connected || slots[j].addr == addr) {
      assert !reaped[j].connected;
    }
  }

  class Server {
    const clients: array<Client>
    var numClients: int

    ghost predicate Valid()
      reads this, clients
    {
      && clients.Length == TCP_MAX_CLIENTS
      && numClients == Connected(clients[..])
      && Distinct(clients[..])
      && Clean(clients[..])
    }

    constructor ()
      ensures Valid() && fresh(clients) && numClients == 0
      ensures forall i :: 0 <= i < clients.Length ==> !clients[i].connected
    {
      clients := new Client[TCP_MAX_CLIENTS](_ => EMPTY);
      numClients := 0;
      new;
      NoneConnected(clients[..]);
    }

    /** DisconnectTcpClient followed by the caller's g_numClients--. */
    method Drop(idx: nat)
      requires Valid() && idx < clients.Length && clients[idx].connected
      modifies this, clients
      ensures Valid() && clients[..] == old(clients[..])[idx := EMPTY]
      ensures numClients == old(numClients) - 1
    {
      ConnectedUpdate(clients[..], idx, EMPTY);
      clients[idx] := EMPTY;
      numClients := numClients - 1;
    }

    /** Afterwards the new peer owns exactly one slot and everybody else's slot is
        as before, except that a full table gives up slot 0. */
    method Accept(sock: int, addr: int, epollOk: bool) returns (rc: Status)
      requires Valid()
      requires forall i :: 0 <= i < clients.Length && clients[i].connected ==> clients[i].sock != sock
      modifies this, clients
      ensures Valid()
      ensures sock == INVALID_SOCKET ==> clients[..] == old(clients[..])
      ensures rc == NO_ERRORS <==> sock != INVALID_SOCKET && epollOk
      ensures sock != INVALID_SOCKET ==>
                var reaped := Reaped(old(clients[..]), addr);
                exists idx :: Chosen(reaped, idx) &&
                  clients[..] == reaped[idx := if epollOk then Client(true, sock, addr) else EMPTY]
      ensures forall i :: 0 <= i < clients.Length ==>
                || clients[i] == old(clients[i])
                || clients[i] == EMPTY
                || (epollOk && clients[i] == Client(true, sock, addr))
    {
      if sock == INVALID_SOCKET {
        return ERROR_OCCURED;
      }
      Reap(addr);
      ghost var reaped := clients[..];
      var idx := 0;
      while idx < clients.Length && clients[idx].connected
        invariant 0 <= idx <= clients.Length
        invariant forall j :: 0 <= j < idx ==> clients[j].connected
      {
        idx := idx + 1;
      }
      if idx >= clients.Length {
        Drop(0);
        idx := 0;
      }
      assert Chosen(reaped, idx);
      assert clients[..] == reaped[idx := EMPTY];
      if !epollOk {
        return ERROR_OCCURED;
      }
      ConnectedUpdate(clients[..], idx, Client(true, sock, addr));
      clients[idx] := Client(true, sock, addr);
      numClients := numClients + 1;
      assert clients[..] == reaped[idx := Client(true, sock, addr)];
      return NO_ERRORS;
    }

    /** Per-peer de-duplication. */
    method Reap(addr: int)
      requires Valid()
      modifies this, clients
      ensures Valid() && clients[..] == Reaped(old(clients[..]), addr)
    {
      for j := 0 to clients.Length
        invariant Valid()
        invariant forall i :: 0 <= i < j ==> clients[i] == Reaped(old(clients[..]), addr)[i]
        invariant forall i :: j <= i < clients.Length ==> clients[i] == old(clients[i])
      {
        if clients[j].connected && clients[j].addr == addr {
          Drop(j);
        }
      }
    }

    method FindClientBySocket(sock: int) returns (idx: int)
      requires Valid()
      ensures -1 <= idx < clients.Length
      ensures idx >= 0 ==> clients[idx].connected && clients[idx].sock == sock
      ensures idx == -1 <==> forall i :: 0 <= i < clients.Length && clients[i].connected ==> clients[i].sock != sock
    {
      for i := 0 to clients.Length
        invariant forall j :: 0 <= j < i && clients[j].connected ==> clients[j].sock != sock
      {
        if clients[i].connected && clients[i].sock == sock {
          return i;
        }
      }
      return -1;
    }

    /** One turn of the event loop. Only the slot the event belongs to changes,
        and a descriptor no slot knows is skipped. */
    method HandleEvent(e: Event)
      requires Valid()
      requires e.Listen? ==> forall i :: 0 <= i < clients.Length && clients[i].connected ==> clients[i].sock != e.sock
      modifies this, clients
      ensures Valid()
      ensures e.Listen? ==>
                forall i :: 0 <= i < clients.Length ==>
                  || clients[i] == old(clients[i])
                  || clients[i] == EMPTY
                  || (e.epollOk && clients[i] == Client(true, e.sock, e.addr))
      ensures e.Hangup? || (e.Readable? && e.rc == ERROR_OCCURED) ==>
                forall i :: 0 <= i < clients.Length ==>
                  clients[i] == if old(clients[i]).connected && old(clients[i]).sock == e.fd then EMPTY else old(clients[i])
      ensures e.Readable? && e.rc == NO_ERRORS ==> clients[..] == old(clients[..])
    {
      match e
      case Listen(sock, addr, epollOk) =>
        var _ := Accept(sock, addr, epollOk);
      case Hangup(fd) =>
        var idx := FindClientBySocket(fd);
        if idx >= 0 {
          Drop(idx);
        }
      case Readable(fd, rc) =>
        var idx := FindClientBySocket(fd);
        if idx >= 0 && rc == ERROR_OCCURED {
          Drop(idx);
        }
    }
  }

  /** A run of the event loop from start-up: whatever is accepted, hung up, broken
      or evicted, the count is right, bounded, and peers are distinct. */
  method Serve(events: seq<Event>) returns (slots: seq<Client>, count: int)
    requires FreshSockets(events)
    ensures |slots| == TCP_MAX_CLIENTS && count == Connected(slots) && 0 <= count <= TCP_MAX_CLIENTS
    ensures Distinct(slots)
    ensures forall i :: 0 <= i < |slots| && slots[i].connected ==> exists k :: 0 <= k < |events| && Accepts(events[k], slots[i])
  {
    var server := new Server();
    for n := 0 to |events|
      invariant server.Valid() && fresh(server) && fresh(server.clients)
      invariant forall i :: 0 <= i < server.clients.Length && server.clients[i].connected ==>
                  exists k :: 0 <= k < n && Accepts(events[k], server.clients[i])
    {
      ghost var before := server.clients[..];
      server.HandleEvent(events[n]);
      forall i | 0 <= i < server.clients.Length && server.clients[i].connected
        ensures exists k :: 0 <= k <= n && Accepts(events[k], server.clients[i])
      {
        if server.clients[i] == before[i] {
          assert before[i].connected;
        } else {
          assert Accepts(events[n], server.clients[i]);
        }
      }
    }
    return server.clients[..], server.numClients;
  }

  predicate Accepts(e: Event, c: Client) {
    e.Listen? && e.epollOk && c == Client(true, e.sock, e.addr)
  }

  /** accept never returns a descriptor that is still open: here, none twice. */
  predicate FreshSockets(events: seq<Event>) {
    forall i, j :: 0 <= i < j < |events| && events[i].Listen? && events[j].Listen? ==> events[i].sock != events[j].sock
  }
}
