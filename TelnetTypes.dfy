/**
 * Constants and records of the telnet server (telnet_server.h).
 *
 * The two C structs become classes, because the server updates their fields
 * in place through pointers: `Client` mirrors `telnet_client_t` and `Server`
 * mirrors `telnet_server_t`.  Each class has a pure view (`ClientRec`,
 * `ServerRec`) in which the operations are specified.
 */
module TelnetTypes {

  /** An octet as it travels on the connection. */
  newtype byte = x: int | 0 <= x < 256

  // Limits (telnet_server.h:32-35).
  const MaxClients: int := 5
  const BufferSize: int := 1024
  const IdleTimeout: int := 600
  const DefaultPort: int := 8899

  // Telnet command codes of RFC 854 (telnet_server.h:38-45).
  const IAC: byte := 255
  const DONT: byte := 254
  const DO: byte := 253
  const WONT: byte := 252
  const WILL: byte := 251
  const SB: byte := 250
  const SE: byte := 240
  const ECHO: byte := 1

  // Control characters the line editor reacts to.
  const BS: byte := 8
  const LF: byte := 10
  const CR: byte := 13
  const DEL: byte := 127

  const CRLF: seq<byte> := [CR, LF]

  /** `isprint` in the C locale; bytes 128..255 are negative `char`s and never printable. */
  predicate IsPrint(c: byte) { 32 <= c <= 126 }

  /** The bytes of an ASCII string literal. */
  function Ascii(s: string): seq<byte>
  {
    seq(|s|, k requires 0 <= k < |s| => (s[k] as int % 256) as byte)
  }

  /**
   * The seven command codes are pairwise distinct, and none of them is a
   * byte the line editor would store, erase with or end a line on.
   */
  lemma CommandCodesAreControlBytes()
    ensures |{IAC, DONT, DO, WONT, WILL, SB, SE}| == 7
    ensures forall c :: c in {IAC, DONT, DO, WONT, WILL, SB, SE} ==>
              !IsPrint(c) && c != CR && c != LF && c != BS && c != DEL
  {
    var s := {IAC, DONT, DO, WONT, WILL, SB, SE};
    assert s == {IAC} + {DONT} + {DO} + {WONT} + {WILL} + {SB} + {SE};
    assert |{IAC} + {DONT}| == 2;
    assert |{IAC} + {DONT} + {DO}| == 3;
    assert |{IAC} + {DONT} + {DO} + {WONT}| == 4;
    assert |{IAC} + {DONT} + {DO} + {WONT} + {WILL}| == 5;
    assert |{IAC} + {DONT} + {DO} + {WONT} + {WILL} + {SB}| == 6;
  }

  datatype Option<T> = None | Some(value: T)

  /**
   * A peer address: `ip` is the dotted text that `inet_ntoa` gives for it and
   * `port` the port in host byte order (what `ntohs` gives).
   */
  datatype SockAddr = SockAddr(ip: seq<byte>, port: int)

  /**
   * The observable state of one `telnet_client_t`: `line` is
   * `buffer[..buffer_len]`, and `sent` is every byte handed to `send` on
   * the connection so far.
   */
  datatype ClientRec = ClientRec(
    sockfd: int,
    addr: SockAddr,
    line: seq<byte>,
    lastActive: int,
    telnetState: int,
    closed: bool,
    sent: seq<byte>)

  /** The record `telnets_add_client` fills in (telnet_proc.c:100-108). */
  function NewClient(sockfd: int, addr: SockAddr, now: int): ClientRec
  {
    ClientRec(sockfd, addr, [], now, 0, false, [])
  }

  /**
   * What holds of every client between two reads: the line leaves room for
   * the terminating NUL, holds only printable bytes, the filter state is one
   * of the five states, and the close flag is clear.
   */
  predicate ClientOk(c: ClientRec)
  {
    && |c.line| < BufferSize
    && (forall k :: 0 <= k < |c.line| ==> IsPrint(c.line[k]))
    && 0 <= c.telnetState <= 4
    && !c.closed
  }

  /** The observable state of `telnet_server_t` (the unused `read_fds` field is left out). */
  datatype ServerRec = ServerRec(
    listenSockfd: int,
    port: int,
    slots: seq<Option<ClientRec>>,
    maxClients: int,
    running: bool,
    maxFd: int)

  /** The state `telnet_server_init` leaves (telnet_server.c:31-42): no clients, running, no listening socket yet. */
  function InitialServer(port: int): ServerRec
  {
    ServerRec(-1, port, [None, None, None, None, None], MaxClients, true, 0)
  }

  /** The slot table has its fixed size. */
  predicate Shaped(s: ServerRec)
  {
    |s.slots| == MaxClients && s.maxClients == MaxClients
  }

  /** The invariant of the server between two operations. */
  predicate ServerOk(s: ServerRec)
  {
    Shaped(s) && forall i :: 0 <= i < |s.slots| && s.slots[i].Some? ==> ClientOk(s.slots[i].value)
  }

  /** `max_fd` covers the listening socket and every client socket. */
  predicate FdsCovered(s: ServerRec)
  {
    s.listenSockfd <= s.maxFd &&
    forall i :: 0 <= i < |s.slots| && s.slots[i].Some? ==> s.slots[i].value.sockfd <= s.maxFd
  }

  /**
   * No two clients share a descriptor and no client shares the listening
   * one: the operating system never hands out a descriptor that is open.
   */
  predicate DistinctFds(s: ServerRec)
  {
    && (forall i :: 0 <= i < |s.slots| && s.slots[i].Some? ==> s.slots[i].value.sockfd != s.listenSockfd)
    && (forall i, j :: 0 <= i < j < |s.slots| && s.slots[i].Some? && s.slots[j].Some? ==>
          s.slots[i].value.sockfd != s.slots[j].value.sockfd)
  }

  /** `fd` is open neither as the listening socket nor as a client's socket. */
  predicate Unused(s: ServerRec, fd: int)
  {
    fd != s.listenSockfd && forall i :: 0 <= i < |s.slots| && s.slots[i].Some? ==> s.slots[i].value.sockfd != fd
  }

  /** One `telnet_client_t` (telnet_server.h:48-59); `authenticated` and `username` are never read and are left out. */
  class Client {
    const sockfd: int
    const addr: SockAddr
    const buffer: array<byte>
    var bufferLen: int
    var lastActive: int
    var telnetState: int
    var closed: bool
    /** The bytes handed to `send` on `sockfd` so far. */
    var sent: seq<byte>

    ghost predicate Valid()
      reads this
    {
      buffer.Length == BufferSize && 0 <= bufferLen < BufferSize
    }

    ghost function View(): ClientRec
      requires Valid()
      reads this, buffer
    {
      ClientRec(sockfd, addr, buffer[..bufferLen], lastActive, telnetState, closed, sent)
    }

    /** The allocation and initialisation of `telnets_add_client` (telnet_proc.c:93-108). */
    constructor (sockfd: int, addr: SockAddr, now: int)
      ensures Valid() && fresh(buffer)
      ensures View() == NewClient(sockfd, addr, now)
    {
      this.sockfd := sockfd;
      this.addr := addr;
      buffer := new byte[BufferSize](_ => 0);
      bufferLen := 0;
      lastActive := now;
      telnetState := 0;
      closed := false;
      sent := [];
    }
  }

  /** The server (telnet_server.h:62-70); the slot table is a fixed array of nullable client pointers. */
  class Server {
    var listenSockfd: int
    var port: int
    const clients: array<Client?>
    var maxClients: int
    var running: bool
    var maxFd: int
    /** The slot table and every client object and buffer it has held. */
    ghost var Repr: set<object>

    /** `telnet_server_init` (telnet_server.c:21-49); the allocation failure of `malloc` is not modelled. */
    constructor (port: int)
      ensures Valid() && fresh(Repr)
      ensures View() == InitialServer(port)
    {
      this.port := port;
      maxClients := MaxClients;
      running := true;
      listenSockfd := -1;
      maxFd := 0;
      clients := new Client?[MaxClients];
      Repr := {clients};
      new;
      for i := 0 to MaxClients
        modifies clients
        invariant forall k :: 0 <= k < i ==> clients[k] == null
      {
        clients[i] := null;
      }
      ViewSlots();
    }

    /** The objects that belong to slot `i`. */
    ghost function SlotFrame(i: int): set<object>
      requires 0 <= i < clients.Length
      reads clients
    {
      if clients[i] == null then {} else {clients[i], clients[i].buffer}
    }

    /**
     * The table invariant: every occupant is a valid client recorded in
     * `Repr`, and no two slots share a client or a buffer.
     */
    ghost predicate Valid()
      reads this, Repr
    {
      && clients in Repr && this !in Repr
      && clients.Length == MaxClients
      && maxClients == MaxClients
      && (forall i :: 0 <= i < MaxClients && clients[i] != null ==>
            clients[i] in Repr && clients[i].buffer in Repr && clients[i].Valid())
      && (forall i, j ::
            0 <= i < MaxClients && 0 <= j < MaxClients && i != j && clients[i] != null && clients[j] != null
            ==> clients[i] != clients[j] && clients[i].buffer != clients[j].buffer)
    }

    ghost function Slot(i: int): Option<ClientRec>
      requires Valid() && 0 <= i < MaxClients
      reads this, Repr
    {
      if clients[i] == null then None else Some(clients[i].View())
    }

    ghost function View(): ServerRec
      requires Valid()
      reads this, Repr
    {
      ServerRec(listenSockfd, port, [Slot(0), Slot(1), Slot(2), Slot(3), Slot(4)], maxClients, running, maxFd)
    }

    /** Stores a new client in the empty slot `index`; every other slot keeps its client. */
    method Store(index: int, client: Client)
      requires Valid() && 0 <= index < MaxClients && clients[index] == null
      requires client.Valid() && client !in Repr && client.buffer !in Repr
      modifies this, clients
      ensures Valid()
      ensures View() == old(View()).(slots := old(View()).slots[index := Some(client.View())])
      ensures clients[index] == client
      ensures forall k :: 0 <= k < MaxClients && k != index ==> clients[k] == old(clients[k])
      ensures Repr == old(Repr) + {client, client.buffer}
    {
      clients[index] := client;
      Repr := Repr + {client, client.buffer};
      StoredKeepsValid(index);
      StoredView(index);
    }

    /** Empties slot `index`, whose occupant is dropped; every other slot keeps its client. */
    method Clear(index: int)
      requires Valid() && 0 <= index < MaxClients
      modifies clients
      ensures Valid()
      ensures View() == old(View()).(slots := old(View()).slots[index := None])
      ensures clients[index] == null
      ensures forall k :: 0 <= k < MaxClients && k != index ==> clients[k] == old(clients[k])
    {
      clients[index] := null;
      StoredKeepsValid(index);
      StoredView(index);
    }

    /**
     * After slot `index` of the table was overwritten (and nothing else was
     * changed), the table is still valid if the new occupant is.
     */
    twostate lemma StoredKeepsValid(index: int)
      requires old(Valid()) && 0 <= index < MaxClients && old(Repr) <= Repr && this !in Repr
      requires forall k :: 0 <= k < MaxClients && k != index ==> clients[k] == old(clients[k])
      requires forall k :: 0 <= k < MaxClients && old(clients[k]) != null ==> unchanged(old(clients[k]))
      requires clients[index] != null ==>
                 clients[index].Valid() && clients[index] in Repr && clients[index].buffer in Repr
                 && clients[index] !in old(Repr) && clients[index].buffer !in old(Repr)
      requires unchanged(this`maxClients)
      ensures Valid()
    {
    }

    /** After slot `index` was overwritten, the view differs in that slot alone. */
    twostate lemma StoredView(index: int)
      requires old(Valid()) && Valid() && 0 <= index < MaxClients
      requires unchanged(this`listenSockfd, this`port, this`maxClients, this`running, this`maxFd)
      requires forall k :: 0 <= k < MaxClients && k != index ==> clients[k] == old(clients[k])
      requires forall k :: 0 <= k < MaxClients && old(clients[k]) != null ==> unchanged(old(clients[k]), old(clients[k]).buffer)
      ensures View() == old(View()).(slots := old(View()).slots[index := Slot(index)])
    {
      assert forall k :: 0 <= k < MaxClients && k != index ==> Slot(k) == old(Slot(k));
      ViewSlots();
      assert View().slots == old(View()).slots[index := Slot(index)];
    }

    /** `send` on the connection of slot `index`: the bytes are appended to that client's transcript. */
    method SendTo(index: int, bytes: seq<byte>)
      requires Valid() && 0 <= index < MaxClients && clients[index] != null
      modifies clients[index]
      ensures Valid()
      ensures clients[index].sent == old(clients[index].sent) + bytes
      ensures View() == old(View()).(slots := old(View()).slots[index := Some(old(View()).slots[index].value.(sent := old(View()).slots[index].value.sent + bytes))])
    {
      ViewSlots();
      var client := clients[index];
      client.sent := client.sent + bytes;
      ClientUpdated(index);
    }

    /**
     * After the client in slot `index` (and only it) was updated in place,
     * the view differs from the earlier one in that slot alone.
     */
    twostate lemma ClientUpdated(index: int)
      requires old(Valid()) && 0 <= index < MaxClients && old(clients[index]) != null
      requires unchanged(this) && unchanged(clients)
      requires forall k :: 0 <= k < MaxClients && k != index && clients[k] != null ==> unchanged(clients[k], clients[k].buffer)
      requires clients[index].Valid()
      ensures Valid()
      ensures View() == old(View()).(slots := old(View()).slots[index := Some(clients[index].View())])
    {
      assert Valid();
      assert forall k :: 0 <= k < MaxClients && k != index ==> Slot(k) == old(Slot(k));
      ViewSlots();
      assert View().slots == old(View()).slots[index := Some(clients[index].View())];
    }

    /** Assigns `max_fd`; nothing else changes. */
    method SetMaxFd(fd: int)
      requires Valid()
      modifies this
      ensures Valid() && Repr == old(Repr)
      ensures View() == old(View()).(maxFd := fd)
    {
      maxFd := fd;
      FieldsAssigned();
    }

    /** Assigns `listen_sockfd`; nothing else changes. */
    method SetListenSockfd(fd: int)
      requires Valid()
      modifies this
      ensures Valid() && Repr == old(Repr)
      ensures View() == old(View()).(listenSockfd := fd)
    {
      listenSockfd := fd;
      FieldsAssigned();
    }

    /** Assigns `running`; nothing else changes. */
    method SetRunning(b: bool)
      requires Valid()
      modifies this
      ensures Valid() && Repr == old(Repr)
      ensures View() == old(View()).(running := b)
    {
      running := b;
      FieldsAssigned();
    }

    /** After only scalar fields of the server were assigned, the slots of the view are as before. */
    twostate lemma FieldsAssigned()
      requires old(Valid()) && Repr == old(Repr) && unchanged(old(Repr)) && maxClients == old(maxClients)
      ensures Valid()
      ensures View() == old(View()).(listenSockfd := listenSockfd, port := port, running := running, maxFd := maxFd)
    {
      assert forall k :: 0 <= k < MaxClients ==> Slot(k) == old(Slot(k));
      ViewSlots();
    }

    /** The view lists the slots in index order. */
    lemma ViewSlots()
      requires Valid()
      ensures Shaped(View())
      ensures forall i :: 0 <= i < MaxClients ==> View().slots[i] == Slot(i)
      ensures forall i :: 0 <= i < MaxClients ==> (View().slots[i].None? <==> clients[i] == null)
    {
    }
  }
}
