/**
 * The life cycle of `telnet_server_t` (telnet_server.c:21-209): creation,
 * the listening socket, the select loop of `telnet_server_start` one tick at
 * a time, `telnet_server_stop` and `telnet_server_destroy`.
 *
 * A tick takes from outside what the operating system would decide: what
 * `select` reports, what `accept` returns, what `recv` returns on each
 * descriptor, and the clock.
 */
module TelnetServer {
  import opened TelnetTypes
  import opened TelnetCommand
  import opened TelnetUtil
  import opened TelnetSlots
  import opened TelnetRecv

  /** A new server holds no client, is running, and has no listening socket yet. */
  lemma InitialServerProperties(port: int)
    ensures var s := InitialServer(port);
            && ServerOk(s) && FdsCovered(s) && s.running && s.port == port
            && (forall k :: 0 <= k < MaxClients ==> s.slots[k].None?)
            && FirstFree(s.slots) == 0
  {
  }

  /**
   * What setting up the listening socket gave: the result of `socket`, and
   * whether `fcntl`, `setsockopt`, `bind` and `listen` all succeeded.
   */
  datatype ListenSetup = ListenSetup(sockfd: int, configured: bool)

  /**
   * The set-up part of `telnet_server_start` (telnet_server.c:58-108) on the
   * view: the status and the new state.  The result of `socket` is stored
   * even when it or a later step fails.
   */
  function ListenSpec(s: ServerRec, l: ListenSetup): (r: (ServerRec, int))
  {
    if l.sockfd < 0 || !l.configured then (s.(listenSockfd := l.sockfd), -1)
    else (s.(listenSockfd := l.sockfd, maxFd := l.sockfd), 0)
  }

  /**
   * Set-up succeeds exactly when every step does; on success a new server
   * satisfies both invariants, and the slot table is never touched.
   */
  lemma ListenProperties(s: ServerRec, l: ListenSetup)
    ensures var (r, status) := ListenSpec(s, l);
            && (status == 0 <==> l.sockfd >= 0 && l.configured)
            && (status == -1 <==> !(l.sockfd >= 0 && l.configured))
            && r.listenSockfd == l.sockfd && r.slots == s.slots && r.running == s.running
            && (status == 0 && s == InitialServer(s.port) ==> ServerOk(r) && FdsCovered(r) && DistinctFds(r))
  {
  }

  /** The listening-socket set-up of `telnet_server_start` (telnet_server.c:58-108). */
  method Listen(server: Server, l: ListenSetup) returns (status: int)
    requires server.Valid()
    modifies server
    ensures server.Valid()
    ensures (server.View(), status) == ListenSpec(old(server.View()), l)
    ensures server.Repr == old(server.Repr)
  {
    server.SetListenSockfd(l.sockfd);
    if server.listenSockfd < 0 || !l.configured {
      return -1;
    }
    server.SetMaxFd(server.listenSockfd);
    return 0;
  }

  /** The descriptors of the occupied slots among the first `n`. */
  function OccupiedFds(slots: seq<Option<ClientRec>>, n: nat): (r: set<int>)
    requires n <= |slots|
    ensures forall k :: 0 <= k < n && slots[k].Some? ==> slots[k].value.sockfd in r
    ensures forall fd :: fd in r ==> exists k :: 0 <= k < n && slots[k].Some? && slots[k].value.sockfd == fd
  {
    if n == 0 then {}
    else if slots[n - 1].Some? then OccupiedFds(slots, n - 1) + {slots[n - 1].value.sockfd}
    else OccupiedFds(slots, n - 1)
  }

  /** `max_fd` after the loop of telnet_server.c:124-137 has visited the first `n` slots. */
  function RaiseOver(maxFd: int, slots: seq<Option<ClientRec>>, n: nat): int
    requires n <= |slots|
  {
    if n == 0 then maxFd
    else
      var m := RaiseOver(maxFd, slots, n - 1);
      if slots[n - 1].Some? then RaiseMaxFd(m, slots[n - 1].value.sockfd) else m
  }

  /**
   * The loop leaves `max_fd` at the largest of its old value and the
   * descriptors it visited; so it never decreases, and it is a no-op when
   * `max_fd` already covered them.
   */
  lemma {:induction false} RaiseOverProperties(maxFd: int, slots: seq<Option<ClientRec>>, n: nat)
    requires n <= |slots|
    ensures var r := RaiseOver(maxFd, slots, n);
            && r >= maxFd
            && (forall k :: 0 <= k < n && slots[k].Some? ==> slots[k].value.sockfd <= r)
            && (r == maxFd || exists k :: 0 <= k < n && slots[k].Some? && slots[k].value.sockfd == r)
            && ((forall k :: 0 <= k < n && slots[k].Some? ==> slots[k].value.sockfd <= maxFd) ==> r == maxFd)
  {
    if n > 0 {
      RaiseOverProperties(maxFd, slots, n - 1);
    }
  }

  /**
   * The read-set construction of telnet_server.c:118-137: the listening
   * socket and every occupied slot's descriptor are watched, and `max_fd` is
   * raised over them.
   */
  method BuildReadSet(server: Server) returns (interest: set<int>)
    requires server.Valid()
    modifies server
    ensures server.Valid()
    ensures server.View() == old(server.View()).(maxFd := RaiseOver(old(server.maxFd), old(server.View()).slots, MaxClients))
    ensures interest == {old(server.listenSockfd)} + OccupiedFds(old(server.View()).slots, MaxClients)
    ensures server.Repr == old(server.Repr)
  {
    ghost var s := server.View();
    server.ViewSlots();
    interest := {server.listenSockfd};
    for i := 0 to server.maxClients
      invariant server.Valid()
      invariant server.View() == s.(maxFd := RaiseOver(s.maxFd, s.slots, i))
      invariant interest == {s.listenSockfd} + OccupiedFds(s.slots, i)
      invariant server.Repr == old(server.Repr)
    {
      server.ViewSlots();
      if server.clients[i] != null {
        var sockfd := server.clients[i].sockfd;
        interest := interest + {sockfd};
        if sockfd > server.maxFd {
          server.SetMaxFd(sockfd);
        }
      }
    }
  }

  /** What `select` reported: the ready descriptors, or a failure (interrupted by a signal or not). */
  datatype SelectResult = Ready(fds: set<int>) | SelectFailed(interrupted: bool)

  /**
   * The inputs of one tick: the clock, what `select` reports, what `accept`
   * would return, and what `recv` would return on each descriptor.
   */
  datatype TickInput = TickInput(env: Env, select: SelectResult, accept: Accept, recvOn: int -> ReadResult)

  /**
   * The descriptors `FD_ISSET` finds after `select`.  On success these are
   * the watched ones `select` reported; after an interrupted call the set is
   * left as it was built, so every watched descriptor tests as ready.
   */
  function ReadySet(interest: set<int>, sel: SelectResult): (r: set<int>)
    ensures r <= interest
    ensures sel.Ready? ==> forall fd :: fd in r <==> fd in interest && fd in sel.fds
    ensures sel.SelectFailed? ==> r == interest
  {
    if sel.Ready? then interest * sel.fds else interest
  }

  /** One iteration of the receive loop (telnet_server.c:161-169): an occupied slot whose descriptor is ready is read. */
  function Visit(s: ServerRec, i: int, ready: set<int>, recvOn: int -> ReadResult, env: Env): (r: ServerRec)
    requires Shaped(s) && 0 <= i < MaxClients
    ensures Shaped(r)
  {
    if s.slots[i].Some? && s.slots[i].value.sockfd in ready then ReceiveAt(s, i, recvOn(s.slots[i].value.sockfd), env)
    else s
  }

  /** The receive loop after it has visited the first `n` slots, in index order. */
  function RecvPass(s: ServerRec, n: nat, ready: set<int>, recvOn: int -> ReadResult, env: Env): (r: ServerRec)
    requires Shaped(s) && n <= MaxClients
    ensures Shaped(r)
  {
    if n == 0 then s else Visit(RecvPass(s, n - 1, ready, recvOn, env), n - 1, ready, recvOn, env)
  }

  /**
   * One pass of the loop of `telnet_server_start` (telnet_server.c:111-174)
   * on the view: build the read set, `select`, at most one accept, the
   * receive loop, then the idle sweep.  A failure of `select` other than an
   * interruption ends the pass right after the read set was built.
   */
  function TickSpec(s: ServerRec, t: TickInput): (r: ServerRec)
    requires Shaped(s)
    ensures Shaped(r)
  {
    var interest := {s.listenSockfd} + OccupiedFds(s.slots, MaxClients);
    var built := s.(maxFd := RaiseOver(s.maxFd, s.slots, MaxClients));
    if t.select.SelectFailed? && !t.select.interrupted then built
    else
      var ready := ReadySet(interest, t.select);
      var accepted := if s.listenSockfd in ready then AcceptSpec(built, t.accept, t.env.now) else built;
      ReapSpec(RecvPass(accepted, MaxClients, ready, t.recvOn, t.env), t.env.now)
  }

  /**
   * Reading one slot keeps both invariants, keeps the listening socket,
   * `max_fd` and the running flag, and leaves every other slot alone.
   */
  lemma ReceiveAtKeepsInvariants(s: ServerRec, index: int, r: ReadResult, env: Env)
    requires ServerOk(s) && 0 <= index < MaxClients
    ensures var t := ReceiveAt(s, index, r, env);
            && ServerOk(t)
            && (FdsCovered(s) ==> FdsCovered(t))
            && (DistinctFds(s) ==> DistinctFds(t))
            && t.listenSockfd == s.listenSockfd && t.maxFd == s.maxFd && t.running == s.running
  {
    if s.slots[index].Some? {
      ReceiveKeepsClientOk(s.slots[index].value, r, env);
    }
  }

  /** The receive loop keeps the invariants, distinct descriptors and the fields outside the slot table. */
  lemma {:induction false} RecvPassKeepsInvariants(s: ServerRec, n: nat, ready: set<int>, recvOn: int -> ReadResult, env: Env)
    requires ServerOk(s) && n <= MaxClients
    ensures var t := RecvPass(s, n, ready, recvOn, env);
            && ServerOk(t)
            && (FdsCovered(s) ==> FdsCovered(t))
            && (DistinctFds(s) ==> DistinctFds(t))
            && t.listenSockfd == s.listenSockfd && t.maxFd == s.maxFd && t.running == s.running
  {
    if n > 0 {
      RecvPassKeepsInvariants(s, n - 1, ready, recvOn, env);
      var p := RecvPass(s, n - 1, ready, recvOn, env);
      if p.slots[n - 1].Some? && p.slots[n - 1].value.sockfd in ready {
        ReceiveAtKeepsInvariants(p, n - 1, recvOn(p.slots[n - 1].value.sockfd), env);
      }
    }
  }

  /**
   * A tick keeps the server invariant, never lowers `max_fd`, never changes
   * the listening socket or the running flag, leaves `max_fd` covering every
   * client descriptor (and the listening one, if it did before), and after a
   * tick that reached the sweep no client is idle past the timeout.
   */
  lemma TickKeepsInvariants(s: ServerRec, t: TickInput)
    requires ServerOk(s)
    ensures var r := TickSpec(s, t);
            && ServerOk(r)
            && r.maxFd >= s.maxFd
            && r.listenSockfd == s.listenSockfd && r.running == s.running
            && SlotsCovered(r)
            && (FdsCovered(s) ==> FdsCovered(r))
            && (!(t.select.SelectFailed? && !t.select.interrupted) ==>
                  forall k :: 0 <= k < MaxClients && r.slots[k].Some? ==> !TimedOut(r.slots[k].value.lastActive, t.env.now))
  {
    RaiseOverProperties(s.maxFd, s.slots, MaxClients);
    var built := s.(maxFd := RaiseOver(s.maxFd, s.slots, MaxClients));
    assert SlotsCovered(built);
    if !(t.select.SelectFailed? && !t.select.interrupted) {
      var interest := {s.listenSockfd} + OccupiedFds(s.slots, MaxClients);
      var ready := ReadySet(interest, t.select);
      var accepted := if s.listenSockfd in ready then AcceptSpec(built, t.accept, t.env.now) else built;
      if s.listenSockfd in ready {
        AcceptKeepsCover(built, t.accept, t.env.now);
      }
      RecvReapKeepsInvariants(accepted, ready, t.recvOn, t.env);
    }
  }

  /**
   * When `accept` fails or returns a descriptor that is not open, a tick
   * keeps the descriptors of the clients and of the listening socket
   * pairwise distinct.
   */
  lemma TickKeepsDistinctFds(s: ServerRec, t: TickInput)
    requires ServerOk(s) && DistinctFds(s) && FreshAccept(s, t.accept)
    ensures DistinctFds(TickSpec(s, t))
  {
    var built := s.(maxFd := RaiseOver(s.maxFd, s.slots, MaxClients));
    if !(t.select.SelectFailed? && !t.select.interrupted) {
      var interest := {s.listenSockfd} + OccupiedFds(s.slots, MaxClients);
      var ready := ReadySet(interest, t.select);
      var accepted := if s.listenSockfd in ready then AcceptSpec(built, t.accept, t.env.now) else built;
      if s.listenSockfd in ready {
        AcceptProperties(built, t.accept, t.env.now);
      }
      RecvPassKeepsInvariants(accepted, MaxClients, ready, t.recvOn, t.env);
      ReapProperties(RecvPass(accepted, MaxClients, ready, t.recvOn, t.env), t.env.now);
    }
  }

  /** `max_fd` is at least every client descriptor. */
  predicate SlotsCovered(s: ServerRec)
  {
    forall k :: 0 <= k < |s.slots| && s.slots[k].Some? ==> s.slots[k].value.sockfd <= s.maxFd
  }

  /**
   * Accepting keeps both invariants and `max_fd` above every client
   * descriptor, and keeps descriptors distinct when `accept` returned one
   * that is not open.
   */
  lemma AcceptKeepsCover(s: ServerRec, a: Accept, now: int)
    requires ServerOk(s) && SlotsCovered(s)
    ensures var r := AcceptSpec(s, a, now);
            && ServerOk(r) && SlotsCovered(r)
            && (FdsCovered(s) ==> FdsCovered(r))
            && (DistinctFds(s) && FreshAccept(s, a) ==> DistinctFds(r))
            && r.maxFd >= s.maxFd && r.listenSockfd == s.listenSockfd && r.running == s.running
  {
    AcceptProperties(s, a, now);
  }

  /**
   * The receive loop followed by the idle sweep keeps both invariants,
   * distinct descriptors and `max_fd`, and leaves no client idle past the
   * timeout.
   */
  lemma RecvReapKeepsInvariants(s: ServerRec, ready: set<int>, recvOn: int -> ReadResult, env: Env)
    requires ServerOk(s) && SlotsCovered(s)
    ensures var r := ReapSpec(RecvPass(s, MaxClients, ready, recvOn, env), env.now);
            && ServerOk(r) && SlotsCovered(r)
            && (FdsCovered(s) ==> FdsCovered(r))
            && (DistinctFds(s) ==> DistinctFds(r))
            && r.maxFd == s.maxFd && r.listenSockfd == s.listenSockfd && r.running == s.running
            && forall k :: 0 <= k < MaxClients && r.slots[k].Some? ==> !TimedOut(r.slots[k].value.lastActive, env.now)
  {
    var received := RecvPass(s, MaxClients, ready, recvOn, env);
    RecvPassKeepsInvariants(s, MaxClients, ready, recvOn, env);
    RecvPassKeepsCover(s, MaxClients, ready, recvOn, env);
    ReapProperties(received, env.now);
  }

  /** The receive loop never brings in a descriptor above `max_fd`: it only keeps or empties slots. */
  lemma {:induction false} RecvPassKeepsCover(s: ServerRec, n: nat, ready: set<int>, recvOn: int -> ReadResult, env: Env)
    requires ServerOk(s) && n <= MaxClients
    requires SlotsCovered(s)
    ensures SlotsCovered(RecvPass(s, n, ready, recvOn, env))
  {
    if n > 0 {
      RecvPassKeepsCover(s, n - 1, ready, recvOn, env);
      RecvPassKeepsInvariants(s, n - 1, ready, recvOn, env);
      var p := RecvPass(s, n - 1, ready, recvOn, env);
      if p.slots[n - 1].Some? && p.slots[n - 1].value.sockfd in ready {
        var c := p.slots[n - 1].value;
        ReceiveKeepsClientOk(c, recvOn(c.sockfd), env);
      }
    }
  }

  /** The receive loop leaves alone a slot whose descriptor `select` did not report. */
  lemma {:induction false} RecvPassSkipsUnready(s: ServerRec, n: nat, k: int, ready: set<int>, recvOn: int -> ReadResult, env: Env)
    requires Shaped(s) && n <= MaxClients && 0 <= k < MaxClients
    requires s.slots[k].Some? ==> s.slots[k].value.sockfd !in ready
    ensures RecvPass(s, n, ready, recvOn, env).slots[k] == s.slots[k]
  {
    if n > 0 {
      RecvPassSkipsUnready(s, n - 1, k, ready, recvOn, env);
    }
  }

  /**
   * A connection accepted in a pass is not read in that pass, as its
   * descriptor was not in the read set given to `select`; it ends the pass
   * as the fresh client holding the banner and the prompt, in the lowest
   * slot that was empty.
   */
  lemma AcceptedNotReadInSamePass(s: ServerRec, t: TickInput)
    requires ServerOk(s) && FreshAccept(s, t.accept)
    requires t.accept.sockfd >= 0 && t.accept.nonblocking && FirstFree(s.slots) >= 0
    requires !(t.select.SelectFailed? && !t.select.interrupted)
    requires s.listenSockfd in ReadySet({s.listenSockfd} + OccupiedFds(s.slots, MaxClients), t.select)
    ensures TickSpec(s, t).slots[FirstFree(s.slots)] ==
              Some(NewClient(t.accept.sockfd, t.accept.addr, t.env.now).(sent := Welcome + Prompt))
  {
    var interest := {s.listenSockfd} + OccupiedFds(s.slots, MaxClients);
    var ready := ReadySet(interest, t.select);
    var built := s.(maxFd := RaiseOver(s.maxFd, s.slots, MaxClients));
    var index := FirstFree(s.slots);
    AcceptProperties(built, t.accept, t.env.now);
    var accepted := AcceptSpec(built, t.accept, t.env.now);
    assert t.accept.sockfd !in ready;
    RecvPassSkipsUnready(accepted, MaxClients, index, ready, t.recvOn, t.env);
  }

  /** The receive loop of `telnet_server_start` (telnet_server.c:161-169): every occupied slot whose descriptor is ready is read, in slot order. */
  method RecvLoop(server: Server, ready: set<int>, recvOn: int -> ReadResult, env: Env)
    requires server.Valid()
    modifies server.Repr
    ensures server.Valid()
    ensures server.View() == RecvPass(old(server.View()), MaxClients, ready, recvOn, env)
  {
    ghost var s := server.View();
    for i := 0 to server.maxClients
      invariant server.Valid()
      invariant server.View() == RecvPass(s, i, ready, recvOn, env)
    {
      server.ViewSlots();
      if server.clients[i] != null {
        var sockfd := server.clients[i].sockfd;
        if sockfd in ready {
          RecvDataProc(server, i, recvOn(sockfd), env);
        }
      }
    }
  }

  /** One pass of the loop of `telnet_server_start` (telnet_server.c:111-174). */
  method Tick(server: Server, t: TickInput)
    requires server.Valid()
    modifies server, server.Repr
    ensures server.Valid()
    ensures server.View() == TickSpec(old(server.View()), t)
    ensures fresh(server.Repr - old(server.Repr))
  {
    var interest := BuildReadSet(server);
    if t.select.SelectFailed? && !t.select.interrupted {
      return;
    }
    var ready := if t.select.Ready? then interest * t.select.fds else interest;
    if server.listenSockfd in ready {
      HandleNewConnection(server, t.accept, t.env.now);
    }
    RecvLoop(server, ready, t.recvOn, t.env);
    CleanupClients(server, t.env.now);
  }

  /**
   * The loop `while (server->running)` over a sequence of ticks: it stops
   * when the ticks run out or the server was stopped.
   */
  function RunSpec(s: ServerRec, ticks: seq<TickInput>): (r: ServerRec)
    requires Shaped(s)
    ensures Shaped(r)
    decreases |ticks|
  {
    if ticks == [] || !s.running then s else RunSpec(TickSpec(s, ticks[0]), ticks[1..])
  }

  /**
   * Serving keeps the server invariant and `max_fd` covering every
   * descriptor, and never changes the running flag: nothing inside the loop
   * stops the server.  When every `accept` of the run returns a descriptor
   * that is not open, descriptors stay distinct.
   */
  lemma {:induction false} RunKeepsInvariants(s: ServerRec, ticks: seq<TickInput>)
    requires ServerOk(s) && FdsCovered(s)
    ensures var r := RunSpec(s, ticks);
            && ServerOk(r) && FdsCovered(r) && r.running == s.running && r.listenSockfd == s.listenSockfd && r.maxFd >= s.maxFd
            && (DistinctFds(s) && FreshAccepts(s, ticks) ==> DistinctFds(r))
    decreases |ticks|
  {
    if ticks != [] && s.running {
      TickKeepsInvariants(s, ticks[0]);
      if DistinctFds(s) && FreshAccepts(s, ticks) {
        TickKeepsDistinctFds(s, ticks[0]);
      }
      RunKeepsInvariants(TickSpec(s, ticks[0]), ticks[1..]);
    }
  }

  /** Every `accept` of a run fails or returns a descriptor that is not open at its tick. */
  predicate FreshAccepts(s: ServerRec, ticks: seq<TickInput>)
    requires Shaped(s)
    decreases |ticks|
  {
    ticks == [] || !s.running || (FreshAccept(s, ticks[0].accept) && FreshAccepts(TickSpec(s, ticks[0]), ticks[1..]))
  }

  /** The main loop of `telnet_server_start` (telnet_server.c:111-174), fed one input per pass. */
  method Serve(server: Server, ticks: seq<TickInput>)
    requires server.Valid()
    modifies server, server.Repr
    ensures server.Valid()
    ensures server.View() == RunSpec(old(server.View()), ticks)
  {
    ghost var s0 := server.View();
    var i := 0;
    while i < |ticks| && server.running
      invariant 0 <= i <= |ticks|
      invariant server.Valid()
      invariant RunSpec(server.View(), ticks[i..]) == RunSpec(s0, ticks)
      invariant fresh(server.Repr - old(server.Repr))
      decreases |ticks| - i
    {
      assert ticks[i..][0] == ticks[i] && ticks[i..][1..] == ticks[i + 1..];
      Tick(server, ticks[i]);
      i := i + 1;
    }
    server.ViewSlots();
    assert i == |ticks| ==> ticks[i..] == [];
  }

  /** `telnet_server_stop` (telnet_server.c:180-183): only the running flag changes. */
  method Stop(server: Server)
    requires server.Valid()
    modifies server
    ensures server.Valid()
    ensures server.View() == old(server.View()).(running := false)
  {
    server.SetRunning(false);
  }

  /** Stopping ends serving: a stopped server ignores every further tick. */
  lemma StoppedServerIgnoresTicks(s: ServerRec, ticks: seq<TickInput>)
    requires Shaped(s) && !s.running
    ensures RunSpec(s, ticks) == s
  {
  }

  /** The state `telnet_server_destroy` leaves before freeing the server: every slot empty. */
  function Emptied(s: ServerRec): (r: ServerRec)
    requires Shaped(s)
    ensures Shaped(r) && ServerOk(r)
    ensures forall k :: 0 <= k < MaxClients ==> r.slots[k].None?
    ensures r == s.(slots := r.slots)
  {
    s.(slots := [None, None, None, None, None])
  }

  /**
   * `telnet_server_destroy` (telnet_server.c:186-209): every client is
   * dropped; closing the sockets and freeing the server are not modelled.
   */
  method Destroy(server: Server?)
    requires server != null ==> server.Valid()
    modifies if server == null then {} else {server.clients}
    ensures server != null ==> server.Valid() && server.View() == Emptied(old(server.View()))
  {
    if server == null {
      return;
    }
    ghost var s := server.View();
    server.ViewSlots();
    for i := 0 to server.maxClients
      invariant server.Valid()
      invariant server.View() == s.(slots := server.View().slots)
      invariant forall k :: 0 <= k < MaxClients ==> server.View().slots[k] == if k < i then None else s.slots[k]
    {
      server.ViewSlots();
      if server.clients[i] != null {
        server.Clear(i);
      }
    }
    server.ViewSlots();
    assert server.View().slots == Emptied(s).slots;
  }
}
