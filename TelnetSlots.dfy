/**
 * The slot table of telnet_proc.c: `telnets_add_client`,
 * `telnets_remove_client`, `telnets_cleanup_clients` and the decisions of
 * `telnets_handle_new_connection`.
 *
 * Each method is specified by a function on the server's view
 * (`AddSpec`, `RemoveSpec`, `ReapSpec`, `AcceptSpec`); the lemmas below
 * state what those functions promise and how they relate.
 */
module TelnetSlots {
  import opened TelnetTypes
  import opened TelnetUtil

  /** The notice `telnets_cleanup_clients` sends before closing an idle connection (telnet_proc.c:163). */
  const TimeoutNotice: seq<byte> := Ascii("\r\nConnection timed out due to inactivity.\r\n")

  /** `max_fd` after a descriptor is registered. */
  function RaiseMaxFd(maxFd: int, sockfd: int): (r: int)
    ensures r >= maxFd && r >= sockfd && (r == maxFd || r == sockfd)
  {
    if sockfd > maxFd then sockfd else maxFd
  }

  /**
   * `telnets_add_client` on the view: the status (0 or -1) and the new state.
   * The allocation failure of `malloc` is not modelled.
   */
  function AddSpec(s: ServerRec, sockfd: int, addr: SockAddr, now: int): (r: (ServerRec, int))
    requires Shaped(s)
    ensures Shaped(r.0)
    ensures r.1 == -1 <==> forall k :: 0 <= k < MaxClients ==> s.slots[k].Some?
    ensures r.1 == -1 ==> r.0 == s
    ensures r.1 == 0 ==>
              var index := FirstFree(s.slots);
              && 0 <= index < MaxClients
              && s.slots[index].None?
              && r.0.slots[index] == Some(NewClient(sockfd, addr, now))
              && (forall k :: 0 <= k < MaxClients && k != index ==> r.0.slots[k] == s.slots[k])
              && r.0 == s.(slots := r.0.slots, maxFd := RaiseMaxFd(s.maxFd, sockfd))
    ensures r.1 == 0 || r.1 == -1
  {
    var index := FirstFree(s.slots);
    if index < 0 then (s, -1)
    else (s.(slots := s.slots[index := Some(NewClient(sockfd, addr, now))], maxFd := RaiseMaxFd(s.maxFd, sockfd)), 0)
  }

  /** `telnets_remove_client` on the view: an index out of `0..max_clients` or an empty slot changes nothing. */
  function RemoveSpec(s: ServerRec, index: int): (r: ServerRec)
    requires Shaped(s)
    ensures Shaped(r)
    ensures (index < 0 || index >= MaxClients || s.slots[index].None?) ==> r == s
    ensures 0 <= index < MaxClients ==>
              && r.slots[index].None?
              && (forall k :: 0 <= k < MaxClients && k != index ==> r.slots[k] == s.slots[k])
              && r == s.(slots := r.slots)
  {
    if index < 0 || index >= s.maxClients || s.slots[index].None? then s
    else s.(slots := s.slots[index := None])
  }

  /** A slot after the idle sweep: a client idle for `IdleTimeout` seconds or more is gone. */
  function Reaped(slot: Option<ClientRec>, now: int): (r: Option<ClientRec>)
    ensures r.None? <==> slot.None? || TimedOut(slot.value.lastActive, now)
    ensures r.Some? ==> r == slot
  {
    if slot.Some? && TimedOut(slot.value.lastActive, now) then None else slot
  }

  /** The slot table after the sweep has visited its first `n` slots. */
  function ReapFirst(slots: seq<Option<ClientRec>>, n: nat, now: int): (r: seq<Option<ClientRec>>)
    requires n <= |slots|
    ensures |r| == |slots|
    ensures forall k :: 0 <= k < |slots| ==> r[k] == if k < n then Reaped(slots[k], now) else slots[k]
  {
    if n == 0 then slots else ReapFirst(slots, n - 1, now)[n - 1 := Reaped(slots[n - 1], now)]
  }

  /** `telnets_cleanup_clients` on the view. */
  function ReapSpec(s: ServerRec, now: int): (r: ServerRec)
    requires Shaped(s)
    ensures Shaped(r)
    ensures forall k :: 0 <= k < MaxClients ==> r.slots[k] == Reaped(s.slots[k], now)
    ensures r == s.(slots := r.slots)
  {
    s.(slots := ReapFirst(s.slots, MaxClients, now))
  }

  /** The outcome of `accept` and of making the new socket non-blocking. */
  datatype Accept = Accept(sockfd: int, addr: SockAddr, nonblocking: bool)

  /** What `accept` promises: it fails, or returns a descriptor that is not open. */
  predicate FreshAccept(s: ServerRec, a: Accept)
  {
    a.sockfd < 0 || Unused(s, a.sockfd)
  }

  /**
   * `telnets_handle_new_connection` on the view: a failed `accept`, a
   * failed `fcntl` or a full table leaves the state alone (the socket is
   * closed); otherwise the client takes the lowest empty slot and is sent
   * the banner and the prompt.
   */
  function AcceptSpec(s: ServerRec, a: Accept, now: int): (r: ServerRec)
    requires Shaped(s)
    ensures Shaped(r)
  {
    if a.sockfd < 0 || !a.nonblocking then s
    else
      var index := FirstFree(s.slots);
      if index < 0 then s
      else
        var added := AddSpec(s, a.sockfd, a.addr, now).0;
        added.(slots := added.slots[index := Some(added.slots[index].value.(sent := Welcome + Prompt))])
  }

  /** Adding keeps the server invariant and the descriptor bound, and `max_fd` never drops. */
  lemma AddKeepsInvariants(s: ServerRec, sockfd: int, addr: SockAddr, now: int)
    requires Shaped(s)
    ensures var r := AddSpec(s, sockfd, addr, now).0;
            && (ServerOk(s) ==> ServerOk(r))
            && (FdsCovered(s) ==> FdsCovered(r))
            && (DistinctFds(s) && Unused(s, sockfd) ==> DistinctFds(r))
            && r.maxFd >= s.maxFd
            && r.listenSockfd == s.listenSockfd && r.running == s.running
  {
  }

  /** Removing the client just added undoes the addition, except that `max_fd` stays raised. */
  lemma RemoveUndoesAdd(s: ServerRec, sockfd: int, addr: SockAddr, now: int)
    requires Shaped(s)
    ensures var (r, status) := AddSpec(s, sockfd, addr, now);
            status == 0 ==> RemoveSpec(r, FirstFree(s.slots)) == s.(maxFd := r.maxFd)
  {
    var (r, status) := AddSpec(s, sockfd, addr, now);
    if status == 0 {
      var index := FirstFree(s.slots);
      assert RemoveSpec(r, index).slots == s.slots;
    }
  }

  /** Removing keeps both invariants, and removing twice is removing once. */
  lemma RemoveKeepsInvariants(s: ServerRec, index: int)
    requires Shaped(s)
    ensures ServerOk(s) ==> ServerOk(RemoveSpec(s, index))
    ensures FdsCovered(s) ==> FdsCovered(RemoveSpec(s, index))
    ensures DistinctFds(s) ==> DistinctFds(RemoveSpec(s, index))
    ensures RemoveSpec(RemoveSpec(s, index), index) == RemoveSpec(s, index)
  {
  }

  /**
   * After the sweep no idle client is left, every other client is kept
   * unchanged, both invariants hold, and a second sweep at the same time
   * changes nothing.
   */
  lemma ReapProperties(s: ServerRec, now: int)
    requires Shaped(s)
    ensures var r := ReapSpec(s, now);
            && (forall k :: 0 <= k < MaxClients && r.slots[k].Some? ==> !TimedOut(r.slots[k].value.lastActive, now))
            && (forall k :: 0 <= k < MaxClients && s.slots[k].Some? && !TimedOut(s.slots[k].value.lastActive, now)
                  ==> r.slots[k] == s.slots[k])
            && (ServerOk(s) ==> ServerOk(r))
            && (FdsCovered(s) ==> FdsCovered(r))
            && (DistinctFds(s) ==> DistinctFds(r))
            && ReapSpec(r, now) == r
  {
    var r := ReapSpec(s, now);
    assert ReapSpec(r, now).slots == r.slots;
  }

  /**
   * An accepted connection becomes a fresh client in the lowest empty slot
   * whose transcript is the banner followed by the prompt; a refused one
   * changes nothing; both invariants are kept, and so are distinct
   * descriptors when `accept` returned a descriptor not already open.
   */
  lemma AcceptProperties(s: ServerRec, a: Accept, now: int)
    requires Shaped(s)
    ensures var r := AcceptSpec(s, a, now);
            var index := FirstFree(s.slots);
            && (a.sockfd < 0 || !a.nonblocking || index < 0 ==> r == s)
            && (a.sockfd >= 0 && a.nonblocking && index >= 0 ==>
                  && r.slots[index] == Some(NewClient(a.sockfd, a.addr, now).(sent := Welcome + Prompt))
                  && (forall k :: 0 <= k < MaxClients && k != index ==> r.slots[k] == s.slots[k])
                  && r == s.(slots := r.slots, maxFd := RaiseMaxFd(s.maxFd, a.sockfd)))
            && (ServerOk(s) ==> ServerOk(r))
            && (FdsCovered(s) ==> FdsCovered(r))
            && (DistinctFds(s) && FreshAccept(s, a) ==> DistinctFds(r))
  {
  }

  /** An accepted connection is an addition followed by the greeting. */
  lemma AcceptAdds(s: ServerRec, a: Accept, now: int)
    requires Shaped(s) && a.sockfd >= 0 && a.nonblocking && FirstFree(s.slots) >= 0
    ensures var (added, status) := AddSpec(s, a.sockfd, a.addr, now);
            var index := FirstFree(s.slots);
            && status == 0
            && added.slots[index] == Some(NewClient(a.sockfd, a.addr, now))
            && AcceptSpec(s, a, now) == added.(slots := added.slots[index := Some(added.slots[index].value.(sent := [] + (Welcome + Prompt)))])
  {
    assert [] + (Welcome + Prompt) == Welcome + Prompt;
  }

  /** `telnets_add_client` (telnet_proc.c:85-119). */
  method AddClient(server: Server, sockfd: int, addr: SockAddr, now: int) returns (status: int)
    requires server.Valid()
    modifies server, server.clients
    ensures server.Valid()
    ensures (server.View(), status) == AddSpec(old(server.View()), sockfd, addr, now)
    ensures fresh(server.Repr - old(server.Repr))
  {
    var index := FindAvailableSlot(server);
    if index < 0 {
      return -1;
    }
    AddAt(server, index, sockfd, addr, now);
    return 0;
  }

  /**
   * The allocation, initialisation and registration of `telnets_add_client`
   * (telnet_proc.c:92-116) on the free slot `index`: that slot alone gets the
   * new client and `max_fd` is raised over its descriptor.
   */
  method AddAt(server: Server, index: int, sockfd: int, addr: SockAddr, now: int)
    requires server.Valid() && 0 <= index < MaxClients && server.clients[index] == null
    modifies server, server.clients
    ensures server.Valid()
    ensures server.View() == old(server.View()).(slots := old(server.View()).slots[index := Some(NewClient(sockfd, addr, now))],
                                                 maxFd := RaiseMaxFd(old(server.maxFd), sockfd))
    ensures fresh(server.Repr - old(server.Repr))
  {
    ghost var s := server.View();
    var client := new Client(sockfd, addr, now);
    assert server.View() == s;
    server.Store(index, client);
    if sockfd > server.maxFd {
      server.SetMaxFd(sockfd);
    }
  }

  /** `telnets_remove_client` (telnet_proc.c:123-146): closing and freeing become dropping the slot. */
  method RemoveClient(server: Server, index: int)
    requires server.Valid()
    modifies server.clients
    ensures server.Valid()
    ensures server.View() == RemoveSpec(old(server.View()), index)
    ensures forall k :: 0 <= k < MaxClients && k != index ==> server.clients[k] == old(server.clients[k])
    ensures 0 <= index < MaxClients ==> server.clients[index] == null
  {
    if index < 0 || index >= server.maxClients {
      return;
    }
    var client := server.clients[index];
    if client == null {
      return;
    }
    server.Clear(index);
  }

  /** One iteration of the sweep in `telnets_cleanup_clients` (telnet_proc.c:154-168), on an occupied slot. */
  method ReapSlot(server: Server, i: int, now: int)
    requires server.Valid() && 0 <= i < MaxClients && server.clients[i] != null
    modifies server.clients, server.clients[i]
    ensures server.Valid()
    ensures server.View() == old(server.View()).(slots := old(server.View()).slots[i := Reaped(old(server.View()).slots[i], now)])
    ensures forall k :: 0 <= k < MaxClients && k != i ==> server.clients[k] == old(server.clients[k])
    ensures server.clients[i] == if TimedOut(old(server.clients[i].lastActive), now) then null else old(server.clients[i])
    ensures old(server.clients[i]).sent ==
              old(server.clients[i].sent) + if TimedOut(old(server.clients[i].lastActive), now) then TimeoutNotice else []
  {
    server.ViewSlots();
    var client := server.clients[i];
    if IsClientTimeout(client, now) {
      server.SendTo(i, TimeoutNotice);
      RemoveClient(server, i);
    } else {
      assert old(client.sent) + [] == old(client.sent);
    }
  }

  /**
   * `telnets_cleanup_clients` (telnet_proc.c:150-171): every idle client is
   * sent the notice and removed, in slot order (`ReapSlot` states the
   * notice).
   */
  method CleanupClients(server: Server, now: int)
    requires server.Valid()
    modifies server.Repr
    ensures server.Valid()
    ensures server.View() == ReapSpec(old(server.View()), now)
  {
    ghost var s := server.View();
    server.ViewSlots();
    for i := 0 to server.maxClients
      invariant server.Valid()
      invariant server.View() == s.(slots := ReapFirst(s.slots, i, now))
    {
      if server.clients[i] != null {
        ReapSlot(server, i, now);
      } else {
        server.ViewSlots();
        assert ReapFirst(s.slots, i + 1, now) == ReapFirst(s.slots, i, now);
      }
    }
  }

  /** `telnets_handle_new_connection` (telnet_proc.c:34-81), with `accept` and `fcntl` given as `a`. */
  method HandleNewConnection(server: Server, a: Accept, now: int)
    requires server.Valid()
    modifies server, server.Repr
    ensures server.Valid()
    ensures server.View() == AcceptSpec(old(server.View()), a, now)
    ensures fresh(server.Repr - old(server.Repr))
  {
    if a.sockfd < 0 || !a.nonblocking {
      return;
    }
    var index := FindAvailableSlot(server);
    if index < 0 {
      return;
    }
    Admit(server, index, a, now);
  }

  /**
   * The accepting path of `telnets_handle_new_connection` (telnet_proc.c:65-80):
   * the client is added in the free slot `index` and sent the banner and the
   * prompt.
   */
  method Admit(server: Server, index: int, a: Accept, now: int)
    requires server.Valid() && a.sockfd >= 0 && a.nonblocking
    requires 0 <= index == FirstFree(server.View().slots)
    modifies server, server.Repr
    ensures server.Valid()
    ensures server.View() == AcceptSpec(old(server.View()), a, now)
    ensures fresh(server.Repr - old(server.Repr))
  {
    ghost var s := server.View();
    var status := AddClient(server, a.sockfd, a.addr, now);
    // The slot `index` is free and allocation does not fail here, so the
    // `status < 0` branch of the source cannot be taken.
    assert status == 0;
    AcceptAdds(s, a, now);
    ghost var repr := server.Repr;
    server.ViewSlots();
    server.SendTo(index, Welcome + Prompt);
    assert server.Repr == repr;
  }
}
