/**
 * The per-connection input pipeline of `telnets_recv_data_proc`
 * (telnet_recv.c:182-285): one `recv`, the command filter over the whole
 * read, then the line editor over the bytes of the read.
 *
 * As written, whether the bytes of a read are content is decided once, by
 * the filter state after the whole read (telnet_recv.c:219, :225): a read
 * that ends inside a command sequence is dropped as a whole, and a read that
 * ends in the normal state hands every byte, command bytes included, to the
 * editor.  The editor then ignores IAC and the other command codes (they are
 * neither printable nor editing keys), but a printable option byte or
 * subnegotiation byte is taken as typed text.
 */
module TelnetRecv {
  import opened TelnetTypes
  import opened TelnetFilter
  import opened TelnetCommand
  import opened TelnetUtil
  import opened TelnetSlots

  /** The erase sequence echoed for a backspace (telnet_recv.c:241). */
  const Erase: seq<byte> := [BS, 32, BS]

  /** What one call of `recv` returned: some bytes (none: the peer closed the connection) or an error. */
  datatype ReadResult = Received(bytes: seq<byte>) | ReadError

  /** The editor's reaction to one content byte (telnet_recv.c:230-283). */
  function EditByte(c: ClientRec, b: byte, env: Env): ClientRec
  {
    if b == DEL || b == BS then
      if |c.line| > 0 then c.(line := c.line[..|c.line| - 1], sent := c.sent + Erase) else c
    else if b == CR || b == LF then
      if |c.line| > 0 then
        var reply := CommandProc(c.line, c.addr, c.lastActive, env);
        c.(line := [], sent := c.sent + CRLF + reply.text, closed := c.closed || reply.close)
      else
        c.(sent := c.sent + Prompt)
    else if |c.line| < BufferSize - 1 && IsPrint(b) then
      c.(line := c.line + [b], sent := c.sent + [b])
    else
      c
  }

  /**
   * The editor over the bytes of a read: the client afterwards and whether
   * the slot was released because a line end found `closed` set, in which
   * case the bytes after that line end are not looked at.
   */
  function Edit(c: ClientRec, data: seq<byte>, env: Env): (ClientRec, bool)
    decreases data
  {
    if data == [] then (c, false)
    else
      var next := EditByte(c, data[0], env);
      if (data[0] == CR || data[0] == LF) && next.closed then (next, true)
      else Edit(next, data[1..], env)
  }

  /** The content loop as written: it does anything only when the filter is in the normal state. */
  function Content(c: ClientRec, data: seq<byte>, env: Env): (ClientRec, bool)
  {
    if c.telnetState != 0 then (c, false) else Edit(c, data, env)
  }

  /**
   * `telnets_recv_data_proc` on one client: the client afterwards and
   * whether its slot is released.  A closed connection or an error releases
   * the slot at once; otherwise the activity time is set, the filter runs
   * over the whole read, and the content loop follows.
   */
  function Receive(c: ClientRec, r: ReadResult, env: Env): (ClientRec, bool)
  {
    match r
    case ReadError => (c, true)
    case Received(bytes) =>
      if |bytes| == 0 then (c, true)
      else Content(c.(lastActive := env.now, telnetState := Feed(c.telnetState, bytes)), bytes, env)
  }

  /** `telnets_recv_data_proc` on the server's view; an empty slot is left alone. */
  function ReceiveAt(s: ServerRec, index: int, r: ReadResult, env: Env): (t: ServerRec)
    requires Shaped(s) && 0 <= index < MaxClients
    ensures Shaped(t)
    ensures forall k :: 0 <= k < MaxClients && k != index ==> t.slots[k] == s.slots[k]
    ensures t == s.(slots := t.slots)
    ensures s.slots[index].None? ==> t == s
    ensures s.slots[index].Some? ==>
              var (c, released) := Receive(s.slots[index].value, r, env);
              && (t.slots[index].None? <==> released)
              && (!released ==> t.slots[index] == Some(c))
  {
    if s.slots[index].None? then s
    else
      var (c, released) := Receive(s.slots[index].value, r, env);
      var updated := s.(slots := s.slots[index := Some(c)]);
      if released then RemoveSpec(updated, index) else updated
  }

  /** Backspace and delete erase one byte and echo the erase sequence; on an empty line they do nothing. */
  lemma Backspace(c: ClientRec, b: byte, env: Env)
    requires b == BS || b == DEL
    ensures |c.line| > 0 ==> EditByte(c, b, env) == c.(line := c.line[..|c.line| - 1], sent := c.sent + [8, 32, 8])
    ensures |c.line| == 0 ==> EditByte(c, b, env) == c
  {
  }

  /** A printable byte is stored and echoed while the line is shorter than 1023 bytes, and dropped silently after that. */
  lemma PrintableByte(c: ClientRec, b: byte, env: Env)
    requires IsPrint(b)
    ensures |c.line| < BufferSize - 1 ==> EditByte(c, b, env) == c.(line := c.line + [b], sent := c.sent + [b])
    ensures |c.line| >= BufferSize - 1 ==> EditByte(c, b, env) == c
  {
  }

  /**
   * A line end dispatches exactly the buffered line after echoing CRLF and
   * empties the buffer; on an empty line it sends only the prompt.
   */
  lemma LineEnd(c: ClientRec, b: byte, env: Env)
    requires b == CR || b == LF
    ensures var reply := CommandProc(c.line, c.addr, c.lastActive, env);
            |c.line| > 0 ==> EditByte(c, b, env) == c.(line := [], sent := c.sent + CRLF + reply.text, closed := c.closed || reply.close)
    ensures |c.line| == 0 ==> EditByte(c, b, env) == c.(sent := c.sent + Prompt)
  {
  }

  /** Bytes that are neither printable nor an editing key nor a line end are ignored; the Telnet command codes are among them. */
  lemma OtherBytesIgnored(c: ClientRec, b: byte, env: Env)
    requires !IsPrint(b) && b != BS && b != DEL && b != CR && b != LF
    ensures EditByte(c, b, env) == c
    ensures EditByte(c, IAC, env) == c && EditByte(c, WILL, env) == c && EditByte(c, SB, env) == c && EditByte(c, SE, env) == c
  {
  }

  /** One editor step keeps the line within the buffer and printable, and sets `closed` only on a line end. */
  lemma EditByteKeepsClientOk(c: ClientRec, b: byte, env: Env)
    requires ClientOk(c)
    ensures var next := EditByte(c, b, env);
            && next.sockfd == c.sockfd && next.addr == c.addr && next.lastActive == c.lastActive
            && next.telnetState == c.telnetState
            && c.sent <= next.sent
            && (next.closed ==> b == CR || b == LF)
            && (!next.closed ==> ClientOk(next))
  {
    var next := EditByte(c, b, env);
    if b != DEL && b != BS && b != CR && b != LF && |c.line| < BufferSize - 1 && IsPrint(b) {
      assert next.line == c.line + [b];
      assert forall k :: 0 <= k < |next.line| ==> IsPrint(next.line[k]);
    }
  }

  /**
   * The editor keeps the client invariant unless it releases the slot, never
   * changes the filter state or the activity time, and only appends to the
   * transcript.
   */
  lemma {:induction false} EditKeepsClientOk(c: ClientRec, data: seq<byte>, env: Env)
    requires ClientOk(c)
    ensures var (next, released) := Edit(c, data, env);
            && next.sockfd == c.sockfd && next.addr == c.addr && next.lastActive == c.lastActive
            && next.telnetState == c.telnetState
            && c.sent <= next.sent
            && (!released ==> ClientOk(next))
    decreases data
  {
    if data != [] {
      var next := EditByte(c, data[0], env);
      EditByteKeepsClientOk(c, data[0], env);
      if !((data[0] == CR || data[0] == LF) && next.closed) {
        EditKeepsClientOk(next, data[1..], env);
      }
    }
  }

  /**
   * A read keeps the client invariant unless the slot is released, and the
   * transcript only grows.
   */
  lemma ReceiveKeepsClientOk(c: ClientRec, r: ReadResult, env: Env)
    requires ClientOk(c)
    ensures var (next, released) := Receive(c, r, env);
            && c.sent <= next.sent
            && (!released ==> ClientOk(next))
            && next.sockfd == c.sockfd && next.addr == c.addr
  {
    if r.Received? && |r.bytes| > 0 {
      var c1 := c.(lastActive := env.now, telnetState := Feed(c.telnetState, r.bytes));
      FeedInRange(c.telnetState, r.bytes);
      if c1.telnetState == 0 {
        EditKeepsClientOk(c1, r.bytes, env);
      }
    }
  }

  /**
   * A read after which the filter is not in the normal state leaves the line
   * and the transcript untouched: only the activity time and the filter
   * state change.
   */
  lemma UnfinishedSequenceDropsRead(c: ClientRec, bytes: seq<byte>, env: Env)
    requires |bytes| > 0 && Feed(c.telnetState, bytes) != 0
    ensures Receive(c, Received(bytes), env) == (c.(lastActive := env.now, telnetState := Feed(c.telnetState, bytes)), false)
  {
  }

  /** Typing printable text into a line with room for it stores and echoes it byte for byte. */
  lemma {:induction false} TypeText(c: ClientRec, text: seq<byte>, env: Env)
    requires forall k :: 0 <= k < |text| ==> IsPrint(text[k])
    requires |c.line| + |text| < BufferSize
    ensures Edit(c, text, env) == (c.(line := c.line + text, sent := c.sent + text), false)
    decreases text
  {
    if text == [] {
      assert c.line + text == c.line && c.sent + text == c.sent;
    } else {
      var next := EditByte(c, text[0], env);
      assert next == c.(line := c.line + [text[0]], sent := c.sent + [text[0]]);
      TypeText(next, text[1..], env);
      assert c.line + [text[0]] + text[1..] == c.line + text;
      assert c.sent + [text[0]] + text[1..] == c.sent + text;
    }
  }

  /**
   * A command typed into an empty line and ended by CR LF: the command is
   * echoed, then CRLF and the dispatcher's reply are sent, and the LF, which
   * finds the line empty, sends the prompt.  quit and exit release the slot
   * at the CR, so no prompt follows them.
   */
  lemma CommandLine(c: ClientRec, text: seq<byte>, env: Env)
    requires ClientOk(c) && c.line == [] && c.telnetState == 0
    requires text != [] && |text| < BufferSize
    requires forall k :: 0 <= k < |text| ==> IsPrint(text[k])
    ensures var reply := CommandProc(text, c.addr, env.now, env);
            var (next, released) := Receive(c, Received(text + CRLF), env);
            && released == reply.close
            && next.line == []
            && next.sent == c.sent + text + CRLF + reply.text + (if reply.close then [] else Prompt)
  {
    var bytes := text + CRLF;
    forall k | 0 <= k < |bytes|
      ensures bytes[k] != IAC
    {
      if k < |text| {
        assert bytes[k] == text[k];
      }
    }
    FeedPlainText(bytes);
    var c1 := c.(lastActive := env.now, telnetState := 0);
    assert Receive(c, Received(bytes), env) == Edit(c1, bytes, env);
    EditAppend(c1, text, CRLF, env);
    TypeText(c1, text, env);
    assert c1.line + text == text;
    EndLine(c1.(line := text, sent := c.sent + text), env);
  }

  /** CR LF after a non-empty line: the reply, then the prompt unless the command closed the connection. */
  lemma EndLine(d: ClientRec, env: Env)
    requires |d.line| > 0 && !d.closed
    ensures var reply := CommandProc(d.line, d.addr, d.lastActive, env);
            var (next, released) := Edit(d, CRLF, env);
            && released == reply.close
            && next.line == []
            && next.sent == d.sent + CRLF + reply.text + (if reply.close then [] else Prompt)
  {
    var reply := CommandProc(d.line, d.addr, d.lastActive, env);
    var atCr := EditByte(d, CR, env);
    assert atCr == d.(line := [], sent := d.sent + CRLF + reply.text, closed := reply.close);
    assert CRLF[0] == CR && CRLF[1..] == [LF];
    if !reply.close {
      var atLf := EditByte(atCr, LF, env);
      assert atLf == atCr.(sent := atCr.sent + Prompt);
      assert [LF][1..] == [];
      assert Edit(d, CRLF, env) == Edit(atCr, [LF], env);
      assert Edit(atCr, [LF], env) == Edit(atLf, [], env);
    }
  }

  /** The editor over `a + b` runs over `a` and, unless that released the slot, continues over `b`. */
  lemma {:induction false} EditAppend(c: ClientRec, a: seq<byte>, b: seq<byte>, env: Env)
    ensures var (mid, released) := Edit(c, a, env);
            Edit(c, a + b, env) == if released then (mid, true) else Edit(mid, b, env)
    decreases a
  {
    if a == [] {
      assert a + b == b;
    } else {
      assert (a + b)[0] == a[0];
      assert (a + b)[1..] == a[1..] + b;
      var next := EditByte(c, a[0], env);
      if !((a[0] == CR || a[0] == LF) && next.closed) {
        EditAppend(next, a[1..], b, env);
      }
    }
  }

  /** Once a line end has released the slot, nothing that follows it in the read is processed. */
  lemma QuitSkipsRest(c: ClientRec, a: seq<byte>, rest: seq<byte>, env: Env)
    requires Edit(c, a, env).1
    ensures Edit(c, a + rest, env) == Edit(c, a, env)
  {
    EditAppend(c, a, rest, env);
  }

  /**
   * A negotiation whose option byte is printable, arriving complete in one
   * read, reaches the editor: `IAC DO 34` (34 is the LINEMODE option, the
   * character '"') leaves '"' in the line and echoes it.
   */
  lemma PrintableOptionByteIsTyped(c: ClientRec, env: Env)
    requires c.telnetState == 0 && c.line == []
    ensures Receive(c, Received([IAC, DO, 34]), env)
            == (c.(lastActive := env.now, line := [34], sent := c.sent + [34]), false)
  {
    CommandsReturnToNormal(DO, 34);
    var c1 := c.(lastActive := env.now, telnetState := 0);
    assert [IAC, DO, 34][1..] == [DO, 34];
    assert [DO, 34][1..] == [34];
    assert [34][1..] == [];
    assert EditByte(c1, IAC, env) == c1 && EditByte(c1, DO, env) == c1;
    assert Edit(c1, [IAC, DO, 34], env) == Edit(c1, [DO, 34], env);
    assert Edit(c1, [DO, 34], env) == Edit(c1, [34], env);
    assert c1.line + [34] == [34];
    assert Edit(c1, [34], env) == Edit(c1.(line := [34], sent := c.sent + [34]), [], env);
  }

  /** The dispatch at a line end (telnet_recv.c:252-262): the reply is sent and `closed` is set on quit or exit. */
  method CommandProcOn(client: Client, env: Env)
    requires client.Valid()
    modifies client`sent, client`closed
    ensures client.Valid()
    ensures var reply := CommandProc(old(client.View()).line, client.addr, client.lastActive, env);
            client.sent == old(client.sent) + reply.text && client.closed == (old(client.closed) || reply.close)
  {
    var reply := CommandProc(client.buffer[..client.bufferLen], client.addr, client.lastActive, env);
    client.sent := client.sent + reply.text;
    if reply.close {
      client.closed := true;
    }
  }

  /** Backspace or delete (telnet_recv.c:233-245). */
  method EraseStep(client: Client, c: byte, env: Env)
    requires client.Valid() && (c == DEL || c == BS)
    modifies client
    ensures client.Valid()
    ensures client.View() == EditByte(old(client.View()), c, env)
  {
    ghost var before := client.View();
    if client.bufferLen > 0 {
      client.bufferLen := client.bufferLen - 1;
      client.sent := client.sent + Erase;
      assert client.buffer[..client.bufferLen] == before.line[..|before.line| - 1];
    }
  }

  /** A line end (telnet_recv.c:248-269). */
  method LineEndStep(client: Client, c: byte, env: Env)
    requires client.Valid() && (c == CR || c == LF)
    modifies client
    ensures client.Valid()
    ensures client.View() == EditByte(old(client.View()), c, env)
  {
    if client.bufferLen > 0 {
      client.sent := client.sent + CRLF;
      CommandProcOn(client, env);
      client.bufferLen := 0;
    } else {
      client.sent := client.sent + Prompt;
    }
  }

  /** Any other byte: stored and echoed if printable and the line has room (telnet_recv.c:278-283). */
  method TypeStep(client: Client, c: byte, env: Env)
    requires client.Valid() && c != DEL && c != BS && c != CR && c != LF
    modifies client, client.buffer
    ensures client.Valid()
    ensures client.View() == EditByte(old(client.View()), c, env)
  {
    ghost var before := client.View();
    if client.bufferLen < BufferSize - 1 && IsPrint(c) {
      client.buffer[client.bufferLen] := c;
      client.bufferLen := client.bufferLen + 1;
      client.sent := client.sent + [c];
      assert client.buffer[..client.bufferLen] == before.line + [c];
    }
  }

  /** One content byte of the loop of `telnets_recv_data_proc` (telnet_recv.c:230-283). */
  method EditStep(client: Client, c: byte, env: Env)
    requires client.Valid()
    modifies client, client.buffer
    ensures client.Valid()
    ensures client.View() == EditByte(old(client.View()), c, env)
  {
    if c == DEL || c == BS {
      EraseStep(client, c, env);
    } else if c == CR || c == LF {
      LineEndStep(client, c, env);
    } else {
      TypeStep(client, c, env);
    }
  }

  /**
   * The content loop of `telnets_recv_data_proc` (telnet_recv.c:222-284) on
   * one client; `released` says that it stopped at a line end that found
   * `closed` set, where the C code removes the client and returns.
   */
  method EditRead(client: Client, data: seq<byte>, env: Env) returns (released: bool)
    requires client.Valid()
    modifies client, client.buffer
    ensures client.Valid()
    ensures (client.View(), released) == Content(old(client.View()), data, env)
  {
    ghost var c0 := client.View();
    for i := 0 to |data|
      invariant client.Valid()
      invariant Content(client.View(), data[i..], env) == Content(c0, data, env)
      invariant client.telnetState == c0.telnetState
    {
      if client.telnetState == 0 {
        assert data[i..][0] == data[i] && data[i..][1..] == data[i + 1..];
        var c := data[i];
        EditStep(client, c, env);
        if (c == CR || c == LF) && client.closed {
          return true;
        }
      }
    }
    assert data[|data|..] == [];
    return false;
  }

  /**
   * The part of `telnets_recv_data_proc` (telnet_recv.c:216-283) that runs
   * on a non-empty read: only the client in slot `index` changes, as
   * `Receive` says.
   */
  method ReceiveBytes(server: Server, index: int, bytes: seq<byte>, env: Env) returns (released: bool)
    requires server.Valid() && 0 <= index < MaxClients && server.clients[index] != null && |bytes| > 0
    modifies server.SlotFrame(index)
    ensures server.Valid()
    ensures var (c, rel) := Receive(old(server.View()).slots[index].value, Received(bytes), env);
            released == rel && server.View() == old(server.View()).(slots := old(server.View()).slots[index := Some(c)])
  {
    server.ViewSlots();
    var client := server.clients[index];
    client.lastActive := env.now;
    HandleCommands(client, bytes);
    released := EditRead(client, bytes, env);
    server.ClientUpdated(index);
  }

  /** `telnets_recv_data_proc` (telnet_recv.c:182-285), with the result of `recv` given as `r` and the clock as `env`. */
  method RecvDataProc(server: Server, index: int, r: ReadResult, env: Env)
    requires server.Valid() && 0 <= index < MaxClients
    modifies server.clients, server.SlotFrame(index)
    ensures server.Valid()
    ensures server.View() == ReceiveAt(old(server.View()), index, r, env)
  {
    server.ViewSlots();
    var client := server.clients[index];
    if client == null {
      return;
    }
    if r.ReadError? || |r.bytes| == 0 {
      RemoveClient(server, index);
      return;
    }
    var released := ReceiveBytes(server, index, r.bytes, env);
    if released {
      RemoveClient(server, index);
    }
  }

  /** A failed `recv`, or one that reports the peer closed the connection, frees the slot (telnet_recv.c:196-213). */
  lemma ReadFailureFreesSlot(s: ServerRec, index: int, r: ReadResult, env: Env)
    requires Shaped(s) && 0 <= index < MaxClients
    requires r.ReadError? || |r.bytes| == 0
    ensures ReceiveAt(s, index, r, env) == RemoveSpec(s, index)
  {
    if s.slots[index].Some? {
      assert RemoveSpec(s.(slots := s.slots[index := s.slots[index]]), index).slots == RemoveSpec(s, index).slots;
    }
  }

  /**
   * A command line typed into an empty line of a client in the normal state
   * and ended by CR LF frees the slot exactly when the command is quit or
   * exit, in any letter case (telnet_recv.c:248-273).
   */
  lemma QuitLineFreesSlot(s: ServerRec, index: int, text: seq<byte>, env: Env)
    requires ServerOk(s) && 0 <= index < MaxClients && s.slots[index].Some?
    requires s.slots[index].value.line == [] && s.slots[index].value.telnetState == 0
    requires text != [] && |text| < BufferSize
    requires forall k :: 0 <= k < |text| ==> IsPrint(text[k])
    ensures var cmd := Lower(ScanLine(text).cmd);
            ReceiveAt(s, index, Received(text + CRLF), env).slots[index].None? <==> cmd == Quit || cmd == Exit
  {
    var c := s.slots[index].value;
    CommandLine(c, text, env);
    CloseOnlyOnQuit(text, c.addr, env.now, env);
  }
}
