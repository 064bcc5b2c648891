/**
 * The Telnet command filter of `telnets_handle_commands`
 * (telnet_recv.c:113-177): a five-state machine folded over the raw bytes of
 * a read, tracking the command sequences of RFC 854 ("IAC WILL|WONT|DO|DONT
 * <option>", "IAC IAC", other two-byte commands) and the subnegotiation
 * blocks of RFC 855 ("IAC SB ... IAC SE").  It removes no byte: its state
 * after the whole read only decides whether the read reaches the line
 * editor at all (see `TelnetRecv.Content`).
 *
 * States: 0 normal, 1 after IAC, 2 awaiting the option byte of a
 * negotiation, 3 inside a subnegotiation, 4 after IAC inside a
 * subnegotiation.
 */
module TelnetFilter {
  import opened TelnetTypes

  /** One transition; a state outside 0..4 matches no `case` of the switch and is kept. */
  function Step(s: int, c: byte): int
  {
    if s == 0 then
      if c == IAC then 1 else 0
    else if s == 1 then
      if c == WILL || c == WONT || c == DO || c == DONT then 2
      else if c == SB then 3
      else 0
    else if s == 2 then 0
    else if s == 3 then
      if c == IAC then 4 else 3
    else if s == 4 then
      if c == SE then 0 else 3
    else s
  }

  /** The state after feeding `data`, byte by byte, from state `s`. */
  function Feed(s: int, data: seq<byte>): int
    decreases data
  {
    if data == [] then s else Feed(Step(s, data[0]), data[1..])
  }

  /** States 0 and 1: IAC opens a command; after it a verb waits for an option, SB opens a subnegotiation, anything else (IAC included) ends the command. */
  lemma NormalAndCommandTransitions(c: byte)
    ensures Step(0, c) == 1 <==> c == IAC
    ensures Step(0, c) == 0 <==> c != IAC
    ensures Step(1, c) == 2 <==> c in {WILL, WONT, DO, DONT}
    ensures Step(1, c) == 3 <==> c == SB
    ensures Step(1, c) == 0 <==> c !in {WILL, WONT, DO, DONT, SB}
  {
  }

  /** States 2, 3 and 4: one option byte of any value is consumed; inside a subnegotiation only IAC SE leaves it. */
  lemma OptionAndSubnegotiationTransitions(c: byte)
    ensures Step(2, c) == 0
    ensures Step(3, c) == 4 <==> c == IAC
    ensures Step(3, c) == 3 <==> c != IAC
    ensures Step(4, c) == 0 <==> c == SE
    ensures Step(4, c) == 3 <==> c != SE
  {
  }

  /** The state is always one of the five. */
  lemma {:induction false} FeedInRange(s: int, data: seq<byte>)
    requires 0 <= s <= 4
    ensures 0 <= Feed(s, data) <= 4
    decreases data
  {
    if data != [] {
      FeedInRange(Step(s, data[0]), data[1..]);
    }
  }

  /** Feeding `a + b` ends where feeding `a` and then `b` ends. */
  lemma {:induction false} FeedAppend(s: int, a: seq<byte>, b: seq<byte>)
    ensures Feed(s, a + b) == Feed(Feed(s, a), b)
    decreases a
  {
    if a == [] {
      assert a + b == b;
    } else {
      assert (a + b)[0] == a[0];
      assert (a + b)[1..] == a[1..] + b;
      FeedAppend(Step(s, a[0]), a[1..], b);
    }
  }

  /** Text without IAC leaves the normal state alone. */
  lemma {:induction false} FeedPlainText(data: seq<byte>)
    requires forall k :: 0 <= k < |data| ==> data[k] != IAC
    ensures Feed(0, data) == 0
  {
    if data != [] {
      FeedPlainText(data[1..]);
    }
  }

  /** A subnegotiation payload without IAC keeps the filter inside the subnegotiation. */
  lemma {:induction false} FeedPayload(data: seq<byte>)
    requires forall k :: 0 <= k < |data| ==> data[k] != IAC
    ensures Feed(3, data) == 3
  {
    if data != [] {
      FeedPayload(data[1..]);
    }
  }

  /** Feeding one byte and then the rest. */
  lemma FeedCons(s: int, c: byte, rest: seq<byte>)
    ensures Feed(s, [c] + rest) == Feed(Step(s, c), rest)
  {
    assert ([c] + rest)[1..] == rest;
  }

  /** A complete negotiation and a doubled IAC each return to the normal state. */
  lemma CommandsReturnToNormal(verb: byte, option: byte)
    requires verb in {WILL, WONT, DO, DONT}
    ensures Feed(0, [IAC, verb, option]) == 0
    ensures Feed(0, [IAC, IAC]) == 0
  {
    FeedCons(0, IAC, [verb, option]);
    FeedCons(1, verb, [option]);
    FeedCons(2, option, []);
    FeedCons(0, IAC, [IAC]);
    FeedCons(1, IAC, []);
  }

  /** A complete subnegotiation whose payload holds no IAC returns to the normal state. */
  lemma SubnegotiationReturnsToNormal(payload: seq<byte>)
    requires forall k :: 0 <= k < |payload| ==> payload[k] != IAC
    ensures Feed(0, [IAC, SB] + payload + [IAC, SE]) == 0
  {
    FeedAppend(0, [IAC, SB], payload);
    FeedAppend(0, [IAC, SB] + payload, [IAC, SE]);
    FeedCons(0, IAC, [SB]);
    FeedCons(1, SB, []);
    FeedPayload(payload);
    FeedCons(3, IAC, [SE]);
    FeedCons(4, SE, []);
  }

  /** `telnets_handle_commands`: rewrites the client's filter state once per byte of `data`. */
  method HandleCommands(client: Client, data: seq<byte>)
    modifies client`telnetState
    ensures client.telnetState == Feed(old(client.telnetState), data)
  {
    for i := 0 to |data|
      invariant Feed(client.telnetState, data[i..]) == Feed(old(client.telnetState), data)
    {
      assert data[i..] == [data[i]] + data[i + 1..];
      var c := data[i];
      match client.telnetState {
        case 0 =>
          if c == IAC {
            client.telnetState := 1;
          }
        case 1 =>
          if c == WILL || c == WONT || c == DO || c == DONT {
            client.telnetState := 2;
          } else if c == SB {
            client.telnetState := 3;
          } else if c == IAC {
            client.telnetState := 0;  // doubled IAC: a literal 0xFF
          } else {
            client.telnetState := 0;
          }
        case 2 =>
          client.telnetState := 0;
        case 3 =>
          if c == IAC {
            client.telnetState := 4;
          }
        case 4 =>
          if c == SE {
            client.telnetState := 0;
          } else if c == IAC {
            client.telnetState := 3;
          } else {
            client.telnetState := 3;
          }
        case _ =>
      }
    }
    assert data[|data|..] == [];
  }
}
