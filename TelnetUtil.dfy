/**
 * The helper functions of telnet_server.c (lines 212-291): the banner and
 * the prompt, the two linear scans of the slot table, the idle test and
 * `telnets_trim_newline`.  `get_current_time` is the clock; the model takes
 * its reading as the parameter `now`.
 */
module TelnetUtil {
  import opened TelnetTypes

  /** `telnets_welcome` (telnet_server.c:213-230). */
  const Welcome: seq<byte> := Ascii(
    "\r\n" +
    "========================================\r\n" +
    "   Welcome to WK Telnet Server\r\n" +
    "========================================\r\n" +
    "\r\n" +
    "Available commands:\r\n" +
    "  help     - Show this help message\r\n" +
    "  time     - Show current time\r\n" +
    "  echo <msg> - Echo back the message\r\n" +
    "  clear    - Clear the screen\r\n" +
    "  quit     - Disconnect\r\n" +
    "\r\n")

  /** `telnets_send_prompt` (telnet_server.c:233-237). */
  const Prompt: seq<byte> := Ascii("\rwktx:##>")

  /** The lowest empty slot at or after `i`, or -1. */
  function FreeFrom(slots: seq<Option<ClientRec>>, i: nat): (r: int)
    requires i <= |slots|
    ensures r == -1 || i <= r < |slots|
    ensures r == -1 <==> forall k :: i <= k < |slots| ==> slots[k].Some?
    ensures r >= 0 ==> slots[r].None? && forall k :: i <= k < r ==> slots[k].Some?
    decreases |slots| - i
  {
    if i == |slots| then -1
    else if slots[i].None? then i
    else FreeFrom(slots, i + 1)
  }

  /** The slot an allocation takes: the lowest empty one, or -1 when all are occupied. */
  function FirstFree(slots: seq<Option<ClientRec>>): (r: int)
    ensures -1 <= r < |slots|
    ensures r == -1 <==> forall k :: 0 <= k < |slots| ==> slots[k].Some?
    ensures r >= 0 ==> slots[r].None? && forall k :: 0 <= k < r ==> slots[k].Some?
  {
    FreeFrom(slots, 0)
  }

  /** `telnets_find_available_slot` (telnet_server.c:254-263). */
  method FindAvailableSlot(server: Server) returns (index: int)
    requires server.Valid()
    ensures -1 <= index < MaxClients
    ensures index == -1 <==> forall i :: 0 <= i < MaxClients ==> server.clients[i] != null
    ensures index >= 0 ==> server.clients[index] == null && forall i :: 0 <= i < index ==> server.clients[i] != null
    ensures index == FirstFree(server.View().slots)
  {
    server.ViewSlots();
    for i := 0 to server.maxClients
      invariant forall k :: 0 <= k < i ==> server.clients[k] != null
    {
      if server.clients[i] == null {
        return i;
      }
    }
    return -1;
  }

  /** `telnets_find_client_index` (telnet_server.c:244-251). */
  method FindClientIndex(server: Server, sockfd: int) returns (index: int)
    requires server.Valid()
    ensures -1 <= index < MaxClients
    ensures index == -1 <==>
              forall i :: 0 <= i < MaxClients && server.clients[i] != null ==> server.clients[i].sockfd != sockfd
    ensures index >= 0 ==> server.clients[index] != null && server.clients[index].sockfd == sockfd
    ensures index >= 0 ==>
              forall i :: 0 <= i < index && server.clients[i] != null ==> server.clients[i].sockfd != sockfd
  {
    for i := 0 to server.maxClients
      invariant forall k :: 0 <= k < i && server.clients[k] != null ==> server.clients[k].sockfd != sockfd
    {
      if server.clients[i] != null && server.clients[i].sockfd == sockfd {
        return i;
      }
    }
    return -1;
  }

  /** The idle rule: a client whose last activity lies `IdleTimeout` seconds or more in the past. */
  predicate TimedOut(lastActive: int, now: int)
  {
    now - lastActive >= IdleTimeout
  }

  /** `is_telnet_client_timeout` (telnet_server.c:272-280); a missing client counts as timed out. */
  predicate IsClientTimeout(client: Client?, now: int)
    reads client
  {
    client == null || TimedOut(client.lastActive, now)
  }

  /**
   * Timing out is for good: a client timed out now is timed out at every
   * later time, and a client active now is not timed out now.
   */
  lemma TimeoutPersists(client: Client?, now: int, later: int)
    requires now <= later
    ensures IsClientTimeout(client, now) ==> IsClientTimeout(client, later)
    ensures client != null && client.lastActive == now ==> !IsClientTimeout(client, now)
    ensures client == null ==> IsClientTimeout(client, now)
  {
  }

  /** The length of the NUL-terminated string at the start of `s` (`strlen`). */
  function StrLen(s: seq<byte>): (n: nat)
    requires 0 in s
    ensures n < |s| && s[n] == 0 && forall k :: 0 <= k < n ==> s[k] != 0
  {
    if s[0] == 0 then 0 else StrLen(s[1..]) + 1
  }

  /** The C string held at the start of `s`. */
  function CString(s: seq<byte>): seq<byte>
    requires 0 in s
  {
    s[..StrLen(s)]
  }

  /**
   * The string `telnets_trim_newline` leaves: a final CR or LF is cut, and
   * a CR in the penultimate position cuts the string there whatever the
   * last byte is.
   */
  function Trimmed(s: seq<byte>): seq<byte>
  {
    if |s| > 1 && s[|s| - 2] == CR then s[..|s| - 2]
    else if |s| > 0 && (s[|s| - 1] == LF || s[|s| - 1] == CR) then s[..|s| - 1]
    else s
  }

  /** What trimming promises: a prefix at most two bytes shorter, with CRLF, LF or CR endings removed. */
  lemma TrimmedProperties(s: seq<byte>)
    ensures Trimmed(s) <= s && |s| - 2 <= |Trimmed(s)|
    ensures forall p :: p + CRLF == s ==> Trimmed(s) == p
    ensures forall p :: p + [LF] == s && (p == [] || p[|p| - 1] != CR) ==> Trimmed(s) == p
    ensures forall p :: p + [CR] == s && (p == [] || p[|p| - 1] != CR) ==> Trimmed(s) == p
    ensures |s| > 1 && s[|s| - 2] == CR ==> Trimmed(s) == s[..|s| - 2]
    ensures |s| > 0 && s[|s| - 1] != LF && s[|s| - 1] != CR && (|s| < 2 || s[|s| - 2] != CR) ==> Trimmed(s) == s
  {
    forall p | p + CRLF == s
      ensures Trimmed(s) == p
    {
      assert s[|s| - 2] == CR;
      assert s[..|s| - 2] == p;
    }
    forall p | p + [LF] == s && (p == [] || p[|p| - 1] != CR)
      ensures Trimmed(s) == p
    {
      assert s[..|s| - 1] == p;
    }
    forall p | p + [CR] == s && (p == [] || p[|p| - 1] != CR)
      ensures Trimmed(s) == p
    {
      assert s[..|s| - 1] == p;
    }
  }

  /** `telnets_trim_newline` (telnet_server.c:283-291): writes NULs into `str` in place. */
  method TrimNewline(str: array<byte>)
    requires 0 in str[..]
    modifies str
    ensures 0 in str[..]
    ensures CString(str[..]) == Trimmed(old(CString(str[..])))
    ensures forall k :: 0 <= k < str.Length && str[k] != old(str[k]) ==> str[k] == 0
  {
    var len := StrLen(str[..]);
    ghost var s := str[..len];
    if len > 0 && (str[len - 1] == LF || str[len - 1] == CR) {
      str[len - 1] := 0;
    }
    if len > 1 && str[len - 2] == CR {
      str[len - 2] := 0;
    }
    ghost var t := Trimmed(s);
    ghost var after := str[..];
    assert after[|t|] == 0;
    assert after[..|t|] == t;
    StrLenAt(after, |t|);
  }

  /** A string whose first NUL is at `n` has length `n`. */
  lemma {:induction false} StrLenAt(s: seq<byte>, n: nat)
    requires n < |s| && s[n] == 0 && forall k :: 0 <= k < n ==> s[k] != 0
    ensures 0 in s && StrLen(s) == n
  {
    if n > 0 {
      StrLenAt(s[1..], n - 1);
    }
  }
}
