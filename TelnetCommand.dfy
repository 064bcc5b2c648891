/**
 * The command dispatcher `telnets_command_proc` (telnet_recv.c:14-108),
 * modelled as a function from a completed line to the bytes it sends and
 * whether it asks for the connection to be closed.
 *
 * What the C code leaves undefined is fixed here as follows: when `sscanf`
 * assigns neither `cmd` nor `arg` (a line of blanks only) or leaves `arg`
 * unassigned (a command without argument), the unassigned buffer is taken
 * to hold the empty string; a command token longer than `cmd[128]` is taken
 * whole, as if the buffer were large enough.
 */
module TelnetCommand {
  import opened TelnetTypes

  /** `isspace` in the C locale: blank, tab, newline, vertical tab, form feed, carriage return. */
  predicate IsSpace(c: byte) { c == 32 || 9 <= c <= 13 }

  predicate IsUpper(c: byte) { 65 <= c <= 90 }

  /** `tolower` in the C locale. */
  function ToLower(c: byte): byte { if IsUpper(c) then c + 32 else c }

  /** The command token after the in-place lower-casing loop (telnet_recv.c:27-30). */
  function Lower(s: seq<byte>): (r: seq<byte>)
    ensures |r| == |s|
    ensures forall k :: 0 <= k < |r| ==> !IsUpper(r[k])
    ensures forall k :: 0 <= k < |r| ==> r[k] == s[k] || (IsUpper(s[k]) && r[k] == s[k] + 32)
  {
    seq(|s|, k requires 0 <= k < |s| => ToLower(s[k]))
  }

  /** The end of the run of bytes satisfying `p` that starts at `i`. */
  function Span(s: seq<byte>, i: nat, p: byte -> bool): (j: nat)
    requires i <= |s|
    ensures i <= j <= |s|
    ensures forall k :: i <= k < j ==> p(s[k])
    ensures j == |s| || !p(s[j])
    decreases |s| - i
  {
    if i == |s| || !p(s[i]) then i else Span(s, i + 1, p)
  }

  predicate NotSpace(c: byte) { !IsSpace(c) }

  predicate NotLF(c: byte) { c != LF }

  predicate AllSpace(s: seq<byte>) { forall k :: 0 <= k < |s| ==> IsSpace(s[k]) }

  /** A run of `p` from `i` that stops at `j` (before a byte failing `p`, or at the end) ends at `j`. */
  lemma {:induction false} SpanAt(s: seq<byte>, i: nat, p: byte -> bool, j: nat)
    requires i <= j <= |s|
    requires forall k :: i <= k < j ==> p(s[k])
    requires j == |s| || !p(s[j])
    ensures Span(s, i, p) == j
    decreases j - i
  {
    if i < j {
      SpanAt(s, i + 1, p, j);
    }
  }

  /**
   * What `sscanf(command, "%s %[^\n]", cmd, arg)` produces: the number of
   * conversions (-1 for end of input before the first one), the first
   * blank-delimited token, and the rest after the blanks that follow it, up
   * to a newline.
   */
  datatype Scan = Scan(count: int, cmd: seq<byte>, arg: seq<byte>)

  function ScanLine(line: seq<byte>): (r: Scan)
    ensures r.count == -1 <==> AllSpace(line)
    ensures r.count in {-1, 1, 2}
    ensures r.count >= 1 ==> r.cmd != [] && forall k :: 0 <= k < |r.cmd| ==> !IsSpace(r.cmd[k])
    ensures r.count == 2 <==> r.arg != []
    ensures r.arg != [] ==> !IsSpace(r.arg[0])
    ensures forall k :: 0 <= k < |r.arg| ==> r.arg[k] != LF
    ensures |r.cmd| + |r.arg| <= |line|
  {
    var i := Span(line, 0, IsSpace);
    if i == |line| then
      Scan(-1, [], [])
    else
      var j := Span(line, i, NotSpace);
      var k := Span(line, j, IsSpace);
      var m := Span(line, k, NotLF);
      if m == k then Scan(1, line[i..j], []) else Scan(2, line[i..j], line[k..m])
  }

  /** The middle part of a concatenation of three. */
  lemma MiddleSlice(x: seq<byte>, y: seq<byte>, z: seq<byte>)
    ensures (x + y + z)[|x|..|x| + |y|] == y
  {
  }

  /**
   * The scan of a line whose token is `line[a..b]` and whose argument is
   * `line[c..d]`: blanks before `a` and between `b` and `c`, a blank or the
   * end after the token, a newline or the end after the argument.
   */
  lemma ScanAt(line: seq<byte>, a: nat, b: nat, c: nat, d: nat)
    requires a < b <= c <= d <= |line|
    requires forall x :: 0 <= x < a ==> IsSpace(line[x])
    requires forall x :: a <= x < b ==> !IsSpace(line[x])
    requires forall x :: b <= x < c ==> IsSpace(line[x])
    requires forall x :: c <= x < d ==> line[x] != LF
    requires c < d ==> b < c && !IsSpace(line[c])
    requires d < |line| ==> c < d && line[d] == LF
    requires c == d ==> c == |line|
    ensures ScanLine(line) == Scan(if c == d then 1 else 2, line[a..b], line[c..d])
  {
    SpanAt(line, 0, IsSpace, a);
    SpanAt(line, a, NotSpace, b);
    SpanAt(line, b, IsSpace, c);
    SpanAt(line, c, NotLF, d);
  }

  /**
   * The scan takes a line apart as the format says: leading blanks, the
   * token, the blanks after it, the argument, then a newline or the end.
   * Together with `ScanOfWords` this pins the scan of every line down.
   */
  lemma ScanLineSplits(line: seq<byte>) returns (lead: seq<byte>, gap: seq<byte>, tail: seq<byte>)
    requires !AllSpace(line)
    ensures var r := ScanLine(line);
            && line == lead + r.cmd + gap + r.arg + tail
            && AllSpace(lead) && AllSpace(gap)
            && (r.arg != [] ==> gap != [])
            && (tail == [] || (r.arg != [] && tail[0] == LF))
  {
    var i := Span(line, 0, IsSpace);
    var j := Span(line, i, NotSpace);
    var k := Span(line, j, IsSpace);
    var m := Span(line, k, NotLF);
    assert k == m ==> k == |line|;
    var r := ScanLine(line);
    assert r.cmd == line[i..j] && r.arg == line[k..m];
    lead, gap, tail := line[..i], line[j..k], line[m..];
    SplitFive(line, i, j, k, m);
  }

  lemma SplitFive(s: seq<byte>, i: nat, j: nat, k: nat, m: nat)
    requires i <= j <= k <= m <= |s|
    ensures s == s[..i] + s[i..j] + s[j..k] + s[k..m] + s[m..]
  {
    assert s[..j] == s[..i] + s[i..j];
    assert s[..k] == s[..j] + s[j..k];
    assert s[..m] == s[..k] + s[k..m];
    assert s == s[..m] + s[m..];
  }

  /**
   * Scanning blanks, a token, blanks, an argument and then a newline or the
   * end gives the token and the argument back.
   */
  lemma ScanOfWords(lead: seq<byte>, cmd: seq<byte>, gap: seq<byte>, arg: seq<byte>, tail: seq<byte>)
    requires AllSpace(lead) && AllSpace(gap)
    requires cmd != [] && forall k :: 0 <= k < |cmd| ==> !IsSpace(cmd[k])
    requires arg != [] ==> gap != [] && !IsSpace(arg[0])
    requires forall k :: 0 <= k < |arg| ==> arg[k] != LF
    requires tail == [] || (arg != [] && tail[0] == LF)
    ensures ScanLine(lead + cmd + gap + arg + tail) == Scan(if arg == [] then 1 else 2, cmd, arg)
  {
    WordsLayout(lead, cmd, gap, arg, tail);
    ScanAt(lead + cmd + gap + arg + tail, |lead|, |lead| + |cmd|, |lead| + |cmd| + |gap|, |lead| + |cmd| + |gap| + |arg|);
  }

  /** Where the pieces of `lead + cmd + gap + arg + tail` sit, byte by byte. */
  lemma WordsLayout(lead: seq<byte>, cmd: seq<byte>, gap: seq<byte>, arg: seq<byte>, tail: seq<byte>)
    ensures var line := lead + cmd + gap + arg + tail;
            var a, b := |lead|, |lead| + |cmd|;
            var c, d := b + |gap|, b + |gap| + |arg|;
            && (forall x :: 0 <= x < a ==> line[x] == lead[x])
            && (forall x :: b <= x < c ==> line[x] == gap[x - b])
            && line[a..b] == cmd && line[c..d] == arg
            && (d < |line| ==> line[d] == tail[0])
  {
    var line := lead + cmd + gap + arg + tail;
    assert line == lead + cmd + (gap + arg + tail);
    MiddleSlice(lead, cmd, gap + arg + tail);
    assert line == (lead + cmd + gap) + arg + tail;
    MiddleSlice(lead + cmd + gap, arg, tail);
    assert line == (lead + cmd + gap + arg) + tail;
  }

  /** `snprintf` into a buffer of `size` bytes keeps at most `size - 1` of them. */
  function Format(s: seq<byte>, size: nat): (r: seq<byte>)
    requires size > 0
    ensures |r| < size && r <= s
    ensures |s| < size ==> r == s
    ensures |s| >= size ==> |r| == size - 1
  {
    if |s| < size then s else s[..size - 1]
  }

  predicate IsDigit(c: byte) { 48 <= c <= 57 }

  /** The decimal digits of `n`, as `%d` prints a non-negative number. */
  function Digits(n: nat): (r: seq<byte>)
    ensures |r| >= 1
    ensures forall k :: 0 <= k < |r| ==> IsDigit(r[k])
    ensures |r| > 1 ==> r[0] != 48
    decreases n
  {
    if n < 10 then [(48 + n) as byte] else Digits(n / 10) + [(48 + n % 10) as byte]
  }

  /** The value a string of decimal digits denotes. */
  function Value(s: seq<byte>): int
  {
    if s == [] then 0 else 10 * Value(s[..|s| - 1]) + (s[|s| - 1] as int - 48)
  }

  /** Printing a number in decimal and reading it back gives the number. */
  lemma {:induction false} DigitsValue(n: nat)
    ensures Value(Digits(n)) == n
    decreases n
  {
    if n >= 10 {
      DigitsValue(n / 10);
      var r := Digits(n);
      assert r[..|r| - 1] == Digits(n / 10);
    }
  }

  /** `%d` / `%ld`. */
  function Decimal(n: int): seq<byte>
  {
    if n < 0 then [45] + Digits(-n) else Digits(n)
  }

  /** `%d` text reads back to the number: a minus sign exactly for a negative one, then the digits of its magnitude. */
  lemma DecimalValue(n: int)
    ensures |Decimal(n)| >= 1
    ensures (Decimal(n)[0] == 45) <==> n < 0
    ensures n < 0 ==> Value(Decimal(n)[1..]) == -n
    ensures n >= 0 ==> Value(Decimal(n)) == n
  {
    if n < 0 {
      DigitsValue(-n);
      assert Decimal(n)[1..] == Digits(-n);
    } else {
      DigitsValue(n);
    }
  }

  // Replies (telnet_recv.c:35-43, 54, 61, 64, 70, 74, 84, 90-94, 102, 105).
  const HelpText: seq<byte> := Ascii(
    "\r\nAvailable commands:\r\n" +
    "  help     - Show this help message\r\n" +
    "  time     - Show current time\r\n" +
    "  echo <msg> - Echo back the message\r\n" +
    "  clear    - Clear the screen\r\n" +
    "  quit     - Disconnect\r\n" +
    "  clients  - Show connected clients\r\n" +
    "  stats    - Show server statistics\r\n")
  const EchoUsage: seq<byte> := Ascii("\r\nUsage: echo <message>\r\n")
  const ClearScreen: seq<byte> := [27] + Ascii("[2J") + [27] + Ascii("[H")
  const Goodbye: seq<byte> := Ascii("\r\nGoodbye!\r\n")
  const ClientsText: seq<byte> := Ascii("\r\nClient list functionality not implemented yet.\r\n")
  const HelpHint: seq<byte> := Ascii("Type 'help' for available commands.\r\n")

  // The command names the dispatcher compares against.
  const Help: seq<byte> := Ascii("help")
  const Time: seq<byte> := Ascii("time")
  const Echo: seq<byte> := Ascii("echo")
  const Clear: seq<byte> := Ascii("clear")
  const Quit: seq<byte> := Ascii("quit")
  const Exit: seq<byte> := Ascii("exit")
  const Clients: seq<byte> := Ascii("clients")
  const Stats: seq<byte> := Ascii("stats")

  /** No two of the eight command names are the same word. */
  lemma CommandNamesDistinct()
    ensures Help != Time && Help != Echo && Help != Clear && Help != Quit && Help != Exit && Help != Clients && Help != Stats
    ensures Time != Echo && Time != Clear && Time != Quit && Time != Exit && Time != Clients && Time != Stats
    ensures Echo != Clear && Echo != Quit && Echo != Exit && Echo != Clients && Echo != Stats
    ensures Clear != Quit && Clear != Exit && Clear != Clients && Clear != Stats
    ensures Quit != Exit && Quit != Clients && Quit != Stats
    ensures Exit != Clients && Exit != Stats
    ensures Clients != Stats
  {
    assert Help[0] == 104 && Time[0] == 116 && Echo[0] == 101 && Clear[0] == 99;
    assert Quit[0] == 113 && Exit[0] == 101 && Clients[0] == 99 && Stats[0] == 115;
    assert Echo[1] == 99 && Exit[1] == 120;
    assert |Clear| == 5 && |Clients| == 7;
  }

  /** The text the dispatcher sends, and whether it sets the client's `closed` flag. */
  datatype Reply = Reply(text: seq<byte>, close: bool)

  /**
   * What the dispatcher needs from outside: the clock reading `now` and the
   * local time that `strftime` formats as `YYYY-MM-DD HH:MM:SS`.
   */
  datatype Env = Env(now: int, timeText: seq<byte>)

  function TimeReply(env: Env): seq<byte>
  {
    Format(Ascii("\r\nCurrent time: ") + env.timeText + CRLF, 128)
  }

  function EchoReply(arg: seq<byte>): seq<byte>
  {
    Format(Ascii("\r\nEcho: ") + arg + CRLF, BufferSize + 64)
  }

  function StatsReply(addr: SockAddr, lastActive: int, env: Env): seq<byte>
  {
    Format(
      Ascii("\r\nClient statistics:\r\n  IP: ") + addr.ip +
      Ascii("\r\n  Port: ") + Decimal(addr.port) +
      Ascii("\r\n  Connected for: ") + Decimal(env.now - lastActive) + Ascii(" seconds\r\n"),
      256)
  }

  function UnknownReply(cmd: seq<byte>): seq<byte>
  {
    Format(Ascii("\r\nUnknown command: ") + cmd + CRLF, 256) + HelpHint
  }

  /** `telnets_command_proc` for a client with address `addr` last active at `lastActive`. */
  function CommandProc(line: seq<byte>, addr: SockAddr, lastActive: int, env: Env): Reply
  {
    var scan := ScanLine(line);
    if scan.count == 0 then Reply([], false)
    else
      var cmd := Lower(scan.cmd);
      if cmd == Help then Reply(HelpText, false)
      else if cmd == Time then Reply(TimeReply(env), false)
      else if cmd == Echo then
        if |scan.arg| > 0 then Reply(EchoReply(scan.arg), false) else Reply(EchoUsage, false)
      else if cmd == Clear then Reply(ClearScreen, false)
      else if cmd == Quit || cmd == Exit then Reply(Goodbye, true)
      else if cmd == Clients then Reply(ClientsText, false)
      else if cmd == Stats then Reply(StatsReply(addr, lastActive, env), false)
      else Reply(UnknownReply(cmd), false)
  }

  /** Only quit and exit, in any letter case, ask for the connection to be closed, and they say goodbye. */
  lemma CloseOnlyOnQuit(line: seq<byte>, addr: SockAddr, lastActive: int, env: Env)
    ensures var r := CommandProc(line, addr, lastActive, env);
            var cmd := Lower(ScanLine(line).cmd);
            r.close <==> cmd == Quit || cmd == Exit
    ensures CommandProc(line, addr, lastActive, env).close ==> CommandProc(line, addr, lastActive, env).text == Goodbye
  {
    assert Quit[0] == 113 && Exit[0] == 101 && Exit[1] == 120;
    assert Help[0] == 104 && Time[0] == 116 && Echo[1] == 99 && Clear[0] == 99;
  }

  /** A word is its own scan token: lower-casing keeps non-letters, so a token that lower-cases to a command name holds no blank. */
  lemma LowerToWord(cmd: seq<byte>, word: seq<byte>)
    requires Lower(cmd) == word
    requires forall k :: 0 <= k < |word| ==> 97 <= word[k] <= 122
    ensures forall k :: 0 <= k < |cmd| ==> !IsSpace(cmd[k])
  {
    forall k | 0 <= k < |cmd|
      ensures !IsSpace(cmd[k])
    {
      assert Lower(cmd)[k] == word[k];
    }
  }

  /**
   * echo: whatever the case of the command word, a non-empty argument comes
   * back in its own letter case between "\r\nEcho: " and CRLF, cut to the
   * 1088-byte reply buffer; without an argument the usage text is sent.
   * The connection stays open either way.
   */
  lemma EchoCommand(line: seq<byte>, addr: SockAddr, lastActive: int, env: Env)
    requires Lower(ScanLine(line).cmd) == Echo
    ensures var arg := ScanLine(line).arg;
            var full := Ascii("\r\nEcho: ") + arg + CRLF;
            var r := CommandProc(line, addr, lastActive, env);
            && !r.close
            && (arg == [] ==> r.text == EchoUsage)
            && (arg != [] && |full| < BufferSize + 64 ==> r.text == full)
            && (arg != [] && |full| >= BufferSize + 64 ==> r.text == full[..BufferSize + 63])
  {
    var scan := ScanLine(line);
    assert Echo[0] == 101 && Echo[1] == 99;
    assert scan.count != 0 && Lower(scan.cmd) != Help && Lower(scan.cmd) != Time;
    assert CommandProc(line, addr, lastActive, env) ==
             Reply(if scan.arg == [] then EchoUsage else EchoReply(scan.arg), false);
  }

  /** An unrecognised command is answered with its lower-cased name and the help hint, and keeps the connection open. */
  lemma UnknownCommand(line: seq<byte>, addr: SockAddr, lastActive: int, env: Env)
    requires ScanLine(line).count >= 1
    requires |ScanLine(line).cmd| < 128
    requires Lower(ScanLine(line).cmd) !in {Help, Time, Echo, Clear, Quit, Exit, Clients, Stats}
    ensures CommandProc(line, addr, lastActive, env)
            == Reply(Ascii("\r\nUnknown command: ") + Lower(ScanLine(line).cmd) + CRLF + HelpHint, false)
  {
  }
}
