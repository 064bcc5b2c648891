# A verified model of the WK Telnet server

This project is a Dafny model of a small single-threaded Telnet server
written in C. The server listens on a TCP port and keeps at most five
clients in a fixed slot table. Its main loop multiplexes the listening
socket and the client sockets with `select`, which waits at most one
second; a pass of the loop runs each time it returns.

Each connected client gets:

- a welcome banner and the prompt `\rwktx:##>`;
- a line editor with backspace/delete, echo, and a 1023-byte line limit;
- a filter that tracks Telnet command sequences (RFC 854) and
  subnegotiations (RFC 855) across a read; a read that ends inside one is
  dropped whole, and a read that ends outside one goes to the editor whole;
- a dispatcher for the commands `help`, `time`, `echo`, `clear`, `quit`,
  `exit`, `clients` and `stats`.

A client idle for 600 seconds is sent a notice and disconnected.

The model is organised like the program:

| module | models |
|---|---|
| `TelnetTypes` | `telnet_server.h`: the constants, the client and server records as the classes `Client` and `Server`, and their pure views `ClientRec` and `ServerRec` |
| `TelnetUtil` | the helpers of `telnet_server.c`: the banner and the prompt, the two slot scans, the idle test, `telnets_trim_newline` |
| `TelnetFilter` | `telnets_handle_commands`, the five-state command filter |
| `TelnetCommand` | `telnets_command_proc`, the dispatcher; `sscanf`, `tolower`, `snprintf` and `%d` are written out |
| `TelnetSlots` | `telnet_proc.c`: adding, removing and reaping clients, and the accept logic |
| `TelnetRecv` | `telnets_recv_data_proc`: one read, the filter, the line editor and the removal of a closed client |
| `TelnetServer` | `telnet_server.c`: init, the listening set-up, one pass of the main loop, the loop itself, stop and destroy |

Each method that changes state does two things:

- it updates a `Client` or `Server` object in place, like the C code;
- it is proved equal on the view to a pure specification function
  (`AddSpec`, `RemoveSpec`, `ReapSpec`, `AcceptSpec`, `ReceiveAt`,
  `TickSpec`, `RunSpec`).

The lemmas state what those functions promise.

Everything the operating system decides is an input of the model:

- what `select`, `accept`, `fcntl` and `recv` return;
- the clock reading, and the local time `strftime` prints.

Every byte the server hands to `send` on a connection is appended to that
client's transcript `sent`. TCP is a byte stream, so how the bytes were
split into `send` calls is not observable.

Three points where the program's behaviour is easy to misread are modelled
as the code is written:

- **Whole-read gating.** Whether the bytes of a read reach the editor is
  decided once, by the filter state after the whole read
  (telnet_recv.c:219-228).
  - A read that ends inside a command sequence is dropped whole.
  - In a read that ends in the normal state, every byte goes to the editor.
    The editor ignores the command codes themselves, but a printable option
    byte is typed into the line (`PrintableOptionByteIsTyped`).
  - So the filter state after the whole read decides whether every byte
    of that read is taken; no byte is skipped on its own.
- **Line ends.** Both CR and LF end a line. CR LF after a command therefore
  dispatches at the CR and sends a prompt at the LF (`CommandLine`).
- **Echo.** `echo` answers the argument in its original letter case. Only
  the command word is lower-cased.

## Model

| member | source | states |
|---|---|---|
| TelnetTypes.CommandCodesAreControlBytes | telnet_server.h:38-45 | the seven Telnet command codes are distinct, and none is printable, CR, LF, BS or DEL |
| TelnetTypes.Client.constructor | telnet_proc.c:93-108 | a new client has an empty line, filter state 0, `closed` clear, activity time `now`, an empty transcript, and its own fresh 1024-byte buffer |
| TelnetTypes.Server.constructor | telnet_server.c:21-49 | a new server is `InitialServer(port)`: five empty slots, running, listening socket -1, `max_fd` 0 |
| TelnetTypes.Server.Store | telnet_proc.c:111 | storing a new client into an empty slot changes exactly that slot of the view and keeps the table invariant; only the new client and its buffer join the footprint |
| TelnetTypes.Server.Clear | telnet_proc.c:145 | nulling a slot empties exactly that slot of the view and keeps the table invariant |
| TelnetTypes.Server.SendTo | telnet_proc.c:164 | a send appends exactly the given bytes to one client's transcript and changes nothing else |
| TelnetTypes.Server.ClientUpdated | telnet_recv.c:216-283 | an in-place change to one client object changes only that slot of the view |
| TelnetUtil.FirstFree | telnet_server.c:254-263 | the lowest empty slot, or -1 exactly when every slot is occupied |
| TelnetUtil.FindAvailableSlot | telnet_server.c:254-263 | returns the lowest null slot, or -1 exactly when none is null; equals `FirstFree` of the view |
| TelnetUtil.FindClientIndex | telnet_server.c:244-251 | returns the lowest slot whose client has descriptor `sockfd`, or -1 exactly when no client has it |
| TelnetUtil.TimedOut | telnet_server.c:277-279 | the idle rule, 600 seconds or more since the last activity; `TimeoutPersists` states its promises |
| TelnetUtil.IsClientTimeout | telnet_server.c:272-280 | the idle test on a client pointer, true for a null one; `TimeoutPersists` states its promises |
| TelnetUtil.TimeoutPersists | telnet_server.c:272-280 | a missing client counts as timed out; a client active at `now` is not timed out; once timed out, always timed out |
| TelnetUtil.StrLen | telnet_server.c:284 | the index of the first NUL |
| TelnetUtil.Trimmed | telnet_server.c:283-291 | the string `telnets_trim_newline` leaves; `TrimmedProperties` states its promises and `TrimNewline` is proved against it |
| TelnetUtil.TrimmedProperties | telnet_server.c:283-291 | trimming yields a prefix at most two bytes shorter; it removes a trailing CRLF, LF or CR, and cuts at a CR in the penultimate position |
| TelnetUtil.TrimNewline | telnet_server.c:283-291 | the C string left in the array is `Trimmed` of the old one; only bytes overwritten with NUL change |
| TelnetFilter.Step | telnet_recv.c:118-175 | one transition of the five-state filter; `NormalAndCommandTransitions` and `OptionAndSubnegotiationTransitions` state it case by case |
| TelnetFilter.Feed | telnet_recv.c:115-176 | the filter folded over a read; `FeedInRange`, `FeedAppend`, `FeedCons`, `FeedPlainText`, `FeedPayload` and the two return-to-normal lemmas state its promises |
| TelnetFilter.NormalAndCommandTransitions | telnet_recv.c:119-147 | in the normal state only IAC opens a command; after IAC, a verb waits for an option, SB opens a subnegotiation, and anything else returns to normal |
| TelnetFilter.OptionAndSubnegotiationTransitions | telnet_recv.c:149-174 | any option byte returns to normal; inside a subnegotiation only IAC SE leaves it |
| TelnetFilter.FeedInRange | telnet_recv.c:113-177 | the filter state stays within 0..4 |
| TelnetFilter.FeedAppend | telnet_recv.c:115-176 | filtering `a + b` is filtering `a`, then `b` |
| TelnetFilter.FeedPlainText | telnet_recv.c:121-126 | text without IAC keeps the normal state |
| TelnetFilter.FeedPayload | telnet_recv.c:154-159 | a payload without IAC keeps the filter inside the subnegotiation |
| TelnetFilter.FeedCons | telnet_recv.c:115-176 | filtering one byte, then the rest |
| TelnetFilter.CommandsReturnToNormal | telnet_recv.c:121-152 | a complete negotiation `IAC verb option` and a doubled IAC each return to the normal state |
| TelnetFilter.SubnegotiationReturnsToNormal | telnet_recv.c:121-174 | `IAC SB payload IAC SE` returns to the normal state |
| TelnetFilter.HandleCommands | telnet_recv.c:113-177 | the client's filter state becomes `Feed` of the old state over the data |
| TelnetCommand.Lower | telnet_recv.c:27-30 | same length, no upper-case letter left, only upper-case letters changed, each by +32 |
| TelnetCommand.Span | telnet_recv.c:20 | the maximal run of bytes satisfying a predicate |
| TelnetCommand.ScanLine | telnet_recv.c:20 | `sscanf("%s %[^\n]")` as the dispatcher uses it: count -1 exactly on an all-blank line; a non-empty blank-free token; two conversions exactly when an argument was read; an argument that starts with no blank and holds no LF |
| TelnetCommand.ScanLineSplits | telnet_recv.c:20 | every line that is not all blanks is leading blanks, the token, blanks, the argument, then a newline or the end |
| TelnetCommand.ScanOfWords | telnet_recv.c:20 | scanning leading blanks, a token, blanks, an argument and a newline or the end gives back that token and that argument; with `ScanLineSplits` this fixes the scan of every line |
| TelnetCommand.Format | telnet_recv.c:54 | `snprintf` keeps a prefix of the string: the whole string when it fits, otherwise exactly its first `size - 1` bytes |
| TelnetCommand.Decimal | telnet_recv.c:90-97 | `%d` and `%ld`: a minus sign for a negative number, then its digits; `DecimalValue` states its promises |
| TelnetCommand.DecimalValue | telnet_recv.c:90-97 | the printed text starts with a minus sign exactly for a negative number, and reads back to the number |
| TelnetCommand.TimeReply | telnet_recv.c:46-55 | the `time` reply, the formatted local time between `\r\nCurrent time: ` and CRLF in a 128-byte buffer; the truncation is `Format`'s |
| TelnetCommand.EchoReply | telnet_recv.c:59-62 | the `echo` reply in a 1088-byte buffer; `EchoCommand` states its promises |
| TelnetCommand.StatsReply | telnet_recv.c:87-98 | the `stats` reply with the address text, the port and the seconds since the last activity, in a 256-byte buffer; `DecimalValue` and `Format` state the promises of its parts |
| TelnetCommand.UnknownReply | telnet_recv.c:100-107 | the reply to an unknown command, its name in a 256-byte buffer followed by the help hint; `UnknownCommand` states its promises |
| TelnetCommand.Digits | telnet_recv.c:90-97 | decimal digits, without a leading zero |
| TelnetCommand.DigitsValue | telnet_recv.c:90-97 | the printed digits denote the number |
| TelnetCommand.CommandNamesDistinct | telnet_recv.c:33-101 | all 28 pairs of the eight command names differ, so the branches of the dispatcher do not overlap |
| TelnetCommand.CommandProc | telnet_recv.c:14-108 | the reply and the close request for a completed line; `CloseOnlyOnQuit`, `EchoCommand` and `UnknownCommand` state its promises |
| TelnetCommand.CloseOnlyOnQuit | telnet_recv.c:73-79 | `closed` is set exactly for `quit` or `exit` in any letter case, and the reply then is the goodbye text |
| TelnetCommand.LowerToWord | telnet_recv.c:27-30 | a token that lower-cases to a command name contains no blank |
| TelnetCommand.EchoCommand | telnet_recv.c:57-68 | for any line whose command word lower-cases to `echo`: a non-empty scanned argument is sent back in its own letter case between `\r\nEcho: ` and CRLF, cut to the 1088-byte reply buffer; without an argument the usage text is sent; the connection stays open |
| TelnetCommand.UnknownCommand | telnet_recv.c:102-107 | any other command is answered with its lower-cased name and the help hint; the connection stays open |
| TelnetSlots.RaiseMaxFd | telnet_proc.c:114-116 | the new `max_fd` is the larger of the old value and the descriptor |
| TelnetSlots.AddSpec | telnet_proc.c:85-119 | -1 with no change exactly when the table is full; otherwise a new client in the lowest empty slot, other slots unchanged, `max_fd` raised |
| TelnetSlots.RemoveSpec | telnet_proc.c:123-146 | an index out of range or an empty slot changes nothing; otherwise only that slot is emptied |
| TelnetSlots.Reaped | telnet_proc.c:154-168 | a slot is emptied exactly when its client has been idle for 600 seconds or more; otherwise it is kept as it was |
| TelnetSlots.ReapFirst | telnet_proc.c:154-168 | after the sweep has visited `n` slots, those are `Reaped` and the rest are as they were |
| TelnetSlots.ReapSpec | telnet_proc.c:150-171 | every slot is `Reaped`; the other fields are unchanged |
| TelnetSlots.AddKeepsInvariants | telnet_proc.c:85-119 | adding keeps the server invariant and the descriptor bound, keeps descriptors distinct when the new one is not open, and never lowers `max_fd` |
| TelnetSlots.RemoveUndoesAdd | telnet_proc.c:85-146 | removing the client just added restores the table; only `max_fd` stays raised |
| TelnetSlots.RemoveKeepsInvariants | telnet_proc.c:123-146 | removal keeps both invariants and distinct descriptors, and is idempotent |
| TelnetSlots.ReapProperties | telnet_proc.c:150-171 | no idle client is left, every other client is kept unchanged, both invariants and distinct descriptors hold, and a second sweep changes nothing |
| TelnetSlots.AcceptSpec | telnet_proc.c:34-81 | accepting on the view; `AcceptProperties` and `AcceptAdds` state its promises and `HandleNewConnection` is proved against it |
| TelnetSlots.AcceptAdds | telnet_proc.c:57-80 | when the table has room, the addition succeeds in the lowest empty slot, and accepting is that addition followed by the greeting |
| TelnetSlots.AcceptProperties | telnet_proc.c:34-81 | a refused connection (failed accept, failed fcntl or full table) changes nothing; an accepted one is a new client in the lowest empty slot, sent the banner and the prompt; both invariants are kept, and descriptors stay distinct when `accept` returned one that is not open (`FreshAccept`) |
| TelnetSlots.AddClient | telnet_proc.c:85-119 | the new view and the status are `AddSpec`; every object that joins the footprint is fresh |
| TelnetSlots.AddAt | telnet_proc.c:92-116 | the free slot gets the new client, no other slot changes, and `max_fd` is raised over its descriptor |
| TelnetSlots.RemoveClient | telnet_proc.c:123-146 | the new view is `RemoveSpec`; the slot is null afterwards and no other slot changes |
| TelnetSlots.ReapSlot | telnet_proc.c:154-168 | a timed-out client is sent the timeout notice and its slot emptied; any other client is left untouched |
| TelnetSlots.CleanupClients | telnet_proc.c:150-171 | the new view is `ReapSpec` |
| TelnetSlots.HandleNewConnection | telnet_proc.c:34-81 | the new view is `AcceptSpec` |
| TelnetSlots.Admit | telnet_proc.c:65-80 | adding the client to the free slot and greeting it gives `AcceptSpec` |
| TelnetRecv.EditByte | telnet_recv.c:230-283 | the editor's reaction to one content byte; `Backspace`, `PrintableByte`, `LineEnd`, `OtherBytesIgnored` and `EditByteKeepsClientOk` state it case by case |
| TelnetRecv.Edit | telnet_recv.c:222-284 | the editor over a read, stopping at a line end that found `closed` set; `EditKeepsClientOk`, `EditAppend`, `QuitSkipsRest` and `TypeText` state its promises |
| TelnetRecv.Content | telnet_recv.c:222-228 | the content loop gated by the filter state after the whole read; `UnfinishedSequenceDropsRead` and `PrintableOptionByteIsTyped` state its promises |
| TelnetRecv.Receive | telnet_recv.c:182-285 | one read on one client; `ReceiveKeepsClientOk`, `CommandLine` and `ReadFailureFreesSlot` state its promises |
| TelnetRecv.ReceiveAt | telnet_recv.c:182-285 | only the slot read changes, and no field outside the slot table; an empty slot is left alone; an occupied slot is freed exactly when `Receive` releases it, and otherwise holds the client `Receive` leaves |
| TelnetRecv.ReadFailureFreesSlot | telnet_recv.c:196-213 | a failed read, or one that reports the peer closed the connection, frees the slot |
| TelnetRecv.QuitLineFreesSlot | telnet_recv.c:248-273 | a command line ended by CR LF frees the slot exactly when the command is quit or exit, in any letter case |
| TelnetRecv.Backspace | telnet_recv.c:233-245 | BS or DEL on a non-empty line drops its last byte and echoes `\b \b`; on an empty line it does nothing |
| TelnetRecv.PrintableByte | telnet_recv.c:278-283 | a printable byte is stored and echoed while the line is shorter than 1023 bytes, and dropped otherwise |
| TelnetRecv.LineEnd | telnet_recv.c:248-275 | CR or LF on a non-empty line echoes CRLF, sends the dispatcher's reply and empties the line; on an empty line it sends the prompt |
| TelnetRecv.OtherBytesIgnored | telnet_recv.c:230-283 | every other byte, including the Telnet command codes, is ignored |
| TelnetRecv.EditByteKeepsClientOk | telnet_recv.c:230-283 | one editor step keeps the line within the buffer and printable, and sets `closed` only at a line end |
| TelnetRecv.EditKeepsClientOk | telnet_recv.c:222-284 | the editor keeps the client invariant unless it releases the slot, changes neither the filter state nor the activity time, and only appends to the transcript |
| TelnetRecv.ReceiveKeepsClientOk | telnet_recv.c:182-285 | a read keeps the client invariant unless the slot is released, and the transcript only grows |
| TelnetRecv.UnfinishedSequenceDropsRead | telnet_recv.c:216-228 | a read that ends inside a command sequence changes only the activity time and the filter state |
| TelnetRecv.TypeText | telnet_recv.c:278-283 | printable text that fits is stored and echoed byte for byte |
| TelnetRecv.CommandLine | telnet_recv.c:222-284 | a command typed and ended by CR LF is echoed, then CRLF and the reply are sent, then the prompt unless the command closed the connection |
| TelnetRecv.EndLine | telnet_recv.c:248-275 | CR LF after a non-empty line sends the reply, then the prompt unless the command closed the connection |
| TelnetRecv.EditAppend | telnet_recv.c:222-284 | editing `a + b` edits `a`, then `b` unless `a` released the slot |
| TelnetRecv.QuitSkipsRest | telnet_recv.c:270-273 | once a line end has released the slot, the rest of the read is not processed |
| TelnetRecv.PrintableOptionByteIsTyped | telnet_recv.c:219-228 | `IAC DO 34` arriving in one read leaves `"` in the line and echoes it |
| TelnetRecv.CommandProcOn | telnet_recv.c:252-258 | the dispatcher's reply to the buffered line is appended to the transcript, and `closed` is set when the dispatcher asks for it |
| TelnetRecv.EraseStep | telnet_recv.c:233-245 | BS or DEL changes the client as `EditByte` says |
| TelnetRecv.LineEndStep | telnet_recv.c:248-269 | CR or LF changes the client as `EditByte` says |
| TelnetRecv.TypeStep | telnet_recv.c:278-283 | any other byte changes the client as `EditByte` says |
| TelnetRecv.EditStep | telnet_recv.c:230-283 | one content byte changes the client as `EditByte` says, and the client stays valid |
| TelnetRecv.EditRead | telnet_recv.c:222-284 | the new client and the release flag are `Content` of the old client |
| TelnetRecv.ReceiveBytes | telnet_recv.c:216-283 | a non-empty read changes only the client in that slot, as `Receive` says, and returns whether the slot must be released |
| TelnetRecv.RecvDataProc | telnet_recv.c:182-285 | the new view is `ReceiveAt` |
| TelnetServer.InitialServerProperties | telnet_server.c:21-49 | a new server satisfies both invariants, is running, holds no client, and allocates slot 0 first |
| TelnetServer.ListenSpec | telnet_server.c:58-108 | the listening set-up on the view; `ListenProperties` states its promises and `Listen` is proved against it |
| TelnetServer.ListenProperties | telnet_server.c:58-108 | set-up succeeds exactly when every step does; the socket number is stored either way; on success a new server satisfies both invariants and has distinct descriptors |
| TelnetServer.Listen | telnet_server.c:58-108 | the new view and the status are `ListenSpec` |
| TelnetServer.OccupiedFds | telnet_server.c:124-137 | exactly the descriptors of the occupied slots |
| TelnetServer.RaiseOver | telnet_server.c:124-137 | `max_fd` after the read-set loop has visited the first `n` slots; `RaiseOverProperties` states its promises |
| TelnetServer.RaiseOverProperties | telnet_server.c:124-137 | after the read-set loop, `max_fd` is the largest of its old value and the clients' descriptors; it never decreases and is unchanged when it already covered them |
| TelnetServer.BuildReadSet | telnet_server.c:118-137 | the read set is the listening socket plus every client's descriptor, and `max_fd` is raised over them |
| TelnetServer.ReadySet | telnet_server.c:144-165 | the descriptors that test ready are the watched ones `select` reported; after an interrupted `select`, all watched ones |
| TelnetServer.Visit | telnet_server.c:161-169 | one iteration of the receive loop, the slot kept in shape; `ReceiveAtKeepsInvariants` states its promises |
| TelnetServer.RecvPass | telnet_server.c:159-170 | the receive loop over the first `n` slots, in order; `RecvPassKeepsInvariants` and `RecvPassKeepsCover` state its promises and `RecvLoop` is proved against it |
| TelnetServer.TickSpec | telnet_server.c:111-174 | one pass of the main loop on the view; `TickKeepsInvariants` states its promises and `Tick` is proved against it |
| TelnetServer.ReceiveAtKeepsInvariants | telnet_recv.c:182-285 | reading one slot keeps both invariants, distinct descriptors, the listening socket, `max_fd` and the running flag |
| TelnetServer.RecvPassKeepsInvariants | telnet_server.c:159-170 | the receive loop keeps both invariants, distinct descriptors and the fields outside the slot table |
| TelnetServer.RecvPassKeepsCover | telnet_server.c:159-170 | the receive loop never brings in a descriptor above `max_fd` |
| TelnetServer.RecvPassSkipsUnready | telnet_server.c:163-168 | a slot whose descriptor does not test ready is left as it was by the receive loop |
| TelnetServer.AcceptKeepsCover | telnet_server.c:153-156 | accepting keeps both invariants and `max_fd` above every client descriptor, and keeps descriptors distinct when `accept` returned one that is not open |
| TelnetServer.RecvReapKeepsInvariants | telnet_server.c:159-173 | the receive loop and the sweep keep both invariants, distinct descriptors and `max_fd`, and leave no client idle for 600 seconds |
| TelnetServer.TickKeepsInvariants | telnet_server.c:111-174 | one pass keeps the invariant, never lowers `max_fd`, keeps the listening socket and the running flag, and leaves every client descriptor at or below `max_fd`; unless `select` failed hard, no client idle for 600 seconds remains |
| TelnetServer.TickKeepsDistinctFds | telnet_server.c:111-174 | when `accept` fails or returns a descriptor that is not open, a pass keeps the client descriptors and the listening one pairwise distinct |
| TelnetServer.AcceptedNotReadInSamePass | telnet_server.c:118-170 | a connection accepted in a pass is not read in that pass, because its descriptor was not in the read set; it ends the pass as the new client holding the banner and the prompt |
| TelnetServer.RecvLoop | telnet_server.c:159-170 | the new view is `RecvPass` over all five slots |
| TelnetServer.Tick | telnet_server.c:111-174 | the new view is `TickSpec`; every object that joins the footprint is fresh |
| TelnetServer.RunSpec | telnet_server.c:111-174 | the main loop over a sequence of passes, stopping when the server is stopped; `RunKeepsInvariants` and `StoppedServerIgnoresTicks` state its promises and `Serve` is proved against it |
| TelnetServer.RunKeepsInvariants | telnet_server.c:111-174 | serving any sequence of passes keeps both invariants, the running flag and the listening socket, and keeps descriptors distinct when every `accept` of the run returns one that is not open (`FreshAccepts`) |
| TelnetServer.Serve | telnet_server.c:111-174 | the new view is `RunSpec` over the given passes |
| TelnetServer.Stop | telnet_server.c:180-183 | only the running flag changes, to false |
| TelnetServer.StoppedServerIgnoresTicks | telnet_server.c:111 | a stopped server's loop does nothing |
| TelnetServer.Emptied | telnet_server.c:192-200 | every slot is empty, and nothing else changes |
| TelnetServer.Destroy | telnet_server.c:186-209 | a null server is ignored; otherwise every slot is emptied |

## Left out

- Sockets, `close`, `free`, `malloc` and `printf`/`perror` are not modelled. Their results are inputs, or they become dropping a slot. A failed `malloc` in `telnet_server_init` or `telnets_add_client` is not modelled.
- `set_tcp_nonblocking` and the `setsockopt`/`bind`/`listen` steps: only whether they succeed is an input.
- The unused fields are left out: `read_fds`, `authenticated` and `username`.
- The result of `send` is ignored by the program and not modelled: a short or failed write on a non-blocking socket loses bytes that the transcript `sent` still holds.
- TelnetSlots.AcceptSpec: takes any descriptor `accept` returns, even one already open. Distinct descriptors are proved only under `FreshAccept`, which is what `accept` guarantees.
- The descriptor limit of `fd_set` (`FD_SETSIZE`) is not modelled.
- The clock: one reading per pass of the main loop serves the whole pass. `strftime` output is an opaque parameter.
- `main.c` (argument parsing and signal set-up) is not part of this model.
- The undefined behaviour of `sscanf` into uninitialised or too-small buffers is fixed by assumption:
  - an unassigned `cmd` or `arg` reads as empty;
  - an overlong command token is taken whole.
- `isprint` on `char` values 128..255 (negative) is taken to be false.
- `recv` is allowed to return any number of bytes; the program's own cap of 1023 per call is not imposed.
- TelnetRecv.EditRead: does not model the `memset` that clears the buffer after a dispatch. Only `buffer[..buffer_len]` is observable.
- TelnetTypes.Server.Clear: the transcript of a removed client is no longer part of the server's view.
- TelnetSlots.CleanupClients: does not itself state the timeout notice sent to each idle client. `TelnetSlots.ReapSlot`, which it runs on every occupied slot, does.
- TelnetServer.Destroy: does not model closing the listening socket or freeing the server.
