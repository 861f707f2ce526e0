# TCP tunnel relay core, modelled in Dafny

The system is a two-node TCP tunnel. Node A accepts clients on two local
ports, 8855 (plain class) and 8854 (secure class), and relays their bytes over
one long-lived link to node B. Node B reads that link, classifies each new
frame by whether it starts with `GET`, dials `localhost:8855` or
`localhost:8854`, and forwards the frame to that backend. The only control
signal is the reserved value `connection-reset`. It counts only when it is
the entire content of one read. On seeing it, B drops its current backend.

This project models the logic inside that plumbing. The network is replaced
by sequences of outcomes: a read gives `Chunk(bytes)`, `Eof`, `Timeout` or
`Err`; a write or a `SetReadDeadline` gives `Ok` or `Failed`; a dial gives
`Connected`, `DialFailed` or `FirstWriteFailed`. Each loop of the source
becomes a `method` with a `while` loop. Each such method is proved equal to a
recursive specification function, and the properties the program promises are
lemmas about those functions.

Modules:

- `Wire` (`wire.dfy`): bytes, the 4096-byte read size (`BufferSize`) and
  the `Payload` of one read, the sentinel, the outcome types,
  `bytes.HasPrefix` and `strings.Contains`.
- `Router` (`router.dfy`): B's `Engine` route table, a class whose `handle`
  map is updated in place.
- `LinkListener` (`link_listener.dfy`): B's outer loop over the link.
- `Forwarder` (`forwarder.dfy`): B's link-to-backend goroutine.
- `SessionRelay` (`session_relay.dfy`): A's `handleConn`.
- `Ingress` (`ingress.dfy`): A's two accept loops.

Facts about the code that the model keeps as they are:

- The sentinel is the 16 bytes of `connection-reset`.
- B's link-to-backend goroutine arms its 100 ms deadline on the backend
  connection (b_linux/main.go:108). It then reads the link (line 113).
  No deadline is ever set on B's link, so a link read on B never times out.
  The forwarder's outcome type still admits `Timeout`; it is an input B
  never receives, and the loop would treat it as any other read error.
- A's outbound copy writes the sentinel after a reset error on both ports,
  not only on the secure one (a_linux/main.go:71-77 is shared by both loops).
- A failed accept on port 8854 does not end only that loop. See "Findings".

## Model

| member | source | states |
|---|---|---|
| `Wire.SentinelLength` | b_linux/main.go:80 | the sentinel compared against is 16 bytes long |
| `Wire.HasPrefix` | b_linux/main.go:85 | `bytes.HasPrefix` holds exactly when the prefix is no longer than the buffer and agrees with it byte by byte |
| `Wire.Contains` | a_linux/main.go:74 | the substring test is true exactly when the text occurs at some index of the string |
| `Router.Engine.constructor` | b_linux/main.go:20-25 | a new engine has an empty route table, so every path is unrouted |
| `Router.Engine.Api` | b_linux/main.go:28-39 | an empty pattern fails and leaves the table unchanged; an existing pattern fails and keeps the old handler; a new non-empty pattern adds exactly that entry; afterwards dispatch on it runs the new handler and dispatch on every other path is unchanged |
| `Router.Engine.ServeHTTP` | b_linux/main.go:42-50 | dispatch fails exactly when the path is unregistered, and otherwise runs the handler registered for that path |
| `Router.RootEngine` | b_linux/main.go:137-138 | the backend set-up yields a fresh engine that routes "/" to its handler and no other path |
| `LinkListener.ReadBuffer` | b_linux/main.go:71-72 | the buffer after a read is 4096 bytes long, starts with the bytes read, and is zero after them |
| `LinkListener.Route` | b_linux/main.go:84-89 | the address is one of the two backends, and it is localhost:8855 exactly when the buffer starts with "GET" |
| `LinkListener.RouteIgnoresZeroFill` | b_linux/main.go:71-89 | testing the whole freshly zeroed 4096-byte buffer for "GET" gives the same answer as testing `buf[:n]` |
| `LinkListener.RouteByPrefix` | b_linux/main.go:84-89 | a chunk starting with the bytes G, E, T selects localhost:8855; every other chunk selects localhost:8854, including any chunk shorter than 3 bytes |
| `LinkListener.Decide` | b_linux/main.go:72-101 | end of file stops; any other read error retries; a read that is exactly the sentinel is skipped with no dial; any other chunk, including one that contains the sentinel among other bytes, is classified; it is dropped if the dial or first write fails, and otherwise its bytes are the first write, verbatim |
| `LinkListener.Pass` | b_linux/main.go:72-101 | one pass of the loop, with the source's own branches, takes exactly the decision `Decide` gives for that read and dial outcome |
| `LinkListener.Dispatch` | b_linux/main.go:70-132 | the loop takes at most one decision per read |
| `LinkListener.ServeLink` | b_linux/main.go:70-132 | the loop's decisions are exactly `Dispatch` of the same reads and dial outcomes |
| `LinkListener.DispatchPositional` | b_linux/main.go:70-101 | the i-th decision is the decision for the i-th read; only the last decision can be Stop; the loop ends before the reads run out only by stopping |
| `LinkListener.EofIsFinal` | b_linux/main.go:72-78 | each read before the first end of file gets its own decision, and none of them is Stop; the end of file adds Stop; nothing read afterwards has any effect |
| `Forwarder.Forward` | b_linux/main.go:107-125 | the goroutine writes at most one chunk to the backend per pass |
| `Forwarder.ForwardToBackend` | b_linux/main.go:104-127 | the goroutine's writes to the backend and its exit reason are exactly `Forward` of the same polls; it closes the backend itself when its loop ends, on every exit except a failed deadline, and not while the outcomes run out mid-loop |
| `Forwarder.ForwardInOrder` | b_linux/main.go:107-125 | the i-th chunk written to the backend is the chunk of the i-th link read; the sentinel is never written; the goroutine stops at the first pass with a deadline error, read error, sentinel or backend write error, for that pass's reason |
| `Forwarder.ForwardFrame` | b_linux/main.go:113-124 | if the passes read the chunks cs, none of them the sentinel, and then a pass stops, the backend receives exactly cs; later link reads are ignored |
| `Forwarder.SentinelEndsFrame` | b_linux/main.go:117-126 | a read that is exactly the sentinel ends the frame with the backend closed, after exactly the earlier chunks were forwarded |
| `SessionRelay.OutboundTail` | a_linux/main.go:68-78 | after the copy, the outbound goroutine writes the sentinel exactly once if the copy failed with text containing "splice: connection reset by peer"; it writes nothing after other errors or a clean copy |
| `SessionRelay.Inbound` | a_linux/main.go:84-98 | the inbound loop writes at most one chunk to the client per pass |
| `SessionRelay.RelayInbound` | a_linux/main.go:80-99 | the inbound loop's writes to the client and its exit reason are exactly `Inbound` of the same polls |
| `SessionRelay.InboundInOrder` | a_linux/main.go:84-98 | the i-th write to the client is `buf[:n]` of the i-th link read; the loop stops at the first deadline-set error, read error or client write error |
| `SessionRelay.InboundStopsAtFailure` | a_linux/main.go:85-97 | after reading the chunks cs, a failing pass ends the session; the client then holds exactly cs, the sentinel included as data, and nothing is written after the failure |
| `SessionRelay.TimeoutEndsSession` | a_linux/main.go:85-92 | a deadline expiry on the link ends the session just as any other read error does |
| `Ingress.AcceptedConn` | a_linux/main.go:32 | `Accept` returns a nil connection exactly when it fails, and the accepted client's connection otherwise |
| `Ingress.Close` | a_linux/main.go:54 | closing a connection is a nil-dereference panic exactly when the connection is nil |
| `Ingress.ErrorBranch` | a_linux/main.go:33-55 | the error branch always leaves the loop; it panics only by closing a nil connection, and only in the 8854 loop |
| `Ingress.LeaveLoop` | a_linux/main.go:52-55 | the error branch's statements, close then return on 8854 as written and return alone otherwise, leave the loop exactly as `ErrorBranch` says |
| `Ingress.LoopExit` | a_linux/main.go:30-62 | a loop is still accepting exactly when no accept failed; as written it panics exactly when an 8854 accept failed; it returns exactly when an accept failed and the branch is the intended one or the port is 8855 |
| `Ingress.Greeting` | a_linux/main.go:57-59 | an accepted client ends with its relay; on 8854 that relay comes after exactly one sentinel write, and on 8855 there is no sentinel write |
| `Ingress.Emit` | a_linux/main.go:31-38 | a loop does at most two things per accept, and nothing at all when its first accept fails |
| `Ingress.Clients` | a_linux/main.go:31-37 | the clients are the accepted ones, in accept order, up to the first failed accept |
| `Ingress.SecureGreetsWithSentinel` | a_linux/main.go:50-59 | on port 8854, each accepted client, in accept order, is preceded on the link by exactly one sentinel write |
| `Ingress.PlainHasNoSentinel` | a_linux/main.go:31-38 | on port 8855, clients are relayed in accept order and no sentinel is written |
| `Ingress.AcceptErrorEndsLoop` | a_linux/main.go:32-36 | a failed accept ends the loop; nothing accepted after it is relayed |
| `Ingress.AcceptUntilFailure` | a_linux/main.go:31-60 | the accepting part of a loop does exactly `Emit` of the accepts and stops at the first failed accept, if there is one |
| `Ingress.AcceptLoop` | a_linux/main.go:30-62 | the loop's link writes and relays are exactly `Emit` of the same accepts, and it leaves exactly as `LoopExit` says: as written it panics exactly when an 8854 accept fails; with the intended branch, or on 8855, it returns |
| `Ingress.EmitPrefix` | a_linux/main.go:31-38 | what a loop has done after part of its accepts is a prefix of what it does after all of them |
| `Ingress.RunNodeA` | a_linux/main.go:22-64 | the process crashes exactly when one of the two loops panics; the 8854 loop's events are all of its own |
| `Ingress.SecureAcceptErrorCrashesAsWritten` | a_linux/main.go:51-56 | as written, the process crashes exactly when an 8854 accept fails; the 8855 loop's events are then only a prefix of what it would do alone, and for one 8855 accept and one failed 8854 accept that prefix can be empty instead of the relay |
| `Ingress.AcceptErrorEndsOnlyItsLoop` | a_linux/main.go:33-36 | with the intended error branch the process never crashes, and each loop does everything it would do alone |

## Findings

| source | as written | input that shows it | evidently intended | confidence | as-written member | corrected member |
|---|---|---|---|---|---|---|
| a_linux/main.go:51-56 | after `listen2.Accept()` fails, the loop calls `conn.Close()` on the nil connection that `Accept` returns; that panics, and an unrecovered panic ends the whole process, the 8855 loop with it | port 8854 has one failed accept while port 8855 is still accepting | print the error and return from the 8854 loop only, as the 8855 loop does | high; not executed | `Ingress.AcceptLoop` with `AsWritten`, `Ingress.SecureAcceptErrorCrashesAsWritten` | `Ingress.AcceptLoop` with `Intended`, `Ingress.AcceptErrorEndsOnlyItsLoop` |

## Left out

- Socket dial, listen and accept are not modelled. This covers A's link dial (a_linux/main.go:14-20), A's listeners (24-28, 43-47) and B's single listen and accept (b_linux/main.go:57-69). They are foreign I/O, so only their outcomes appear: accept outcomes on A, and link reads on B.
- The two goroutines of `handleConn`, and B's forwarding goroutine beside `io.Copy`, run concurrently on one shared link. The model runs each loop alone over its own outcome sequence, because the interleaving is unspecified. The `sync.WaitGroup` is left out for the same reason.
- B's forwarding goroutine can outlive its frame. `io.Copy(conn, server)` (b_linux/main.go:130) can end first, on backend end of file or on the backend deadline, while the goroutine is still blocked reading the link (line 113). The outer loop then closes the backend (line 131) and reads the link again (line 72), so two readers wait on it. The goroutine that blocked first takes the next chunk: a sentinel stops it (line 117), and any other chunk goes to the closed backend, whose write fails (line 121), so that chunk is dropped without being classified. The model gives `Dispatch` and `Forward` separate outcome sequences and does not say which of them receives a given chunk.
- `io.Copy` internals are opaque. A's outbound copy is just an outcome, either `Copied` or `CopyFailed(text)`. B's backend-to-link copy (b_linux/main.go:130-131) is the wait that closes a `Relay` decision.
- Wall-clock deadlines (`time.Now().Add(100ms)`) are not modelled. An expired deadline is the read outcome `Timeout`; arming one is the `deadline` outcome of a poll.
- The source's loops never end unless something fails. The model's input is a finite prefix of outcomes, so a loop that reaches the end of its input ends with `Exhausted`.
- The ignored results of the sentinel writes (a_linux/main.go:58, 75) are not modelled. The model records the write as made.
- The goroutine's write to the captured outer `n` (b_linux/main.go:113) is not modelled. Line 72 declares a fresh `n` in every pass, and the pass that starts the goroutine does not read its `n` after line 97.
- The effect of the deadline armed on the backend at b_linux/main.go:108 on `io.Copy(conn, server)` at line 130 is not modelled. That deadline also bounds the copy's backend reads, so each frame ends about 100 ms after the goroutine last re-armed it. The model has no clock, and the backend-to-link copy is opaque.
- The unreachable `wg.Done()` calls (a_linux/main.go:39, 61) are not modelled.
- The HTTP and TLS servers, the certificate files, and the MAC-address handlers with `getMac` (b_linux/main.go:139, 146, 150-173) are not modelled. They are library and OS calls. A handler is an opaque `HandlerId`.
- The panics of `Api` and `ServeHTTP` are returned as explicit results, not as aborts. The server's recovery of handler panics is not part of this model.
