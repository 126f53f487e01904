# pyrite-go server core in Dafny

pyrite-go is a small request/response protocol over UDP. A `Server` keeps a
table of sessions keyed by a random 16-character identifier. Each session holds
the peer's address, its creation time, a sequence counter and the pending
response slots of outstanding `Promise` calls. A router maps application
identifiers to handlers. Every incoming datagram is decoded and may open a
session. An acknowledgment (`"prt-ack"`) is handed to the pending slot it
names. Any other message goes to its handler, and a non-empty handler result is
sent back as an acknowledgment that echoes the request's sequence number.
`Tell` sends without waiting. `Promise` sends and waits for the
acknowledgment. A garbage collector evicts sessions that were created
`maxLifeTime` or more ago.

This project models that server without its socket, goroutines, locks and
clock:

- `protocol.dfy` (module `Protocol`) holds the package, the codec as a value,
  the reserved `"prt-"` namespace with the `strings.Index(id, "prt-") == 0`
  test, and the reply the dispatcher builds.
- `session_table.dfy` (module `SessionTable`) holds the session record and the
  table updates as functions: fresh-identifier choice, counter advance, slot
  registration, acknowledgment resolution and the age sweep.
- `server.dfy` (module `Pyrite`) holds the class `Server` with the fields
  `router`, `cdata`, and two logs. `sent` stands for `WriteToUDP`. `delivered`
  stands for the channel hand-off to a waiting `Promise`. The methods update
  these fields in place, as the Go methods do, and keep the invariant `Valid()`.
- `findings.dfy` (module `Findings`) holds the sequence/key mismatch of
  `Promise` (see Findings).
- `scenarios.dfy` (module `Scenarios`) holds two whole-server runs built from
  the class's contracts.

On these points the model follows `server.go` as written:
- An unknown session identifier is not dropped. The code dereferences a
  missing `cdata` entry and panics, so the model puts a `requires` exactly
  where the code dereferences.
- Eviction does not release pending waits. The sweep only deletes the entry.
- `LastAccept` is set when a session is created and never refreshed, so the
  sweep evicts by age since creation, even a session that is still active.
- The sweep takes no lock.
- `Promise` registers its slot under the counter value after the increment.

## Model

| member | source | states |
|---|---|---|
| Pyrite.Server.constructor | server.go:37-48 | `NewServer`: session length 16, the given lifetime and timeout, no handlers, no sessions, nothing sent or delivered; the invariant holds |
| Pyrite.Server.AddRouter | server.go:50-57 | returns false and leaves the router unchanged exactly when the identifier starts with `"prt-"`; otherwise installs or overwrites only that identifier's handler; no reserved identifier ever has a handler |
| Protocol.Index | server.go:51 | the search behind the `== 0` test of Go's `strings.Index`: -1 exactly when `sub` occurs nowhere; otherwise an occurrence with no earlier one |
| Protocol.IndexZeroIffPrefix | server.go:51 | `Index(s, sub) == 0` holds exactly when `sub` is a prefix of `s` |
| Protocol.ReservedIffControlPrefix | server.go:51 | the router's reservation test holds exactly for identifiers beginning with `"prt-"` |
| Protocol.AckIsReserved | server.go:51-53 | `"prt-ack"` is reserved, so it can never be registered as an application identifier |
| Pyrite.Server.GenerateSession | server.go:59-71 | returns the first draw that is not a live session identifier; every earlier draw was one |
| SessionTable.FirstFreshIndex | server.go:61-69 | the position where the retry loop stops: a draw not in the table, with every earlier draw in it |
| Pyrite.Server.GetSequence | server.go:73-78 | returns the session's previous counter, advances that counter by exactly one, changes nothing else |
| SessionTable.Advance | server.go:76 | only the named session's counter changes, by +1; its other fields and all other sessions are unchanged |
| Pyrite.Server.Tell | server.go:80-93 | on overflow returns `ContentOverflowed` and sends nothing; otherwise sends the package with sequence -1 to the session's address and returns success |
| Pyrite.Server.Promise | server.go:98-116 | counter advances in both cases; on overflow returns `ContentOverflowed`, sends nothing, registers nothing; otherwise sends the request with the pre-increment sequence and registers one new pending key, the post-increment value, not pending before |
| SessionTable.Register | server.go:115 | the named session gains exactly the one pending key; nothing else changes |
| Pyrite.Server.ProcessAck | server.go:133-147 | without a pending slot for the acknowledgment's sequence, nothing changes; with one, the response is delivered to it and exactly that slot is removed |
| SessionTable.Resolve | server.go:136-145 | removes the acknowledgment's sequence from its session's pending keys and changes nothing else; with no such slot the table is unchanged |
| SessionTable.Deliveries | server.go:136-143 | at most one delivery, made exactly when the named slot is pending, and it goes to that slot with the response |
| SessionTable.ResolveAtMostOnce | server.go:138-145 | a second resolution of the same acknowledgment delivers nothing and changes nothing |
| SessionTable.ResolvePreservesInvariant | server.go:133-147 | resolving keeps every session's counter non-negative and its pending keys within 1..counter |
| Pyrite.Server.Process | server.go:149-191 | a datagram that fails to decode changes nothing and sends nothing; an empty session id creates exactly one new session with a previously unused id, the sender's address, `LastAccept = now`, counter 0 and no pending slots, leaving existing sessions unchanged; an acknowledgment is resolved and nothing is sent; otherwise at most one datagram is sent: the reply, to the session's stored address |
| SessionTable.NewClient | server.go:159-164 | a new session record: the sender's address, created now, counter 0, nothing pending |
| Pyrite.ActiveSession | server.go:155-157 | the session a message is handled on: the one it names, or a new identifier not yet in the table |
| Protocol.Reply | server.go:168-190 | a reply exists exactly when the identifier is not `"prt-ack"`, has a handler, and the handler's body is non-empty; it carries the active session, `"prt-ack"`, the original sequence number and the handler's body |
| Pyrite.Server.GCSweep | server.go:218-223 | after one sweep the table is exactly the sessions created less than `maxLifeTime` ago (`now - LastAccept < maxLifeTime`), each unchanged |
| SessionTable.Survivors | server.go:219-223 | a session survives exactly when it was created less than `maxLifeTime` ago, and survivors are unchanged |
| SessionTable.SweepIdempotent | server.go:219-223 | a second sweep at the same instant evicts nothing more |
| SessionTable.SweepMonotone | server.go:219-223 | a later sweep keeps a subset of what an earlier sweep kept, and sweeping at `now` then at a later time equals sweeping at the later time |
| Findings.AsWrittenOwnAckMissesSlot | server.go:104-136 | as written, the acknowledgment of a `Promise` request leaves that call's own slot pending and delivers nothing to it |
| Findings.AsWrittenFirstPromiseNeverResolved | server.go:104-136 | as written, on a new session the first `Promise` waits on key 1, and its acknowledgment with sequence 0 is dropped entirely |
| Findings.AckOf | server.go:184-189 | the acknowledgment a peer returns echoes the session and the request's sequence number under `"prt-ack"` |
| Findings.ReplyIsAckOf | server.go:184-189 | the reply `process` builds is exactly `AckOf` the request's session and sequence number with the handler's body |
| Findings.AsWrittenAckReachesEarlierSlot | server.go:104-145 | as written, with two `Promise` calls outstanding (keys n+1 and n+2), the second request's acknowledgment is delivered to key n+1, the first call's slot, and key n+2 stays pending |
| Findings.IntendedPromise | server.go:104-115 | corrected registration under the number sent: the key was not pending before, and pending keys stay below the counter |
| Findings.IntendedOwnAckResolvesSlot | server.go:104-145 | with the corrected registration, the request's acknowledgment is delivered to exactly the call's own slot, once, and leaves the table as before apart from the advanced counter |
| Scenarios.PingPong | server.go:149-190 | a session-opening `"ping"` with a `"pong"` handler yields one acknowledgment to the sender on the new session, with the original sequence and body `"pong"` |
| Scenarios.TwoPromises | server.go:98-116 | two `Promise` calls on one session send sequences 0 and 1 in issue order and, as written, wait on keys 1 and 2 |

## Findings

| source | as written | input that shows it | evidently intended | confidence | as-written member | corrected member |
|---|---|---|---|---|---|---|
| server.go:104-136 | `Promise` sends sequence `n`, which `getSequence` returns before the increment. It registers the pending slot under `cdata[session].Sequence`, which is `n + 1`. The peer's acknowledgment echoes `n`, and `processAck` looks up key `n`. | A new session. The first `Promise` sends sequence 0 and waits on key 1. The acknowledgment with sequence 0 finds no slot and is dropped, so the call times out. | The slot is keyed by the sequence number the request carries, so the request's own acknowledgment resolves it. | high (not executed) | Findings.AsWrittenOwnAckMissesSlot | Findings.IntendedOwnAckResolvesSlot |

With two calls outstanding the mismatch is worse than a timeout:
`Findings.AsWrittenAckReachesEarlierSlot` shows that the first call's slot
receives the second call's response.

The class `Pyrite.Server` keeps the code's behaviour. The corrected
registration is `Findings.IntendedPromise`, and its property is proved in
`Findings.IntendedOwnAckResolvesSlot`.

## Left out

- Pyrite.Server.Promise: models only the part before the call blocks. It returns `Ok(key)` for the pending key the call then waits on, not the response body or `ErrTimeout`. The timer goroutine, the channel receive and the timeout race (server.go:117-130) are concurrency. The goroutine's second read of `Sequence` (server.go:121) is left out with them.
- Pyrite.Server.ProcessAck: the channel send and `close` are modelled as one entry appended to `delivered`. In Go, after `Promise` times out, the goroutine started at server.go:119-123 is still receiving on the slot, so a late send completes; that goroutine then blocks forever on `ch <- true` (server.go:122) and leaks. The send itself hangs only when no goroutine receives on that slot, for example when server.go:121 read a different `Sequence`. The model does not capture goroutines, so neither effect appears.
- Pyrite.Server.GenerateSession: models only terminating runs. The random source (`utils.RandomString`, which is not part of this model) is the sequence `draws` of tokens it would produce. The method requires some draw to be fresh, and `Process` requires each draw to be `sessionLen` characters long.
- Pyrite.Server.GCSweep: models one pass of the sweep. The endless loop, `time.Now()` and the `time.Sleep` between passes are left out (server.go:216-229), and `now` is a parameter. Go visits map entries in random order; the model picks any remaining key (`:|`), which covers every order.
- Pyrite.Server.Process: `time.Now()` is the parameter `now`, and the random source is the parameter `draws`. The goroutine per datagram is left out. A message that makes the code dereference a missing session is excluded by `requires`. That is an acknowledgment whose session is not in the table, including an empty one, or a reply on a named session that is not in the table. The code panics on these inputs.
- Pyrite.Server.Tell: the nil dereference of an unknown session on the send path (server.go:91) is a `requires`. It applies only when the message fits, as in the code.
- `Start` (server.go:193-214): the UDP socket bind, the receive loop and the panic on a read error are network I/O.
- `cdataMutex`: the model has no concurrency, so each method runs atomically. The model cannot show races between `processAck`, the sweep (which takes no lock) and session creation.
- `PrtPackage.ToBytes`, `CastToPrtPackage` and `MAX_TRANSMIT_SIZE` are defined in files that are not part of this model. They are the fields of a `Codec` value given to the constructor. `NewServer` takes no codec in the code.
- `ErrTimeout` and `Timer` belong to the blocking half of `Promise`, which is left out, so `Protocol.Error` has only `ContentOverflowed`.
- Protocol.Index: Dafny strings are sequences of characters, so `Index` counts characters where Go's `strings.Index` counts bytes; on non-ASCII input the two positions differ. The only use, the `== 0` test against the ASCII prefix `"prt-"` (server.go:51), gives the same answer in both.
- Handlers are opaque total functions from package to string. Their side effects and panics are not modelled.
- Integer widths: `LastAccept` and `maxLifeTime` are `int64` microseconds and `Sequence` is a Go `int`. The model uses unbounded integers, so wrap-around of `now - LastAccept` or of the counter is not modelled.
- `*ClientData` is a pointer in Go. The model stores the record as a value in the map. No pointer escapes the server, so no aliasing is lost.
- The listener and port are stored or left out. The model records each written datagram in `sent` as the address and the package whose encoding was written.
