# A verified model of the cando1 tunnel

cando1 carries TCP connections and UDP datagrams between two machines over a few authenticated,
multiplexed sessions. This project models the stateful middle of it in Dafny and proves what that
middle is meant to guarantee, over every input, every cut of a stream into pieces and every
interleaving of its goroutines.

`dafny verify dfyconfig.toml` checks everything.

## What is modelled

| module | what it models |
|---|---|
| `Basics`, `Bytes`, `ByteStreams` | shared definitions, big-endian integers, the wrap-around of int64, readers whose bytes arrive in arbitrary pieces, writers that may fail after any part of a write and keep count of what they were given and how often they failed, `io.ReadFull` |
| `Datagrams` | `writeDatagram`, `readDatagram` and the two relay loops of `bridgeUDP` |
| `StreamHeaders` | `WriteStreamHeader`, `ReadStreamHeader` |
| `UdpFlows`, `UdpRelay`, `UdpDelivery` | the flow table as a class, `serveUDPListener` as an interleaving of its loop, its per-flow readers and the peers, and what it delivers |
| `ReplayWindow` | the timestamp window and the nonce map over whole runs of hellos |
| `Handshake`, `Agreement` | both sides of the mutual handshake, and any number of them over a network that delivers, drops, repeats and invents |
| `SessionSet`, `Balance`, `Pool` | the session set as a class, the load spread that `Pick` and a later `OpenStream` leave, and the client's pool of maintainers |
| `Reconnect` | the loop of `maintainSession` and its backoff |
| `AcceptPath` | `asyncListener`, `Server.Run` and `handleConn` as one state machine with two semaphores |
| `Obfs`, `WebSocket` | the two carriers as transparent byte pipes |
| `Pipe` | `copyOneWay`, and `pipe` as three processes |

Sequential code that changes things step by step is a method with loops over arrays and object
fields, proved against a specification function. Code whose point is concurrency is a state machine:
a datatype of steps, each of them one operation on a lock, a channel, a stream or a socket, with
`Enabled` for the guard of a step and `Apply` for its effect; `Runs` and `After` range over all finite
interleavings.

Where the two views meet, they share one definition: `UdpFlows.Del` and the deleting steps of
`UdpRelay` use `Forget`; `ReadDatagram` and `Deliver` use `ParseFrame`; `ServerAuthenticator.Handshake`
moves its map by `Observe`, the same step that a run of `ReplayWindow` and a server step of
`Agreement` take; `SessionSet.Add` and `Pool` use `NextId`. `UdpRelay.FarEnd`,
`Handshake.HonestExchange` and `Obfs.Connect` run the two ends of a protocol against each other.

## What is assumed

- A smux stream is a first-in first-out byte stream that can be opened and closed.
- HMAC (section 2 of RFC 2104), the key-deriving hash and the XChaCha20 keystream are arbitrary
  functions, given as parameters. `Agreement` alone assumes more: a tag verifies only for an input that
  some honest party has tagged, and nonces are fresh.
- Clock readings and random bytes are parameters. Sockets may fail at any time, which is also how
  deadlines and idle timeouts appear.
- Ranges: server clocks up to 2^63 - 46 seconds (`ReplayWindow.MAX_UNIX`); fewer than 2^64 calls of
  `Add` for the statements about ids. Backoff settings are any int64 durations, negative ones included.

## Where the code and its documentation differ

The model follows the code.

- `internal/protocol/protocol.go:64-65` calls `clockSkew` the maximum accepted difference. Neither the
  subtraction nor the negation at lines 114-117 is guarded against int64 overflow, so exactly one
  timestamp more is admitted: the one 2^63 seconds before the server's clock (`InWindowExact`).
- `internal/protocol/protocol.go:67` and 84-85 promise that a replayed nonce is rejected. The window
  compares whole seconds and the map compares nanoseconds, the clock is read once for each, and the
  second reading is taken before the mutex. `ReplayPossibleExactly` gives the exact condition under
  which two handshakes with one hello can both be accepted, for all such readings: both pass the window,
  and the later one takes the mutex more than 90 s after the earlier one's second reading. So a hello can
  be accepted twice when the clock has fractions of a second (`FractionalClockReplays`; the closed form is
  `OneReadingReplaysExactly`) or when the second reading falls in a later second (`TwoReadingsReplay`).
  It cannot when no handshake gets further into its second before the mutex than others before their
  second reading (`AtMostOnce`, and `SafePairExactly` for both directions), nor with a whole-second clock
  read once (`AtMostOnceInWholeSeconds`).
- The readings of two acceptances of one nonce may be a few nanoseconds apart (`ReadingsMayBeClose`); the
  acceptances themselves are always more than 90 s apart in time (`AcceptancesFarApart`).
- `internal/tunnel/client.go:134-137` says that a flapping session is rate-limited by the backoff.
  Nothing checks the sign of the reconnect settings; only zero is replaced by a default
  (`internal/config/config.go:237-241`). The loop limits its rate exactly when both are positive and
  below 2^62 ns (`RateLimitedExactly`); otherwise some sleep does not wait at all.
- Closing the listener does not close a connection that is, or is about to be, queued
  (`ClosedUnlessQueued`, `QueuedOutlivesClose`).

## Model

| member | source | states |
|---|---|---|
| `ByteStreams.ReadFull` | internal/tunnel/udp.go:53-69 | as `io.ReadFull` is used here: the bytes taken, the bytes left and the error depend only on the bytes of the stream, not on the pieces in which they arrive; the fault itself on an empty stream, `UnexpectedEOF` for an end inside |
| `Bytes.ValueOfBigEndian` | internal/protocol/protocol.go:172-173 | decoding undoes the big-endian encoding of any number that fits the width |
| `Bytes.MostSignificantFirst` | internal/protocol/protocol.go:113-173 | a byte string's first byte weighs 256 to the number of bytes behind it |
| `Bytes.WrapInt64Exactly` | internal/protocol/protocol.go:113-117 | int64 arithmetic gives the one int64 that differs by a multiple of 2^64 |
| `Bytes.Uint16Inverse` | internal/tunnel/udp.go:45-58 | a two-byte prefix reads as `n` if and only if it is the encoding of `n` |
| `Bytes.Uint16IsBigEndian` | internal/tunnel/udp.go:45-58 | the two-byte prefix is the big-endian encoding |
| `Datagrams.ParseFrameExact` | internal/tunnel/udp.go:40-69 | a stream parses as datagram `d` followed by `rest` if and only if it is `d`'s frame followed by `rest`, for all datagrams from empty to 65535 bytes |
| `Datagrams.FrameLayout` | internal/tunnel/udp.go:38-49 | a frame is the length in two big-endian bytes and then the datagram, and every length that two bytes hold is allowed |
| `Datagrams.TornFrame` | internal/tunnel/udp.go:53-69 | no strict prefix of a frame yields a datagram |
| `Datagrams.CutDecodes` | internal/tunnel/udp.go:53-69 | wherever a stream of frames is cut, the datagrams decoded are exactly those whose frames are whole |
| `Datagrams.WholeFramesMaximal` | internal/tunnel/udp.go:40-69 | that number of datagrams is the largest whose frames fit into the cut |
| `Datagrams.DecodeFrames` | internal/tunnel/udp.go:40-69 | decoding the frames of any datagram sequence gives that sequence back |
| `Datagrams.DecodeAfterFrames` | internal/tunnel/udp.go:53-69 | decoding frames followed by any bytes gives the datagrams and then whatever those bytes decode to |
| `Datagrams.WriteDatagram` | internal/tunnel/udp.go:40-49 | a datagram over 65535 bytes is refused with nothing tried; otherwise the frame is given to the stream as one write, and the result is an error exactly if that write fails, with a prefix of the frame out |
| `Datagrams.ReadDatagram` | internal/tunnel/udp.go:53-69 | over any fragmentation: the datagram and the rest of the stream, a length beyond the buffer with only the prefix taken, or a stream error on a torn frame |
| `Datagrams.RelayToStream` | internal/tunnel/udp.go:76-90 | the datagrams read from the socket go out whole and in order until the socket has no more or a write fails; then at most a part of that one, after which nothing else is written |
| `Datagrams.RelayFromStream` | internal/tunnel/udp.go:92-103 | the socket is sent exactly the datagrams the stream decodes to, in order, or a prefix of them exactly if the socket refuses one |
| `Datagrams.RelayDelivers` | internal/tunnel/udp.go:74-107 | end to end: whatever part of the relayed bytes arrives, the peer decodes a prefix of what the socket received, and at least all that was written whole once everything arrives |
| `StreamHeaders.ParseHeaderExact` | internal/protocol/protocol.go:200-231 | a stream parses as a header if and only if it begins with the encoding of that kind and payload, for every payload up to 512 bytes |
| `StreamHeaders.HeaderLayout` | internal/protocol/protocol.go:200-210 | a header is the kind, the length in two big-endian bytes, and the payload |
| `StreamHeaders.TornHeader` | internal/protocol/protocol.go:213-231 | no strict prefix of a header is read as one |
| `StreamHeaders.WriteStreamHeader` | internal/protocol/protocol.go:200-210 | refuses exactly the payloads over 512 bytes, trying nothing; otherwise the header is one write, and the result is an error exactly if that write fails |
| `StreamHeaders.ReadStreamHeader` | internal/protocol/protocol.go:213-231 | takes exactly 3 + n bytes under any fragmentation and leaves the rest untouched; error cases included |
| `UdpFlows.UdpFlows.Get` | internal/tunnel/udp.go:117-121 | the stream of the key, or null if and only if there is none |
| `UdpFlows.UdpFlows.Del` | internal/tunnel/udp.go:129-139 | forgets the key only while it maps to this very stream, and closes the stream in any case |
| `UdpFlows.UdpFlows.CloseAll` | internal/tunnel/udp.go:141-148 | leaves the table empty and every stream that was in it closed |
| `UdpRelay.EveryStreamPlaced` | internal/tunnel/udp.go:154-195 | in every run each opened stream is mapped under its own source, closed, or held by someone about to store or close it; and no mapped stream is closed |
| `UdpRelay.NoStreamLeaks` | internal/tunnel/udp.go:154-195 | once the listener has returned and the readers have finished, every stream ever opened is closed |
| `UdpRelay.PutIsFresh` | internal/tunnel/udp.go:166-173 | put never overwrites a live entry |
| `UdpRelay.StaleDeleteIsHarmless` | internal/tunnel/udp.go:129-139 | in every run a deletion by a reader or the listener takes out exactly the entry of its own stream; a flow re-opened for the same source stays |
| `UdpRelay.TornStreamStaysSilent` | internal/tunnel/udp.go:191-193 | after a failed write the listener never writes to that stream again |
| `UdpRelay.FinishedReaderStaysSilent` | internal/tunnel/udp.go:174-186 | after a failed read the reader never takes another reply off that stream |
| `UdpRelay.ListenerNeverBlocked` | internal/tunnel/udp.go:154-195 | in every run the listener can go on from where it is, successfully or with any failure, so the guards of the model hide no behaviour |
| `UdpRelay.FlowIsolation` | internal/tunnel/udp.go:154-195 | what arrives on a stream is the header that `open` wrote and then, in order of arrival, datagrams from the one source that owns the stream, whole or not at all |
| `UdpRelay.FarEnd` | internal/tunnel/server.go:140-182 | the far end joined on: `ReadStreamHeader` and then the relay loop, over any part of the stream in any pieces, send the target a prefix of the owner's datagrams in order of arrival, and all those written whole if everything arrives and the socket refuses none |
| `UdpRelay.RepliesReachTheOwner` | internal/tunnel/udp.go:174-186 | the replies taken off a stream are a prefix of what its peer framed, and each is written to the source for which the stream was opened |
| `UdpRelay.RepliesComeFromTarget` | internal/tunnel/udp.go:74-186 | with `bridgeUDP` at the far end, the replies written to the source are a prefix of the datagrams that the target's socket gave |
| `UdpDelivery.EveryArrivalAccounted` | internal/tunnel/udp.go:160-194 | in every run each datagram the listener is done with was dropped because `open` gave no stream, or was offered to exactly one flow, one of its source, and never both |
| `UdpDelivery.OffersOfSource` | internal/tunnel/udp.go:160-194 | without a failing `open`, the offers to a source's flows taken together are exactly its arrivals |
| `UdpDelivery.CleanRunDelivers` | internal/tunnel/udp.go:154-195 | after a run without failures each source has one open flow in the table, and its stream carries the header and then every datagram of that source, whole and in order |
| `UdpDelivery.CausesExactly` | internal/tunnel/udp.go:168-193 | a flow was aborted, has a torn write, or a reader that has left, exactly if its opening, a write to it or a read from it failed in the run |
| `UdpDelivery.StopsExactly` | internal/tunnel/udp.go:161-164 | the listener stops exactly if its socket has failed |
| `UdpDelivery.StaysUntilFailure` | internal/tunnel/udp.go:129-195 | until one of these a stream is open, and in the table under its source or about to be put there |
| `UdpDelivery.ComesIn` | internal/tunnel/udp.go:161-184 | the arrivals are the datagrams received, in order, and a stream's incoming bytes are what its peer sent |
| `UdpDelivery.RepliesComplete` | internal/tunnel/udp.go:174-186 | a reader with no whole frame left to read has delivered all that its peer has framed |
| `UdpDelivery.ReaderCanDeliver` | internal/tunnel/udp.go:174-186 | in every run a reader that has met no error can deliver all that its peer has framed so far |
| `UdpDelivery.PeerIsHeard` | internal/tunnel/udp.go:174-186 | and whatever the peer sends then |
| `UdpDelivery.CloseAllHoldsTable` | internal/tunnel/udp.go:141-148 | while `closeAll` holds the mutex no reader takes anything out of the table |
| `UdpDelivery.ClosesDown` | internal/tunnel/udp.go:154-195 | every run can be brought to an end in which listener and readers have returned and every stream is closed |
| `ReplayWindow.InWindowExact` | internal/protocol/protocol.go:112-120 | the int64 check admits a timestamp if and only if it is within 45 s of the clock or is exactly 2^63 s before it |
| `ReplayWindow.LiveIsSeen` | internal/protocol/protocol.go:148-163 | an accepted nonce stays in the map, with its expiry, until a later acceptance finds it expired |
| `ReplayWindow.SeenIsTheLog` | internal/protocol/protocol.go:148-163 | a nonce is in the map if and only if it was accepted and no later acceptance found it expired, for any order of clock readings |
| `ReplayWindow.SeenIsUnexpired` | internal/protocol/protocol.go:148-163 | under a monotone clock, right after an acceptance the map holds exactly the nonces accepted at most 90 s before |
| `ReplayWindow.UnexpiredIsSeen` | internal/protocol/protocol.go:148-163 | between acceptances it holds at least all of those |
| `ReplayWindow.AcceptedAgainExactly` | internal/protocol/protocol.go:148-163 | a repeated nonce is accepted if and only if some acceptance in between found the first expired |
| `ReplayWindow.AcceptancesFarApart` | internal/protocol/protocol.go:148-163 | two acceptances of one nonce lie more than 90 s apart |
| `ReplayWindow.ReadingsMayBeClose` | internal/protocol/protocol.go:148-163 | their readings of the clock need not: a run in which they are 5 ns apart, since the clock is read before the mutex is taken |
| `ReplayWindow.ReplayPossibleExactly` | internal/protocol/protocol.go:112-163 | two handshakes with the same authentic hello, each with its two clock readings and the time of its mutex, are both accepted in some run if and only if both first readings are in the window and the later mutex is more than 90 s after the earlier second reading |
| `ReplayWindow.SafePairExactly` | internal/protocol/protocol.go:112-163 | the same for all timestamps at once: a pair of handshakes can repeat no hello if and only if their seconds are more than 90 apart, or the later one's lag into its second does not make up for the earlier one's lead |
| `ReplayWindow.AtMostOnce` | internal/protocol/protocol.go:112-163 | with the clocks of the code, no hello is accepted by a second handshake that takes the mutex no further into its second than the first had got at its second reading |
| `ReplayWindow.OneReadingReplaysExactly` | internal/protocol/protocol.go:112-163 | with one reading a handshake, at t and u: if and only if the hello is stamped 45 s after t's second, u's second is 90 s after it, and u has the larger fraction |
| `ReplayWindow.AtMostOnceInWholeSeconds` | internal/protocol/protocol.go:112-163 | corollary for a nondecreasing whole-second clock read once a handshake: no hello is accepted twice in any run |
| `ReplayWindow.FractionalClockReplays` | internal/protocol/protocol.go:112-163 | a hello accepted at 0 s and again at 90.5 s |
| `ReplayWindow.TwoReadingsReplay` | internal/protocol/protocol.go:114-149 | a whole-second clock read twice: a hello accepted at 0 s and again by a handshake that passes the window at 90 s and reaches the map at 91 s |
| `Handshake.Mac` | internal/protocol/protocol.go:76-82 | the tag is that of the concatenation of the parts |
| `Handshake.ClientInputInjective` | internal/protocol/protocol.go:181-181 | two client MAC inputs are equal if and only if timestamp and nonce are |
| `Handshake.ServerInputInjective` | internal/protocol/protocol.go:140-140 | two server MAC inputs are equal if and only if both nonces are |
| `Handshake.InputsDisjoint` | internal/protocol/protocol.go:71-74 | no client MAC input is a server MAC input, whatever the fields |
| `Handshake.TimeOfStamp` | internal/protocol/protocol.go:112-114 | the server reads back the Unix time that the client wrote |
| `Handshake.HelloLayout` | internal/protocol/protocol.go:55-82 | both hellos byte by byte: 8 bytes of big-endian Unix time, 32 of nonce, 32 of tag over label, time and nonce; 32 of nonce, 32 of tag over label and both nonces |
| `Handshake.VerdictExactly` | internal/protocol/protocol.go:112-131 | which refusal comes when: outside 45 s, then a wrong tag, then a nonce in the map |
| `Handshake.ServerAuthenticator.Remember` | internal/protocol/protocol.go:148-163 | true if and only if the nonce is new; the map loses exactly the expired entries, in whatever order they are visited, and gains this one |
| `Handshake.ServerAuthenticator.Handshake` | internal/protocol/protocol.go:100-145 | takes exactly 72 bytes, moves the map by one step of the run, and tries no write unless window, MAC and replay check have all passed; then it gives the server hello to the stream as one write and fails exactly if that write does |
| `Handshake.ServerAuthenticator.Admit` | internal/protocol/protocol.go:108-131 | the three checks of the 72 bytes give the verdict of the specification, in its order, and move the map accordingly |
| `Handshake.ClientHandshake` | internal/protocol/protocol.go:168-197 | the outcome is determined: without random bytes nothing is written or read; the hello is one write, and exactly if it fails the client does, having read nothing; then it takes exactly 64 bytes and completes if and only if their tag verifies for its nonce, or fails on a shorter stream |
| `Handshake.HonestPeersAccept` | internal/protocol/protocol.go:100-197 | with equal tokens, clocks within 45 whole seconds and an unseen nonce, server and client accept each other's hellos |
| `Handshake.HonestServer` | internal/protocol/protocol.go:100-145 | the server's method on an honest hello, in any pieces: it completes with its hello out, unless its write fails |
| `Handshake.HonestClient` | internal/protocol/protocol.go:168-197 | the client's method on the honest answer, likewise |
| `Handshake.HonestExchange` | internal/protocol/protocol.go:100-197 | both methods over a faithful carrier that cuts the bytes anywhere: with no failing write both complete and both hellos are out |
| `Handshake.HelloAdmittedExactly` | internal/protocol/protocol.go:112-131 | the hello of whoever holds any token is admitted if and only if its tag is the one of the server's token, the clocks are within 45 whole seconds and the nonce is not in the map |
| `Agreement.ClientAgrees` | internal/protocol/protocol.go:168-197 | in every run a client that completes agrees with exactly one server session, which accepted its timestamp and nonce and issued the nonce it holds |
| `Agreement.ClientsAgreeWithDifferentSessions` | internal/protocol/protocol.go:168-197 | no two clients that complete agree with the same session |
| `Agreement.ServerAgrees` | internal/protocol/protocol.go:100-145 | every session the server accepts stems from exactly one honest client's timestamp and nonce |
| `Agreement.OutcomeExactly` | internal/protocol/protocol.go:186-197 | in every run a client's outcome is that of the answer it has read: waiting without one, completed with its nonce if the tag verifies, failed otherwise |
| `Agreement.WaitingClientCanComplete` | internal/protocol/protocol.go:100-197 | from every state that a run reaches, a waiting client whose hello is in the window and not in the map can come to agree with a new session |
| `Agreement.GarbageIsRefused` | internal/protocol/protocol.go:122-196 | server and client read any bytes the network invents, and nothing comes of them but a failed client |
| `Agreement.AnyoneMaySpeak` | internal/protocol/protocol.go:168-184 | a new client may speak at any time, and its tag then verifies |
| `Agreement.OneSessionPerClient` | internal/protocol/protocol.go:100-163 | with the clocks of the code, two sessions that stem from the same client are one and the same, or were accepted by handshakes that meet the exact condition for a replay |
| `Agreement.TwoSessionsExactly` | internal/protocol/protocol.go:100-163 | some run of the network turns one client's hello into two sessions, by given handshakes, if and only if they meet that condition |
| `Agreement.OneSessionInWholeSeconds` | internal/protocol/protocol.go:100-163 | corollary for a whole-second clock read once: no two sessions stem from the same client, however often hellos are replayed |
| `SessionSet.SessionSet.Add` | internal/mux/mux.go:83-90 | registers the session under the counter's value and advances the counter modulo 2^64 |
| `SessionSet.SessionSet.Pick` | internal/mux/mux.go:101-116 | an open session with the fewest streams among the open ones, in whatever order the map is visited; null if and only if none is eligible |
| `SessionSet.SessionSet.Healthy` | internal/mux/mux.go:126-136 | the number of open ones |
| `SessionSet.SessionSet.CloseAll` | internal/mux/mux.go:139-146 | leaves the set empty and every session that was in it closed |
| `Balance.SpreadBound` | internal/mux/mux.go:101-116 | with at most p callers between the start of `Pick`, which reads the counts one by one, and the end of `OpenStream`, and r streams opened by the far end wherever it likes, stream counts that start within p of each other stay within p + r, streams about to be opened included |
| `Balance.LoadsExactly` | internal/mux/mux.go:101-116 | the counts are those of the streams opened, by callers and by the far end, and nothing else changes them |
| `Balance.UnderWayCanLeave` | internal/mux/mux.go:101-116 | a caller under way can go through with its `Pick` and, if it opens no stream, leaves no trace on the counts |
| `Balance.SpreadReached` | internal/mux/mux.go:101-116 | the bound is tight: from two idle sessions p callers and r streams of the far end can end p + r apart |
| `Pool.CountBound` | internal/tunnel/client.go:58-127 | in every interleaving of maintainers and `CloseAll`, no more sessions are registered than there are maintainers |
| `Pool.IdsNeverReused` | internal/mux/mux.go:83-90 | `Add` never returns an id again |
| `Pool.RemoveDropsOwn` | internal/tunnel/client.go:120-127 | `Remove` drops its caller's own session only, also when `CloseAll` and other registrations came first |
| `Pool.RegisteredExactly` | internal/tunnel/client.go:120-127 | a maintainer serves a session from its `Add` to its `Remove`, and it is registered as its own exactly if no `CloseAll` has come since; nothing else is registered |
| `Pool.MaintainersNeverBlocked` | internal/tunnel/client.go:120-127 | an idle maintainer can always register, a serving one deregister |
| `Reconnect.GrowExactly` | internal/tunnel/client.go:321-327 | `grow` is the capped doubling if and only if the doubling fits int64 |
| `Reconnect.MaintainSession` | internal/tunnel/client.go:79-153 | for all int64 settings: each dial happens after the spans of the turns before it, and the backoff held is that of the turns in a row without a stable session |
| `Reconnect.TakeTurn` | internal/tunnel/client.go:89-151 | one turn: a session that lasted 5 s and three tenths of Max resets the backoff and is followed by no sleep; anything else sleeps for the backoff and grows it |
| `Reconnect.StableExactly` | internal/tunnel/client.go:138-142 | that is exactly when a session counts as stable, for every Max whose triple is an int64 |
| `Reconnect.StreakExactly` | internal/tunnel/client.go:79-153 | the streak is the number of turns since the last stable session, or since the start |
| `Reconnect.BackoffIsDelay` | internal/tunnel/client.go:134-151 | after k turns in a row without a stable session the backoff is min(Max, Min * 2^k), and Min after none, for positive settings below 2^62 |
| `Reconnect.BackoffExactly` | internal/tunnel/client.go:321-327 | with positive settings that closed form holds at every turn if and only if both are below 2^62 |
| `Reconnect.RateBound` | internal/tunnel/client.go:79-153 | with those settings any n + 1 dials of one maintainer span at least n * min(Min, Max, 5 s) |
| `Reconnect.RateLimitedExactly` | internal/tunnel/client.go:79-153 | over all int64 settings, turns have a positive least duration if and only if both are positive and below 2^62 |
| `Reconnect.StreakTakes` | internal/tunnel/client.go:134-151 | with those settings k turns in a row without a stable session take at least Min * (2^k - 1) while the delay is not capped |
| `Reconnect.StreakTakesExactly` | internal/tunnel/client.go:134-151 | with exact sleeps k turns in a row take exactly what their dials and sessions take plus the sum of the first k delays |
| `Reconnect.DurationAtMost` | internal/tunnel/client.go:79-153 | no turn sleeps longer than the larger of the settings, and one with a stable session not at all |
| `AcceptPath.ExactlyOnePlace` | internal/transport/transport.go:116-169 | in every run each accepted connection is in exactly one of loop, worker, queue, server loop, handler or closed, and is closed at most once |
| `AcceptPath.TokensConserved` | internal/transport/transport.go:132-151 | the tokens of `sem` are the loop's and the workers', at most 512; those of `hsSem` the server loop's and the handlers' in their handshake, at most 1024; the queue holds at most 256; and no worker waits to give its token back |
| `AcceptPath.SlotReleasedOnce` | internal/tunnel/server.go:85-136 | each connection that got a slot has released it exactly once or holds it still, on every path; serving handlers hold none; no release blocks |
| `AcceptPath.HalfOpenBound` | internal/tunnel/server.go:18-93 | the connections accepted and not yet serving or closed never exceed 1 + 512 + 256 + 1 + 1024 |
| `AcceptPath.ClosedForCause` | internal/tunnel/server.go:85-136 | in every run the Closes of a connection are exactly the steps that fail it, abort it or end its session, and there is at most one |
| `AcceptPath.NothingAbortsBeforeClose` | internal/transport/transport.go:116-169 | until the listener or the server is closed neither loop ends, and a connection is closed only for what happens to itself |
| `AcceptPath.ClosedByClose` | internal/transport/transport.go:163-169 | listener and server are done exactly after their Close |
| `AcceptPath.ServedOnlyIfAuthenticated` | internal/tunnel/server.go:105-121 | nobody is served who has not authenticated, started a mux and given back the slot |
| `AcceptPath.AuthenticatedCanBeServed` | internal/tunnel/server.go:105-121 | in every run a handler in its handshake can go on to serve its session, with the connection open, the slot given back and nothing else changed |
| `AcceptPath.WaitsOnlyWhenFull` | internal/transport/transport.go:132-150 | the loops and workers wait exactly while 512 workers run, 256 connections are queued or 1024 handlers hold their slot |
| `AcceptPath.FirstInFirstOut` | internal/transport/transport.go:145-161 | the server takes connections in the order in which they were queued, and loses none |
| `AcceptPath.ReachesSession` | internal/tunnel/server.go:73-121 | a connection that nothing fails goes all the way from the socket to its session, leaving no token behind |
| `AcceptPath.ReachesEnd` | internal/tunnel/server.go:122-136 | when that session ends the connection is closed and its handler gone |
| `AcceptPath.NeverStuck` | internal/transport/transport.go:116-169 | in every run in which listener and server have been closed, steps that wait on no peer lead on until nothing is left but the handlers of sessions |
| `AcceptPath.ClosedUnlessQueued` | internal/transport/transport.go:154-169 | when every goroutine of the path has returned, a connection is closed if and only if it is not left in the queue |
| `AcceptPath.QueuedOutlivesClose` | internal/transport/transport.go:145-169 | and one may be left there |
| `Obfs.XorExactly` | internal/transport/obfs.go:99-127 | exclusive or, bit by bit |
| `Obfs.XorTwice` | internal/transport/obfs.go:99-127 | XOR with the same byte twice gives the byte back |
| `Obfs.XorZero` | internal/transport/obfs.go:99-127 | zero becomes the key byte itself |
| `Obfs.XorDiffers` | internal/transport/obfs.go:99-127 | two key bytes encrypt a byte to the same if and only if they are the same |
| `Obfs.CryptShowsKeystream` | internal/transport/obfs.go:99-127 | zero plaintext comes out as the keystream of this key, nonce and position |
| `Obfs.CryptSeparates` | internal/transport/obfs.go:99-127 | under two keystreams a plaintext has the same ciphertext at exactly the places at which they agree |
| `Obfs.CryptTwice` | internal/transport/obfs.go:99-127 | decrypting at the position of encryption gives the plaintext back |
| `Obfs.CryptConcat` | internal/transport/obfs.go:113-125 | encrypting in pieces is encrypting the whole, if the position moves on by each piece |
| `Obfs.CryptPrefix` | internal/transport/obfs.go:99-127 | prefixes of the ciphertext are exactly those of prefixes of the plaintext |
| `Obfs.DirectionsHashApart` | internal/transport/obfs.go:38-45 | the two directions never hash the same key material, so one nonce serves both |
| `Obfs.KeyInputExactly` | internal/transport/obfs.go:38-45 | the key material is the same if and only if token and direction are |
| `Obfs.KeysExactly` | internal/transport/obfs.go:77-86 | under a hash that keeps inputs apart an end writes under the key its peer reads under, exactly for equal tokens, and never under the key it reads under; the client writes under "c2s" |
| `Obfs.Connect` | internal/transport/obfs.go:49-97 | client and server over a carrier that cuts the bytes anywhere: exactly unless the random bytes or the one write fail, both ends come up paired in both directions, and the server's end starts at the first byte behind the nonce |
| `Obfs.Cipher.XorKeyStream` | internal/transport/obfs.go:99-120 | encrypts into its part of the buffer, in place or not, and advances the position by the length |
| `Obfs.ObfsConn.constructor` | internal/transport/obfs.go:77-97 | both positions start at 0 under the keys of the end's role |
| `Obfs.ObfsConn.Read` | internal/transport/obfs.go:99-105 | has, in plaintext, the contract of the raw connection's Read |
| `Obfs.ObfsConn.Write` | internal/transport/obfs.go:107-127 | for any size: on success exactly the encryption of all of it, in raw writes of 32 KiB but for the last; an error exactly if a raw write fails, and then the count returned lies within what went out |
| `Obfs.Transparent` | internal/transport/obfs.go:77-127 | whatever the two ends wrote and read, the plaintext read is a prefix of the plaintext written up to the first failed Write, and all of it once everything has been read |
| `Obfs.ObfsClient` | internal/transport/obfs.go:49-60 | without random bytes it fails with nothing written; otherwise the 24-byte nonce is its one write, it fails exactly if that does, reads nothing, and on success is a client end under that nonce |
| `Obfs.ObfsServer` | internal/transport/obfs.go:64-72 | takes exactly 24 bytes, writes nothing, and is a server end under those bytes |
| `WebSocket.WsNetConn.Read` | internal/transport/ws.go:49-71 | ends, and has the contract of a byte stream's Read: empty, exhausted and text messages do not show, and the end of a message is never the end of the stream |
| `WebSocket.WsNetConn.ReadCurrent` | internal/transport/ws.go:51-61 | takes the bytes from the current message and drops its reader exactly at the message's end |
| `WebSocket.WsNetConn.Advance` | internal/transport/ws.go:62-69 | moves to the next message without losing a payload byte |
| `WebSocket.WsNetConn.Write` | internal/transport/ws.go:73-80 | sends p as one binary message and fails exactly if the library does; the count is the length of p on success and 0 otherwise |
| `WebSocket.PayloadIsPrefix` | internal/transport/ws.go:49-80 | what Read returns altogether is a prefix of what was written, and at least all messages that arrived whole |
| `WebSocket.PayloadIsWhole` | internal/transport/ws.go:49-80 | when no message is torn it is exactly the messages that arrived |
| `Pipe.CopyOneWay` | internal/tunnel/pipe.go:36-40 | through the buffer or, where a connection passes bytes on by itself, in pieces of any size: all the source has goes out in order, or up to the write that fails |
| `Pipe.BytesConserved` | internal/tunnel/pipe.go:19-40 | in every run and each direction what was written is a prefix of what was read, and all of it but the chunk in hand unless a write has failed |
| `Pipe.StopsForCause` | internal/tunnel/pipe.go:19-40 | a copier has failed exactly if a write of its has, has stopped exactly if that or the end of its source came, has read exactly what its source gave, and nothing is closed before a copier has ended |
| `Pipe.Forwards` | internal/tunnel/pipe.go:36-40 | while both connections are open, whatever a copier is given it can pass on, and go on reading |
| `Pipe.ReturnsInTheEnd` | internal/tunnel/pipe.go:19-34 | every run can be continued until `pipe` returns |
| `Pipe.NothingLeftBehind` | internal/tunnel/pipe.go:19-34 | when `pipe` has returned, both goroutines have ended and both connections are closed |
| `Pipe.NeverStuck` | internal/tunnel/pipe.go:19-34 | until then either both directions flow or some step can be taken that waits on no peer; and a signal never finds the channel full |
| `Pipe.ClosedEndsSoon` | internal/tunnel/pipe.go:29-33 | once both connections are closed at most five more steps are possible |

## Left out

- TLS and uTLS, certificates, KCP, smux internals, sockets: foreign libraries, of which only byte streams, closing and clocks are modelled.
- HMAC, SHA-256 and XChaCha20 internals, among them the counter overflow of XChaCha20 after 256 GiB on one connection.
- Deadlines as times: an idle timeout appears as a read error that may come at any moment, so nothing is claimed about when flows are reaped.
- `waitSession`, `dispatchForward`, `dispatchReverse`, `handleForwardStream`, `handleReverseStream`: polling and single branches that close what they were given; `open` of the UDP listeners appears in `UdpRelay` as its three outcomes, and the decision of a handler on a header in `FarEnd` as a parameter.
- The end of `bridgeUDP`, which closes both sides and waits: only its two relay loops are modelled.
- `blockedForwardTarget`, the allow-list, configuration, menus, logging, `procmgr`: single decisions, or behaviour decided by the operating system.
- The KCP and WebSocket listeners and the HTTP handler: the hand-off of `asyncListener` again, with more foreign calls.
- Transient errors of `Accept`, which change no state that is modelled.
- UdpRelay: a state machine over values, so that any interleaving can be stated; the sharing of `buf` and `scratch` between turns of the loop is modelled in `Datagrams` only. An offered header is at most 512 bytes: with a longer target or service name every `open` aborts. A reply counts as written when `WriteToUDP` is called, whose error the code ignores.
- AcceptPath, Pool, Balance, Agreement: state machines over values for the same reason. `Balance` has no closing of sessions or streams, as the bound is about placement; streams of the far end count, and are in the bound.
- AcceptPath.NeverStuck: says nothing about the end of a session that is being served, which may be added after Close has closed the others and then lasts as long as its peer likes.
- Obfs.ObfsConn.Write: says nothing about plaintext written after a failed Write, when the two keystreams may have parted; `Transparent` covers everything up to and including that Write.
- Obfs: the 32 KiB buffer is allocated in each Write and not taken from the pool that other copies share.
- Pipe.CopyOneWay: of `WriteTo` and `ReadFrom` of a connection only the contract is used: what was read goes out in order, in pieces.
- WebSocket.WsNetConn.Write: the mutex that keeps concurrent writers apart is not modelled.
- Agreement: ideal MAC and fresh nonces are assumed, not derived.
