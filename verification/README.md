# Relay stack verification

A Dafny model of a voice relay and its client: the framed TCP stream between them, the life of relay sessions,
the configuration store, and the cryptographic support code (the AES wrapper, the object-identifier encoder and
the word-multiplication macros of the bundled big-number library). `dafny verify dfyconfig.toml` checks it.

| module | what it holds |
|---|---|
| `Bytes`, `Wrappers` | octets, 16-bit fields, block moves; an optional value |
| `Framing` | the 8-byte-header frame and the reference parser of a byte stream |
| `ClientStream` | the client's two buffers, and a connection as a step machine |
| `RelayStream` | the relay's TCP channel: dispatching received frames, sending queued packets |
| `Sessions`, `SessionManagers` | sessions, timer, event loops as a step machine; the manager that runs it |
| `PieceDrains` | the same machine with the drain of a loop in pieces |
| `BufferPool` | who holds a packet buffer |
| `Oid` | dotted text to base-128 sub-identifiers |
| `WordMul`, `WordVectors` | the multiplication macros in all four build forms; limb vectors and bignums built on them |
| `ConfigText`, `LpConfigStore` | the configuration file format; reading it, looking up, changing |
| `MSList` | the doubly linked list |
| `AesWrapper` | padding, codebook mode and marker around an abstract block cipher |
| `ServerSelect` | the choice of the next relay server |

Main results: exact delivery over every interleaving of sends, flushes and arrivals
(`ClientStream.DeliveryIsExact`), over every chunking at the relay (`RelayStream.RelayDispatchIsExact`) and from
the relay's queue to the client's parser (`RelayStream.RelayToClient`); no reference to a deleted session in any
reachable state (`Sessions.ReachableIsSafe`), and with drains in pieces exactly when that still holds
(`PieceDrains.PiecewiseIsSafe`, `PieceDrains.AcceptIsHarmlessIff`); eventual deletion of silent and of closed
sessions (`Sessions.SilentSessionIsDeleted`, `Sessions.PeerClosedIsDeleted`), no early deletion
(`Sessions.FoundChannelSurvives`), and over all runs exactly when a caller stays open and a callee or a returning
caller is still on its loop (`Sessions.StaysOpenIff`, `Sessions.CalleeWatchedIff`,
`Sessions.AcceptedCallerWatchedIff`); the exact condition under which a configuration survives its file
(`ConfigText.RoundTripIff`); the encoder of object identifiers against an independent decoder, with minimality as an
equivalence (`Oid.A2dObject`, `Oid.DecodeEncode`, `Oid.CheckIsMinimality`); exact multi-word products in every build
form (`WordVectors.BnMulAddWords`, `WordVectors.MulComba`, `WordVectors.Bignum.MulWord`).

## How the code is modelled

- Sockets, clocks and threads are parameters: each call of a socket is an argument that holds its answer, each
  event carries the time that was read for it, and each step of the session machine is what one thread does under
  the lock. There is one accepting thread. Times may come in any order; results that need one say so.
- In `Sessions` the drain of one loop is one step. `PieceDrains` has the swap of the list and every close as steps of
  their own, shows that together they are that drain, and says when what falls in between does harm.
- Host order is little-endian. Octet 3 of a frame is never written by the packing code
  (common/ParsePdu.cc:45-49); the model keeps whatever the buffer held there.
- A failed `Send` returns -1, which the client reads as an unsigned number (common/TcpParsePdu.h:125-133): a
  result larger than the buffer means that nothing was taken.
- Block copies that move a remainder to the front of the same buffer are moves.
- A word is a number below B * B for any even half-word base B; the macros reduce modulo the word wherever the
  C type does. `unsigned long` has between 32 and 64 bits. BIGNUM is `nat`.
- The products of four and of eight limbs, which the source writes out row by row, are one loop over the rows.
- The (un)serialisers of packet bodies and the block cipher are function parameters.
- `lastRecv` of a channel is an integer; the unsigned difference of the code is below the timeout exactly if the
  tick is neither before the last receipt nor 30 seconds behind it, as long as distances fit 64 bits.
- Session and channel objects are records inside the tables that own them; a reference names the session it was
  made for, so a stale one is recognised even when the caller has come back.

## What the code does that one might not expect

- A configuration line that fills the 1023 characters of one read is taken without its newline, so on such lines
  even an empty value or trailing spaces survive. A key that starts with a bracket never does.
  (common/LpConfig.c:304-357; `ConfigText.Printable`)
- Removing a configuration key removes the first item only; a second item of the same key then shows through.
  (common/LpConfig.c:509-532; `LpConfigStore.GetAfterSet`)
- Accepting a known caller again does not put its callee back on the loop. After any run, for both managers, the
  callee is on its loop if and only if no drain has found it since the session was created; a UDP caller that comes
  back after such a drain looks fresh, may be accepted as often as it likes, and never gets its callee back.
  (relayserver/Session.cc:103-109; `Sessions.NewCalleeWatchedIff`, `Sessions.AcceptKeepsCallee`,
  `Sessions.ResetCalleeIsOff`)
- A tick acts on a time that was read before it took the lock. If a caller has been heard since, the unsigned
  difference is huge and the session times out at once: an open session heard from within 30 seconds is spared if and
  only if the time of the tick is not before that receipt. Two such ticks delete a session that is in use.
  (relayserver/Timer.cc:50, relayserver/Channel.cc:25; `Sessions.TickSparesIff`, `Sessions.StaysOpenIff`,
  `Sessions.LateTicksDelete`)
- A loop closes the channels of its list without the lock. If a known caller is accepted while its callee is listed,
  the callee can get on the list twice, and a tick between the two closes deletes the session that the second one
  touches; if no caller is, no such thing ever happens. (relayserver/Poll.cc:119-130;
  `PieceDrains.AcceptIsHarmlessIff`, `PieceDrains.ReturningCallerDangles`)
- A TCP caller that is accepted again between the tick that posts it and the drain of its loop loses its new
  connection. It stays readable if and only if it was not on the pending list or its loop has not been drained
  since. (relayserver/Poll.cc:119-130; `Sessions.AcceptedCallerWatchedIff`, `Sessions.ReturningCallerIsClosed`)
- Concatenating an empty list behind a non-empty one writes through a null pointer. (common/Common.c:47-48;
  `MSList.Concat`)
- A server with an empty address that is the oldest of its class hides the whole class from the selection, since
  the search takes its address for having found none: the pick is from the best class if and only if the oldest entry
  of that class has a proper address. (localproxy/src/NetTestManager.cpp:229-273; `ServerSelect.PickIsBestIff`,
  `ServerSelect.EmptyAddressHides`)
- Decryption strips as many octets as the last one says without looking at the others, and takes 0 too.
  (BaseLib/AES/src/CryptoWrapper.cpp:134-143; `AesWrapper.ReencryptIff`, `AesWrapper.ZeroPaddingIsAccepted`)

## Model

| member | source | states |
|---|---|---|
| Framing.Header | common/ParsePdu.cc:43-52 | the eight header octets announce length and command, octet 3 is left as it was |
| Framing.Frame | common/ParsePdu.cc:43-52 | the packed octets are a frame of the packet |
| Framing.PackPduBuf | common/ParsePdu.cc:43-52 | packing writes one frame into the buffer and nothing in front of it |
| Framing.Parse | common/TcpParsePdu.h:40-61 | what remains after parsing is less than one frame, at most 65542 octets |
| Framing.ParseSplit | common/TcpParsePdu.h:38-61 | parsing in two goes, with the remainder carried over, equals parsing at once |
| Framing.ParseFrames | common/TcpParsePdu.h:40-61 | frames laid end to end parse back to exactly the packets they carry |
| Framing.ParsePrefix | common/TcpParsePdu.h:40-61 | less input yields a prefix of the packets |
| Framing.ParseAccountsForInput | common/TcpParsePdu.h:47-61 | every octet is part of a delivered frame, in order, or of the remainder |
| ClientStream.FlushBytes | common/TcpParsePdu.h:124-139 | what the socket took and what stays is what was there; it took as many octets as it answers, and none if that is more than it was given |
| ClientStream.TcpParsePdu.constructor | common/TcpParsePdu.h:12-25 | both buffers have two mebibytes and are empty |
| ClientStream.TcpParsePdu.ParseTcpPdu | common/TcpParsePdu.h:27-62 | the handler sees exactly the parsed packets, the remainder is kept, and the overflow branch is dead between calls |
| ClientStream.TcpParsePdu.SendTcpPdu | common/TcpParsePdu.h:64-79 | accepted if and only if it fits; then its frame is appended and exactly the octets answered leave from the front |
| ClientStream.TcpParsePdu.FlushSendBuf | common/TcpParsePdu.h:112-140 | exactly the octets answered leave from the front; the result is what is left, or -1 on failure |
| ClientStream.SendKeepsConserved | common/TcpParsePdu.h:64-79 | a send keeps every accepted packet either delivered or whole in the buffers |
| ClientStream.FlushKeepsConserved | common/TcpParsePdu.h:112-140 | a flush with any socket answer keeps them |
| ClientStream.ArriveKeepsConserved | common/TcpParsePdu.h:27-62 | an arrival of any chunk keeps them |
| ClientStream.RunKeepsConserved | common/TcpParsePdu.h:27-140 | every run of sends, flushes and arrivals keeps them |
| ClientStream.DeliveryIsExact | common/TcpParsePdu.h:27-140 | delivered packets are a prefix of the accepted ones in every state, and all of them once the buffers are drained |
| ClientStream.RunCounts | common/TcpParsePdu.h:112-140 | in every run the octets ever put in flight number the answers not larger than the buffer given, and with the unsent ones all frames accepted |
| ClientStream.Connection.Send | common/TcpParsePdu.h:64-79 | the method is a send step of the connection |
| ClientStream.Connection.Flush | common/TcpParsePdu.h:112-140 | the method is a flush step of the connection |
| ClientStream.Connection.Arrive | common/TcpParsePdu.h:27-62 | the method is an arrival step of the connection |
| RelayStream.Dispatch | relayserver/Channel.cc:219-242 | whatever the input, less than one packet of residue is kept |
| RelayStream.DispatchByOctets | relayserver/Channel.cc:370-443 | in octets and numbers: which first frames are thrown away, wait or are dispatched |
| RelayStream.DispatchIsParseIffGood | relayserver/Channel.cc:370-443 | the relay parses as the reference does if and only if every header and authentication body is acceptable |
| RelayStream.GoodSplit | relayserver/Channel.cc:219-242 | an acceptable stream stays acceptable wherever it is cut |
| RelayStream.FeedIsParse | relayserver/Channel.cc:219-267 | feeding an acceptable stream chunk by chunk equals parsing it at once |
| RelayStream.RelayDispatchIsExact | relayserver/Channel.cc:219-267 | acceptable frames cut into any chunks: exactly the complete commands are dispatched, in order, in the end all |
| RelayStream.TCPChannel.constructor | relayserver/Channel.cc:196-206 | buffers of 15000 and 1500 octets, an empty queue and empty histories |
| RelayStream.TCPChannel.HandlePduPack | relayserver/Channel.cc:370-444 | what one call consumes and dispatches; a header of another protocol or version, too long a body or a bad authentication body consumes everything |
| RelayStream.TCPChannel.ProcessOne | relayserver/Channel.cc:224-238 | one turn of the loop, and when it ends |
| RelayStream.TCPChannel.ProcessData | relayserver/Channel.cc:219-242 | the buffer is dispatched as specified and the residue is under 1500 octets |
| RelayStream.TCPChannel.HandleRecv | relayserver/Channel.cc:244-267 | received data, end of stream and errors; the socket is always asked for a positive length |
| RelayStream.TCPChannel.LoadPacket | relayserver/Channel.cc:277-296 | the head of the queue becomes the unsent octets, wrapped unless it frames itself |
| RelayStream.WireOctets | relayserver/Channel.cc:282-293 | in octets: what starts with SR goes out as it is, anything else behind a header of command 104 |
| RelayStream.TookBounds | relayserver/Channel.cc:297-316 | no answer takes more than it says, none that says something takes nothing, and answers are used until the socket stops or all octets are out |
| RelayStream.PartialSends | relayserver/Channel.cc:312-313 | answers that leave something of the buffer are taken at their word |
| RelayStream.TCPChannel.Transmit | relayserver/Channel.cc:297-314 | one send: the octets answered, at most those unsent, leave from the front; a busy socket keeps the rest, a broken one drops it and closes |
| RelayStream.TCPChannel.HandleSend | relayserver/Channel.cc:269-323 | a write event that drains or blocks is a write step of the sender with its histories; the octets taken number what the answers used took, and it blocks or disconnects at the answer that says so |
| RelayStream.TCPChannel.SendLoop | relayserver/Channel.cc:276-316 | octets taken, then unsent, are the old unsent ones and the frames of the packets popped, for each way the loop can end, and number what the answers used took |
| RelayStream.TCPChannel.WriteEvent | relayserver/Channel.cc:269-323 | a write event keeps the account of all packets ever queued complete while the connection holds |
| RelayStream.TCPChannel.SendBuf | relayserver/Channel.h:219-226 | queueing a packet, with the write that may follow at once, keeps it too |
| RelayStream.SenderStepConserves | relayserver/Channel.cc:269-323 | queueing and write events keep octets and packets in order and complete |
| RelayStream.RelaySenderConserves | relayserver/Channel.cc:269-323 | in every run: taken, unsent and queued together are all packets ever queued, framed, in order, and as many octets are taken as the socket answered |
| RelayStream.ConservedReachesClient | relayserver/Channel.cc:269-323 | a sender with a complete account: of any prefix of its octets the client's parser yields the queued packets in order, in the end all |
| RelayStream.RelayToClient | relayserver/Channel.cc:269-323 | the same over every run of the sender |
| Sessions.CreateKey | relayserver/SessionManager.h:63-69 | the key fits 48 bits |
| Sessions.KeyIsUndone | relayserver/SessionManager.cc:106-107 | mask and shift give back port and address |
| Sessions.KeyIsInjective | relayserver/SessionManager.h:63-69 | different callers have different keys |
| Sessions.PostTimeoutSafe | relayserver/Channel.cc:44-52 | posting a channel leaves no dangling reference |
| Sessions.CloseSafe | relayserver/Channel.cc:111-123 | closing a channel that is on no list leaves none |
| Sessions.CheckAllSafe | relayserver/SessionManager.cc:94-114 | the timer loop leaves none, and what it finds dead is closed on both sides |
| Sessions.DeleteSafe | relayserver/SessionManager.cc:87-92 | deleting a session closed on both sides leaves none |
| Sessions.DrainSafe | relayserver/Poll.cc:119-130 | draining a loop leaves none |
| Sessions.CreateSafe | relayserver/SessionManager.cc:179-207 | creating a session leaves none and keeps the tables in agreement |
| Sessions.ResetSafe | relayserver/SessionManager.cc:150-169 | resetting a session leaves none |
| Sessions.StepSafe | relayserver/SessionManager.cc:87-256 | every step keeps all of this |
| Sessions.ReachableIsSafe | relayserver/Session.cc:47-73 | in every reachable state each watched or pending channel belongs to a live session on that loop and is not closed, and both tables agree key by key |
| Sessions.TickExactly | relayserver/SessionManager.cc:94-114 | a tick deletes exactly the sessions timed out and closed on both sides, and posts both channels of exactly the ones timed out and open; a tick before the last receipt counts as a timeout |
| Sessions.DrainExactly | relayserver/Poll.cc:119-130 | a drain closes exactly what was on the list and empties it |
| Sessions.StepOrderly | relayserver/Session.cc:47-73 | every step keeps a posted or closed caller's callee closed or on the list |
| Sessions.SilentSessionIsDeleted | relayserver/Session.cc:47-73 | from any reachable state a session silent for 30 seconds is gone after tick, drain of its loop, tick |
| Sessions.PeerClosedIsDeleted | relayserver/Channel.cc:325-333 | from any reachable state a TCP session closed by its peer is unwatched at once and gone after tick, drain of its loop, tick |
| Sessions.StepKeepsFresh | relayserver/Channel.cc:23-27 | no step before the timeout removes or backdates a fresh session, unless a tick is before its receipt or the peer closes a TCP connection |
| Sessions.FoundChannelSurvives | relayserver/SessionManager.cc:116-125 | a channel found at time t is alive in every run whose ticks are before t plus 30 and not before the receipts stored |
| Sessions.TickSparesIff | relayserver/Channel.cc:23-27 | a tick leaves an open session heard from within 30 seconds unchanged if and only if its time is not before that receipt |
| Sessions.LateTicksDelete | relayserver/Timer.cc:43-51 | a run in which a session heard one second later is closed by one tick and deleted by the next |
| Sessions.ReachableIsTimely | relayserver/Timer.cc:43-51 | if times never go back in the order of the steps, no tick is before a receipt |
| Sessions.StaysOpenIff | relayserver/Session.cc:47-73 | over every run of less than 30 seconds, for both managers, an open caller stays open if and only if no tick is before its receipts and it was not on a list that is drained |
| Sessions.CalleeWatchedIff | relayserver/Session.cc:47-82 | over every run of either manager, a callee is on its loop at the end if and only if it was at the start and no drain has found it on its list |
| Sessions.NewCalleeWatchedIff | relayserver/Session.cc:75-83 | from its creation on a callee is on its loop exactly until a drain finds it |
| Sessions.AcceptKeepsCallee | relayserver/Session.cc:103-109 | after a known caller is accepted its callee is on the loop if and only if it was before; once off it stays off in every run |
| Sessions.ResetCalleeIsOff | relayserver/SessionManager.cc:150-169 | a run in which the callee of a session that was reset once and twice is on no loop |
| Sessions.StepCaller | relayserver/Poll.cc:119-130 | for a caller that is not timed out, only a drain that finds it changes its state or takes it off its loop |
| Sessions.AcceptedCallerWatchedIff | relayserver/SessionManager.cc:209-234 | over every run of less than 30 seconds an accepted TCP caller stays open if and only if no tick is before its receipts, and it was not pending when accepted or the loop was not drained since; with timely ticks the latter decides whether it is on its loop |
| Sessions.SessionInUseStays | relayserver/Channel.cc:244-248 | a caller accepted in any reachable state, on no list, is open and watched after every run, however long, in which it was heard less than 30 seconds before each tick, with the time it was heard last |
| Sessions.ReachableIsDealt | relayserver/SessionManager.cc:76-85 | in every reachable state session number n sits on loop n modulo the number of loops |
| Sessions.ReturningCallerIsClosed | relayserver/SessionManager.cc:209-234 | a run in which a returning caller is closed with its new socket |
| PieceDrains.PiecesMakeDrain | relayserver/Poll.cc:119-130 | swapping a list and closing all of it one by one is the drain in one step |
| PieceDrains.CloseHeadTidy | relayserver/Poll.cc:127-129 | closing the first channel of a list without repeats touches a live session and leaves no dangling reference |
| PieceDrains.StepPieceSafe | relayserver/Poll.cc:119-130 | every step between and including the closes keeps lists without repeats and without references to deleted sessions, unless it accepts a caller whose callee is listed |
| PieceDrains.PiecewiseIsSafe | relayserver/Poll.cc:119-130 | in every run without such an acceptance no loop ever refers to a deleted session |
| PieceDrains.ListedAcceptDangles | relayserver/Poll.cc:119-130 | after such an acceptance some run, without another one, leaves a loop with a reference to a deleted session |
| PieceDrains.AcceptIsHarmlessIff | relayserver/SessionManager.cc:150-234 | accepting a known caller is followed by safe runs only, up to the next acceptance, if and only if its callee is not listed |
| PieceDrains.ReturningCallerDangles | relayserver/Poll.cc:119-130 | the first caller, timed out and back before the drain, reaches such a state, for both managers |
| SessionManagers.SessionManager.constructor | relayserver/SessionManager.cc:36-44 | the manager starts empty, and with its invariant |
| SessionManagers.SessionManager.Close | relayserver/Channel.cc:111-123 | unregisters and closes one channel |
| SessionManagers.SessionManager.AddToPoll | relayserver/Channel.cc:70-74 | registers one channel and marks it readable |
| SessionManagers.SessionManager.PostTimeout | relayserver/Channel.cc:44-52 | posts to the channel's loop, or closes where there is none |
| SessionManagers.SessionManager.CheckChannelsTimeout | relayserver/Session.cc:47-73 | the answer and the effect of one check, also for a tick before the last receipt |
| SessionManagers.SessionManager.CheckEach | relayserver/SessionManager.cc:94-110 | the loop over the map checks every session and collects the dead ones in order |
| SessionManagers.SessionManager.UpdateSessions | relayserver/SessionManager.cc:94-114 | the two loops together are one tick of the step machine, and keep the invariant |
| SessionManagers.SessionManager.RemoveSessions | relayserver/SessionManager.cc:140-148 | all listed sessions leave both tables |
| SessionManagers.SessionManager.DoPendingCloseChannels | relayserver/Poll.cc:119-130 | the loop is one drain, only live channels are touched, and the invariant is kept |
| SessionManagers.SessionManager.FindChannel | relayserver/SessionManager.cc:116-125 | the caller's live channel, refreshed, or none; the invariant is kept |
| SessionManagers.SessionManager.ResetOrCreateSession | relayserver/SessionManager.cc:150-177 | resets a known caller, creates a session for a new one, and keeps the invariant |
| SessionManagers.SessionManager.ResetSession | relayserver/SessionManager.cc:158-169 | what a reset changes in a UDP and in a TCP session, field by field |
| SessionManagers.SessionManager.CreateSession | relayserver/SessionManager.cc:179-207 | a new session with its channels, in the tables and on its loop |
| SessionManagers.SessionManager.HandleClose | relayserver/Channel.cc:325-333 | the caller is unwatched and backdated, and the invariant is kept |
| SessionManagers.SessionManager.HandleRecv | relayserver/Channel.cc:244-248 | a watched channel is live and has its time of receipt noted, and nothing else changes; the invariant is kept |
| BufferPool.MemPool.constructor | common/Buffer.h:51-56 | the pool starts empty |
| BufferPool.MemPool.GetMemory | common/Buffer.h:87-105 | the last released buffer, or a new one of this pool |
| BufferPool.MemPool.Release | common/Buffer.h:69-85 | kept for reuse unless the pool is full; no buffer, no effect |
| BufferPool.UDPChannel.SendBuf | relayserver/Channel.h:147-150 | the buffer joins the end of the queue |
| BufferPool.UDPChannel.TakeDatagram | relayserver/Channel.cc:150-163 | a datagram is queued in a buffer of the receiving pool, or the buffer goes back; none is lost or shared |
| BufferPool.UDPChannel.HandleRecv | relayserver/Channel.cc:139-165 | the receipt is noted, and the peer's queue gains the datagram with the address kept here; nothing more without a peer or data |
| BufferPool.UDPChannel.SendHead | relayserver/Channel.cc:172-181 | the head leaves, or is pushed back to the head |
| BufferPool.UDPChannel.HandleSend | relayserver/Channel.cc:167-189 | datagrams leave in queue order up to the first refusal; sent and waiting are always all that was queued, and only a full pool drops a buffer |
| BufferPool.Pair.Receive | relayserver/Channel.cc:139-165 | of two channels that are each other's peers, the one that receives keeps its buffers, and no buffer is in the hands of both |
| BufferPool.Pair.Transmit | relayserver/Channel.cc:167-189 | the one that sends does not concern the other |
| BufferPool.Pair.Run | relayserver/Channel.cc:139-189 | over any run of both handlers at both sides no buffer is in two hands or in the wrong pool, and what each side sent is the front of what was queued there |
| Oid.FieldLen | BaseLib/AES/src/a_object.c:130-158 | a field reaches to the next separator or the end |
| Oid.DecodeEncode | BaseLib/AES/src/a_object.c:174-215 | decoding the sub-identifiers undoes encoding them |
| Oid.CleanIsCanonical | BaseLib/AES/src/a_object.c:293-303 | octets that decode and never start a sub-identifier with 0x80 are the encoding of their value |
| Oid.EncodeIsClean | BaseLib/AES/src/a_object.c:203-216 | no encoding starts a sub-identifier with 0x80 |
| Oid.CheckIsMinimality | BaseLib/AES/src/a_object.c:293-303 | the check accepts decodable octets if and only if they are minimal |
| Oid.ArcsRecovered | BaseLib/AES/src/a_object.c:159-173 | root, second and remaining arcs are recovered from the encoding |
| Oid.DecimalRead | BaseLib/AES/src/a_object.c:133-158 | a field that is a number in decimal writing is read as that number |
| Oid.LeadingZeros | BaseLib/AES/src/a_object.c:133-158 | leading zeros change nothing and an empty field is zero |
| Oid.EmptyField | BaseLib/AES/src/a_object.c:130-137 | a separator where a field should start makes an empty arc |
| Oid.DottedIsEncoded | BaseLib/AES/src/a_object.c:86-228 | the written arcs, with dots or spaces and perhaps one at the end, are accepted, and their encoding decodes to 40 times the root plus the second arc and the other arcs |
| Oid.OnlyDigitsAndSeparators | BaseLib/AES/src/a_object.c:130-141 | nothing but digits, dots and spaces is accepted |
| Oid.StandardExample | BaseLib/AES/src/a_object.c:203-216 | the example of section 8.19.5 of X.690 |
| Oid.BitsGiveDigits | BaseLib/AES/src/a_object.c:177-179 | the digit count taken from the bit length is exact |
| Oid.AddDigit | BaseLib/AES/src/a_object.c:142-157 | one digit more, in the word or the bignum; the guard rules out wrap-around |
| Oid.ReadField | BaseLib/AES/src/a_object.c:128-158 | reads one field, or fails exactly when it is no numeral; both paths hold the same value |
| Oid.AddRoot | BaseLib/AES/src/a_object.c:159-173 | the root arc is added to the second one without wrap-around, which is refused exactly if it is 40 or more under root 0 or 1 |
| Oid.WordDigits | BaseLib/AES/src/a_object.c:195-200 | the base-128 digits of a word |
| Oid.BignumDigits | BaseLib/AES/src/a_object.c:189-190 | the base-128 digits of a bignum |
| Oid.FillDigits | BaseLib/AES/src/a_object.c:174-202 | the digits fit the buffer, which grows for a long bignum |
| Oid.EmitDigits | BaseLib/AES/src/a_object.c:210-212 | the digits go out as the sub-identifier |
| Oid.PutSubid | BaseLib/AES/src/a_object.c:203-215 | writes or only counts, and fails exactly when the buffer is too short |
| Oid.ReadSubid | BaseLib/AES/src/a_object.c:120-173 | the sub-identifier of the next field, refused exactly if that is no numeral or too large a second arc |
| Oid.A2dObject | BaseLib/AES/src/a_object.c:86-228 | 0 exactly for bad texts and short buffers, else the length of the encoding, which is written; the size-only pass gives the same length |
| Oid.C2iCheck | BaseLib/AES/src/a_object.c:296-303 | accepts exactly the octets with no sub-identifier that starts with 0x80 |
| WordMul.FormsAgree | BaseLib/AES/include/bn_lcl.h:324-480 | exact results of any two build forms are equal |
| WordMul.MulAddLlong | BaseLib/AES/include/bn_lcl.h:325-330 | r' + c' * W = a * w + r + c with a double word |
| WordMul.MulLlong | BaseLib/AES/include/bn_lcl.h:332-337 | r' + c' * W = a * w + c with a double word |
| WordMul.SqrLlong | BaseLib/AES/include/bn_lcl.h:339-344 | exact square with a double word |
| WordMul.MulAddLohi | BaseLib/AES/include/bn_lcl.h:347-357 | the same from a two-word multiply, no carry lost |
| WordMul.MulLohi | BaseLib/AES/include/bn_lcl.h:359-366 | the same without the addend |
| WordMul.UmultLohi | BaseLib/AES/include/bn_lcl.h:368-371 | both words of a product, which is also `sqr` of this form |
| WordMul.MulAddHigh | BaseLib/AES/include/bn_lcl.h:374-385 | the same from a high-word multiply |
| WordMul.MulHigh | BaseLib/AES/include/bn_lcl.h:387-395 | the same without the addend |
| WordMul.SqrHigh | BaseLib/AES/include/bn_lcl.h:397-401 | exact square from a high-word multiply |
| WordMul.Mul64 | BaseLib/AES/include/bn_lcl.h:416-432 | exact double-word product from half words |
| WordMul.Sqr64 | BaseLib/AES/include/bn_lcl.h:434-449 | exact double-word square from half words |
| WordMul.DoubleMiddle | BaseLib/AES/include/bn_lcl.h:444-445 | the two shifts of the middle product lose no bit |
| WordMul.MulAddHalf | BaseLib/AES/include/bn_lcl.h:451-465 | the same from half words |
| WordMul.MulHalf | BaseLib/AES/include/bn_lcl.h:467-479 | the same without the addend |
| WordVectors.CarryChainIsExact | BaseLib/AES/include/bn_lcl.h:324-480 | exact steps with the carry of each going into the next: the vector with the last carry on top is exactly a * m + r + c |
| WordVectors.RowStep | BaseLib/AES/src/bn_asm.c:80-92 | one use of the macro in place extends the chain by one limb and spares the limbs still to be read |
| WordVectors.BnMulAddWords | BaseLib/AES/src/bn_asm.c:71-95 | in every build form and for any number of limbs, the result with the returned top limb is exactly r + a * w, and nothing else is written |
| WordVectors.BnMulWords | BaseLib/AES/src/bn_asm.c:97-119 | the same without the addend, also in place |
| WordVectors.RowsAdded | BaseLib/AES/src/bn_asm.c:963-969 | a row added one place further turns the partial product into that of one limb more |
| WordVectors.MulComba | BaseLib/AES/src/bn_asm.c:963-981 | the limbs written are exactly the product of the two numbers |
| WordVectors.ProductIsNormal | BaseLib/AES/src/bn_word.c:215-235 | a product that needs no limb more has no leading zero limb |
| WordVectors.Bignum.MulWord | BaseLib/AES/src/bn_word.c:215-235 | the number becomes the product without leading zero limbs, and fails only for lack of memory |
| ConfigText.Find | common/LpConfig.c:306-308 | the first occurrence or the end |
| ConfigText.Token | common/LpConfig.c:315-332 | a word of the string without white space |
| ConfigText.TokenPadded | common/LpConfig.c:315-332 | the word between white space, whatever follows that |
| ConfigText.TrimEnd | common/LpConfig.c:342-345 | only trailing spaces go, all of them, but never the first character |
| ConfigText.ChunkLen | common/LpConfig.c:304 | a read makes progress and fits the buffer |
| ConfigText.ChunkMeans | common/LpConfig.c:304 | a read ends behind the first newline, when the buffer is full or at the end, and not before |
| ConfigText.BuildEvents | common/LpConfig.c:179-187 | the events of a configuration rebuild it |
| ConfigText.ParseIsWellformed | common/LpConfig.c:297-359 | everything the parser yields, from any text, is well-formed |
| ConfigText.ItemLineMeans | common/LpConfig.c:326-354 | a hand-written item: white space around the key, anything behind the sign |
| ConfigText.SectionLineMeans | common/LpConfig.c:306-321 | a hand-written section: spaces before the bracket, white space around the name, anything behind |
| ConfigText.NotASection | common/LpConfig.c:306-308 | no section if anything but spaces stands before the first bracket |
| ConfigText.ValueMeans | common/LpConfig.c:334-354 | the value ends at the newline without its trailing spaces, or at the end of the text with them; an empty line of value is none |
| ConfigText.NamelessLines | common/LpConfig.c:306-332 | a bracket that is not closed, a section without a name and an item without a key mean nothing |
| ConfigText.OtherLine | common/LpConfig.c:305-357 | any other line means nothing |
| ConfigText.PrintedShape | common/LpConfig.c:570-594 | the printed file character by character |
| ConfigText.RereadIff | common/LpConfig.c:570-594 | a well-formed section or item survives printing and reading if and only if it is printable |
| ConfigText.ParsePrinted | common/LpConfig.c:589-594 | the printed file is read line by line as printed |
| ConfigText.RoundTripIff | common/LpConfig.c:297-359 | parsing the printed file restores the configuration if and only if every section and item is printable |
| LpConfigStore.Fgets | common/LpConfig.c:304 | fills the buffer through a newline or until it is full, and terminates it |
| LpConfigStore.Strchr | common/LpConfig.c:306-308 | the first occurrence before the terminator |
| LpConfigStore.IsFirstChar | common/LpConfig.c:214-223 | true exactly when only spaces precede |
| LpConfigStore.SscanfWord | common/LpConfig.c:315-332 | the first word of the string |
| LpConfigStore.TrimSpaces | common/LpConfig.c:342-345 | trailing spaces are cut in place |
| LpConfigStore.ReadSection | common/LpConfig.c:308-324 | the section a bracketed line opens, if any |
| LpConfigStore.ReadItem | common/LpConfig.c:326-357 | the item a line adds, if any |
| LpConfigStore.ReadValue | common/LpConfig.c:334-354 | the value behind the sign, with and without a newline |
| LpConfigStore.ParseBuffer | common/LpConfig.c:305-357 | one line edited in place yields what the line grammar says |
| LpConfigStore.LpConfig.Parse | common/LpConfig.c:297-359 | the sections of the whole text are added behind those already there; nothing without a file |
| LpConfigStore.LpConfig.FindSection | common/LpConfig.c:438-451 | the first section of that name |
| LpConfigStore.LpConfig.FindItem | common/LpConfig.c:453-466 | the first item of that key |
| LpConfigStore.LpConfig.GetString | common/LpConfig.c:474-486 | the value found, or the default |
| LpConfigStore.LpConfig.Set | common/LpConfig.c:509-532 | replaces or removes the first item of the key in its place, or adds one at the end of its section or in a new section at the end; nothing else changes |
| LpConfigStore.GetAfterSet | common/LpConfig.c:474-532 | a value set is read back, all others read as before, and a removed key is absent if and only if it was not listed twice |
| MSList.Append | common/Common.c:12-25 | one fresh node at the end, links and order kept |
| MSList.Prepend | common/Common.c:27-35 | one fresh node in front |
| MSList.Concat | common/Common.c:38-50 | the two sequences one behind the other; a null write exactly for an empty second list behind a non-empty first one |
| MSList.RemoveLink | common/Common.c:103-124 | the sequence without that position, the node unlinked |
| MSList.InsertSorted | common/Common.c:179-206 | one fresh node in front of the first element that is not smaller |
| MSList.InsertKeepsSorted | common/Common.c:179-206 | a sorted list stays sorted under any total preorder, gains exactly that element, and has it before its equals |
| MSList.Insert | common/Common.c:208-228 | the old nodes with one fresh one in front of a given node, or at the end without one; unchanged for a foreign one |
| MSList.Copy | common/Common.c:230-238 | fresh nodes with the same data |
| AesWrapper.EcbInverse | BaseLib/AES/src/CryptoWrapper.cpp:127-132 | block-wise decryption and encryption undo each other |
| AesWrapper.EcbAt | BaseLib/AES/src/CryptoWrapper.cpp:65-70 | every block goes through the cipher on its own and stays in its place |
| AesWrapper.RoundTrip | BaseLib/AES/src/CryptoWrapper.cpp:44-144 | for every key and message: ciphertext length, the marker octets, proper padding, message recovered |
| AesWrapper.ReencryptIff | BaseLib/AES/src/CryptoWrapper.cpp:134-143 | an accepted input is the encryption of the output if and only if its padding was proper |
| AesWrapper.ZeroPaddingIsAccepted | BaseLib/AES/src/CryptoWrapper.cpp:134-143 | whole blocks that end in 0 are accepted with nothing stripped, though no encryption yields them |
| AesWrapper.CheckEncrypted | BaseLib/AES/src/CryptoWrapper.cpp:15-42 | accepts exactly the marked inputs |
| AesWrapper.CryptBlocks | BaseLib/AES/src/CryptoWrapper.cpp:65-70 | the block loop is codebook mode, also in place |
| AesWrapper.LastBlock | BaseLib/AES/src/CryptoWrapper.cpp:72-78 | the padded last block |
| AesWrapper.EncryptAES | BaseLib/AES/src/CryptoWrapper.cpp:44-90 | the error cases, the length and the ciphertext |
| AesWrapper.DecryptAES | BaseLib/AES/src/CryptoWrapper.cpp:92-144 | the error cases, the decrypted blocks and the length stripped |
| ServerSelect.PickIsAnother | localproxy/src/NetTestManager.cpp:169-183 | a pick is never the server in use unless it is the only entry |
| ServerSelect.PickByFlags | localproxy/src/NetTestManager.cpp:192-273 | the pick in terms of the two flags and the relay type: both transports, then TCP before UDP for SIP and UDP before TCP for RTP, always the oldest with an address |
| ServerSelect.PickIsBestIff | localproxy/src/NetTestManager.cpp:229-273 | the pick is from the first class in order of preference that has an eligible entry, if and only if the oldest entry of that class has a proper address |
| ServerSelect.EmptyAddressHides | localproxy/src/NetTestManager.cpp:185-273 | a map in which an empty address reported over TCP hides a usable server |
| ServerSelect.NetTestManager.ResetCurrent | localproxy/src/NetTestManager.cpp:169-183 | the entry in use is saved as the default and reset |
| ServerSelect.NetTestManager.FindOldest | localproxy/src/NetTestManager.cpp:185-225 | the least recently updated eligible address of each class |
| ServerSelect.NetTestManager.Prefer | localproxy/src/NetTestManager.cpp:229-273 | the first class in the order of preference that has an eligible entry |
| ServerSelect.NetTestManager.GetNewSvr | localproxy/src/NetTestManager.cpp:164-276 | for every result map the oldest entry of the first class that offers one, else the usable server in use, else nothing; and the maps afterwards |
| ServerSelect.NetTestManager.StartTest | localproxy/src/NetTestManager.cpp:278-336 | when a test starts, which servers are probed over which transport, what is reset, and when the test is active |

## Left out

- The replies that the relay sends per command and the peer channel's forwarding; the dispatch record holds command and payload only.
- `SendTcpPdu` for serialisable packets and all packet-body serialisers, which are parameters here.
- Arming of write interest: which poll events a channel asks for is not modelled.
- Session and channel objects as heap objects: the manager holds them as records, so aliasing between them is not modelled.
- Remote addresses of channels, and the wide-area/local address list.
- BufferPool.UDPChannel.HandleRecv: a UDP peer only; how a TCP peer queues and sends is `RelayStream.TCPChannel.SendBuf`, where packets are values and not pool buffers.
- The loss of unsent octets when a TCP caller is moved to a new socket.
- AES rounds, key schedules, the other modes, and the big-number library apart from its products by a word and of four and eight limbs.
- The probes themselves, the recording and expiry of test results, and the parsing of server lists.
- Truncation of lengths at API boundaries, such as a block count kept in an `int`; lengths are natural numbers.
- The SQLite variant of the configuration store, number parsing, file modes, and the change flags of single items.
- MSList.Insert: stops at the insertion, where the source walks on to the end of the list without effect.
- List search, size and traversal helpers, memory release, logging, HTTP formatting, and random key creation.
